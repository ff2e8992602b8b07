/** Statistical reports over the stores: each fills a buffer in a loop,
    sorts it by non-increasing count with `qsort` and copies out a prefix.
    `qsort` is a parameter here; the lemmas ask it to return a ranking of
    its input (see `Common.IsRankSort`) and say nothing about ties. */
module Reports {
  import opened Common
  import opened Contents
  import opened Users

  /** Size of the category buffer of the categories report. */
  const MaxReportCategories := 100
  /** Size of the user buffer of the activity report. */
  const MaxReportUsers := 1000
  /** Size of the per-content buffer of the interactions report. */
  const MaxReportContents := 1000

  datatype ContentReportItem = ContentReportItem(contentId: int, title: string, count: int)
  datatype CategoryReportItem = CategoryReportItem(category: string, count: int)
  datatype UserReportItem = UserReportItem(userId: int, username: string, count: int)

  function ContentCount(r: ContentReportItem): real { r.count as real }
  function CategoryCount(r: CategoryReportItem): real { r.count as real }
  function UserCount(r: UserReportItem): real { r.count as real }

  // ---------------------------------------------------------------------------
  // The comparators

  /** `compare_content_views`, `compare_category_popularity` and
      `compare_user_activity` all return the second count minus the first. */
  function CompareCounts(a: int, b: int): int
  {
    b - a
  }

  /** The comparators put larger counts first: an item goes before another
      exactly when its count is larger, and a buffer is in comparator order
      exactly when its counts do not increase. */
  lemma ComparatorsDescending(s: seq<ContentReportItem>, t: seq<CategoryReportItem>, u: seq<UserReportItem>)
    ensures forall a: int, b: int :: (CompareCounts(a, b) < 0 <==> a > b) && CompareCounts(a, b) == -CompareCounts(b, a)
    ensures NonIncreasing(s, ContentCount) <==>
            forall i, j :: 0 <= i < j < |s| ==> CompareCounts(s[i].count, s[j].count) <= 0
    ensures NonIncreasing(t, CategoryCount) <==>
            forall i, j :: 0 <= i < j < |t| ==> CompareCounts(t[i].count, t[j].count) <= 0
    ensures NonIncreasing(u, UserCount) <==>
            forall i, j :: 0 <= i < j < |u| ==> CompareCounts(u[i].count, u[j].count) <= 0
  {
  }

  // ---------------------------------------------------------------------------
  // report_most_viewed_contents

  function ViewedItem(c: Content): ContentReportItem
  {
    ContentReportItem(c.id, Truncate(c.title, TitleLimit), c.views)
  }

  /** The first min(count, max) catalogue contents, sorted by views. */
  function MostViewedSpec(items: seq<Content>, max: int,
                          sort: seq<ContentReportItem> -> seq<ContentReportItem>): seq<ContentReportItem>
  {
    if max <= 0 then [] else sort(MapSeq(Take(items, max), ViewedItem))
  }

  /** `report_most_viewed_contents`. */
  method MostViewed(catalog: Catalog, max: int, sort: seq<ContentReportItem> -> seq<ContentReportItem>)
    returns (results: seq<ContentReportItem>)
    ensures results == MostViewedSpec(catalog.items, max, sort)
  {
    if max <= 0 {
      return [];
    }
    var buffer := CopyOut(catalog.items, ViewedItem, max);
    results := sort(buffer);
  }

  /** The report holds exactly the first min(count, max) catalogue contents,
      each with its views, by non-increasing views. */
  lemma MostViewedRanking(items: seq<Content>, max: int, sort: seq<ContentReportItem> -> seq<ContentReportItem>)
    requires IsRankSort(sort, ContentCount) && max > 0
    ensures var r := MostViewedSpec(items, max, sort);
            |r| == Min(|items|, max) && NonIncreasing(r, ContentCount) &&
            (forall x :: x in r ==> exists j :: 0 <= j < Min(|items|, max) && x == ViewedItem(items[j])) &&
            (forall j :: 0 <= j < Min(|items|, max) ==> ViewedItem(items[j]) in r)
  {
    var first := MapSeq(Take(items, max), ViewedItem);
    var r := sort(first);
    assert IsRanking(r, first, ContentCount);
    RankingPrefixFrom(r, first, ContentCount, |r|);
    assert Take(r, |r|) == r;
    forall x | x in r ensures exists j :: 0 <= j < Min(|items|, max) && x == ViewedItem(items[j]) {
      var j :| 0 <= j < |first| && first[j] == x;
    }
    forall j | 0 <= j < Min(|items|, max) ensures ViewedItem(items[j]) in r {
      assert first[j] in multiset(r);
    }
  }

  /** The report is not the catalogue's top N: with views 1 and 5 and room
      for one row, the content with 1 view is reported and the one with 5
      is not. */
  lemma MostViewedNotTopN(sort: seq<ContentReportItem> -> seq<ContentReportItem>)
    requires IsRankSort(sort, ContentCount)
    ensures var low := Content(1, "a", "x", 60, 0, 1);
            var high := Content(2, "b", "x", 60, 0, 5);
            MostViewedSpec([low, high], 1, sort) == [ViewedItem(low)]
  {
    var low := Content(1, "a", "x", 60, 0, 1);
    var high := Content(2, "b", "x", 60, 0, 5);
    var first := MapSeq(Take([low, high], 1), ViewedItem);
    assert first == [ViewedItem(low)];
    var r := sort(first);
    assert IsRanking(r, first, ContentCount);
    assert |r| == 1 by { assert |multiset(r)| == |multiset(first)|; }
    assert r[0] in multiset(first);
  }

  // ---------------------------------------------------------------------------
  // report_most_active_users

  function ActivityItem(u: User): UserReportItem
  {
    UserReportItem(u.id, Truncate(u.username, UsernameLimit), u.interactionCount)
  }

  /** The first 1000 users with their maintained counters, sorted, then the
      first `max`. */
  function MostActiveSpec(users: seq<User>, max: int,
                          sort: seq<UserReportItem> -> seq<UserReportItem>): seq<UserReportItem>
  {
    if max <= 0 then [] else Take(sort(MapSeq(Take(users, MaxReportUsers), ActivityItem)), max)
  }

  /** `report_most_active_users`. */
  method MostActive(manager: UserManager, max: int, sort: seq<UserReportItem> -> seq<UserReportItem>)
    returns (results: seq<UserReportItem>)
    ensures results == MostActiveSpec(manager.users, max, sort)
  {
    if max <= 0 {
      return [];
    }
    var users := manager.users;
    var buffer: seq<UserReportItem> := [];
    var i := 0;
    while i < |users| && |buffer| < MaxReportUsers
      invariant 0 <= i <= |users| && |buffer| == i && i <= MaxReportUsers
      invariant buffer == MapSeq(users[..i], ActivityItem)
    {
      buffer := buffer + [ActivityItem(users[i])];
      i := i + 1;
    }
    assert users[..i] == Take(users, MaxReportUsers);
    var sorted := sort(buffer);
    results := Take(sorted, max);
  }

  /** With a consistent store, every reported count is the user's number of
      log entries, the report is most active first, and any user left out
      (among the first 1000) has no more entries than any user reported. */
  lemma MostActiveRanking(users: seq<User>, log: seq<Interaction>, max: int,
                          sort: seq<UserReportItem> -> seq<UserReportItem>)
    requires IsRankSort(sort, UserCount) && Consistent(users, log) && max > 0
    ensures var all := MapSeq(Take(users, MaxReportUsers), ActivityItem);
            var r := MostActiveSpec(users, max, sort);
            |r| == Min(max, Min(|users|, MaxReportUsers)) && NonIncreasing(r, UserCount) &&
            (forall x :: x in r ==> x.userId in UserIds(users) && x.count == CountFor(log, x.userId)) &&
            (forall x, i :: x in multiset(all) - multiset(r) && 0 <= i < |r| ==> x.count <= r[i].count)
  {
    var all := MapSeq(Take(users, MaxReportUsers), ActivityItem);
    var sorted := sort(all);
    assert IsRanking(sorted, all, UserCount);
    RankingPrefixFrom(sorted, all, UserCount, max);
    RankingPrefixIsTop(sorted, all, UserCount, max);
    ActivityCounted(users, log);
  }

  /** In a consistent store every activity row carries the user's number of
      log entries. */
  lemma ActivityCounted(users: seq<User>, log: seq<Interaction>)
    requires Consistent(users, log)
    ensures forall x :: x in MapSeq(Take(users, MaxReportUsers), ActivityItem) ==>
              x.userId in UserIds(users) && x.count == CountFor(log, x.userId)
  {
    var all := MapSeq(Take(users, MaxReportUsers), ActivityItem);
    forall x | x in all ensures x.userId in UserIds(users) && x.count == CountFor(log, x.userId) {
      var j :| 0 <= j < |all| && all[j] == x;
      assert users[j] in users;
      assert UserIds(users)[j] == x.userId;
    }
  }

  // ---------------------------------------------------------------------------
  // report_most_popular_categories

  function ReportCategories(t: seq<CategoryReportItem>): (names: seq<string>)
    ensures |names| == |t| && forall k :: 0 <= k < |t| ==> names[k] == t[k].category
  {
    MapSeq(t, (r: CategoryReportItem) => r.category)
  }

  /** One step of the category loop: add the views to the row with that
      exact name, or open a row while fewer than 100 exist. */
  function Summed(t: seq<CategoryReportItem>, c: Content): seq<CategoryReportItem>
  {
    var k := FirstIndex(ReportCategories(t), c.category);
    if k >= 0 then t[k := t[k].(count := t[k].count + c.views)]
    else if |t| < MaxReportCategories then t + [CategoryReportItem(Truncate(c.category, CategoryLimit), c.views)]
    else t
  }

  /** The category buffer after scanning the catalogue in order. */
  function CategoryTotals(items: seq<Content>): (t: seq<CategoryReportItem>)
    ensures |t| <= MaxReportCategories
  {
    if items == [] then [] else Summed(CategoryTotals(items[..|items| - 1]), items[|items| - 1])
  }

  /** The views of all catalogue contents of one category. */
  function ViewsIn(items: seq<Content>, name: string): int
  {
    if items == [] then 0
    else
      var c := items[|items| - 1];
      ViewsIn(items[..|items| - 1], name) + (if c.category == name then c.views else 0)
  }

  function PopularCategoriesSpec(items: seq<Content>, max: int,
                                 sort: seq<CategoryReportItem> -> seq<CategoryReportItem>): seq<CategoryReportItem>
  {
    if max <= 0 then [] else Take(sort(CategoryTotals(items)), max)
  }

  /** `report_most_popular_categories`. */
  method PopularCategories(catalog: Catalog, max: int, sort: seq<CategoryReportItem> -> seq<CategoryReportItem>)
    returns (results: seq<CategoryReportItem>)
    ensures results == PopularCategoriesSpec(catalog.items, max, sort)
  {
    if max <= 0 {
      return [];
    }
    var items := catalog.items;
    var t: seq<CategoryReportItem> := [];
    var i := 0;
    while i < |items|
      invariant 0 <= i <= |items|
      invariant t == CategoryTotals(items[..i])
    {
      TotalsStep(items, i);
      var c := items[i];
      ghost var before := t;
      var k := IndexOf(ReportCategories(t), c.category);
      if k >= 0 {
        t := t[k := t[k].(count := t[k].count + c.views)];
      } else if |t| < MaxReportCategories {
        t := t + [CategoryReportItem(Truncate(c.category, CategoryLimit), c.views)];
      }
      assert t == Summed(before, c);
      i := i + 1;
    }
    assert items[..i] == items;
    var sorted := sort(t);
    results := Take(sorted, max);
  }

  /** The buffer after one more content is one step of the loop further. */
  lemma TotalsStep(items: seq<Content>, i: nat)
    requires i < |items|
    ensures CategoryTotals(items[..i + 1]) == Summed(CategoryTotals(items[..i]), items[i])
  {
    assert items[..i + 1][..i] == items[..i];
  }

  /** A category no content has gets no views. */
  lemma {:induction false} NoContentNoViews(items: seq<Content>, name: string)
    requires forall i :: 0 <= i < |items| ==> items[i].category != name
    ensures ViewsIn(items, name) == 0
  {
    if items != [] {
      NoContentNoViews(items[..|items| - 1], name);
    }
  }

  /** The rows of the category buffer as `CategoryTotalsSpec` describes them. */
  ghost predicate TotalsCorrect(items: seq<Content>, t: seq<CategoryReportItem>)
  {
    Distinct(ReportCategories(t)) &&
    (forall k :: 0 <= k < |t| ==> t[k].count == ViewsIn(items, t[k].category)) &&
    (|t| < MaxReportCategories ==> forall i :: 0 <= i < |items| ==> items[i].category in ReportCategories(t))
  }

  /** With categories that fit their buffer, the buffer has one row per
      category, each holding the total views of that category's contents,
      and below 100 rows every catalogue category has its row. */
  lemma {:induction false} CategoryTotalsSpec(items: seq<Content>)
    requires forall c :: c in items ==> |c.category| <= CategoryLimit
    ensures TotalsCorrect(items, CategoryTotals(items))
  {
    if items != [] {
      var q := items[..|items| - 1];
      assert forall c :: c in q ==> c in items;
      CategoryTotalsSpec(q);
      SummedStep(items);
    }
  }

  /** The last content adds its views to its own category only. */
  lemma ViewsInLast(items: seq<Content>, name: string)
    requires items != []
    ensures var c := items[|items| - 1];
            ViewsIn(items, name) == ViewsIn(items[..|items| - 1], name) + (if name == c.category then c.views else 0)
  {
  }

  lemma {:induction false} SummedStep(items: seq<Content>)
    requires items != [] && forall c :: c in items ==> |c.category| <= CategoryLimit
    requires TotalsCorrect(items[..|items| - 1], CategoryTotals(items[..|items| - 1]))
    ensures TotalsCorrect(items, CategoryTotals(items))
  {
    var q := items[..|items| - 1];
    var c := items[|items| - 1];
    var p := CategoryTotals(q);
    assert CategoryTotals(items) == Summed(p, c);
    var k := FirstIndex(ReportCategories(p), c.category);
    if k >= 0 {
      SummedBump(items, k);
    } else if |p| < MaxReportCategories {
      SummedOpen(items);
    } else {
      forall j | 0 <= j < |p| ensures p[j].count == ViewsIn(items, p[j].category) {
        ViewsInLast(items, p[j].category);
        assert p[j].category in ReportCategories(p);
      }
    }
  }

  /** A content of a category that has its row adds to that row. */
  lemma {:induction false} SummedBump(items: seq<Content>, k: int)
    requires items != []
    requires TotalsCorrect(items[..|items| - 1], CategoryTotals(items[..|items| - 1]))
    requires k == FirstIndex(ReportCategories(CategoryTotals(items[..|items| - 1])), items[|items| - 1].category) && k >= 0
    ensures TotalsCorrect(items, CategoryTotals(items))
  {
    var q := items[..|items| - 1];
    var c := items[|items| - 1];
    var p := CategoryTotals(q);
    var t := CategoryTotals(items);
    assert t == p[k := p[k].(count := p[k].count + c.views)];
    assert ReportCategories(t) == ReportCategories(p);
    forall j | 0 <= j < |t| ensures t[j].count == ViewsIn(items, t[j].category) {
      ViewsInLast(items, t[j].category);
      if j != k {
        assert p[j].category == ReportCategories(p)[j] != ReportCategories(p)[k] == c.category;
      }
    }
    forall i | 0 <= i < |items| && |t| < MaxReportCategories ensures items[i].category in ReportCategories(t) {
      if i < |q| {
        assert items[i] == q[i];
      }
    }
  }

  /** A content of a new category opens a row while there is room. */
  lemma {:induction false} SummedOpen(items: seq<Content>)
    requires items != [] && forall c :: c in items ==> |c.category| <= CategoryLimit
    requires TotalsCorrect(items[..|items| - 1], CategoryTotals(items[..|items| - 1]))
    requires var p := CategoryTotals(items[..|items| - 1]);
             items[|items| - 1].category !in ReportCategories(p) && |p| < MaxReportCategories
    ensures TotalsCorrect(items, CategoryTotals(items))
  {
    var q := items[..|items| - 1];
    var c := items[|items| - 1];
    var p := CategoryTotals(q);
    var t := CategoryTotals(items);
    assert c in items;
    assert Truncate(c.category, CategoryLimit) == c.category;
    assert t == p + [CategoryReportItem(c.category, c.views)];
    assert ReportCategories(t) == ReportCategories(p) + [c.category];
    forall i | 0 <= i < |q| ensures q[i].category != c.category {
      assert q[i].category in ReportCategories(p);
    }
    NoContentNoViews(q, c.category);
    forall j | 0 <= j < |t| ensures t[j].count == ViewsIn(items, t[j].category) {
      ViewsInLast(items, t[j].category);
      if j < |p| {
        assert p[j].category in ReportCategories(p);
      }
    }
    forall i | 0 <= i < |items| && |t| < MaxReportCategories ensures items[i].category in ReportCategories(t) {
      if i < |q| {
        assert items[i] == q[i];
      }
    }
  }

  /** The categories report lists distinct categories with their total
      views, most viewed first; any category left out of the report has no
      more views than any category in it. */
  lemma PopularCategoriesRanking(items: seq<Content>, max: int,
                                 sort: seq<CategoryReportItem> -> seq<CategoryReportItem>)
    requires IsRankSort(sort, CategoryCount) && max > 0
    requires forall c :: c in items ==> |c.category| <= CategoryLimit
    ensures var t := CategoryTotals(items);
            var r := PopularCategoriesSpec(items, max, sort);
            |r| == Min(max, |t|) && NonIncreasing(r, CategoryCount) &&
            (forall x :: x in r ==> x.count == ViewsIn(items, x.category)) &&
            (forall x, i :: x in multiset(t) - multiset(r) && 0 <= i < |r| ==> x.count <= r[i].count)
  {
    var t := CategoryTotals(items);
    CategoryTotalsSpec(items);
    var sorted := sort(t);
    assert IsRanking(sorted, t, CategoryCount);
    RankingPrefixFrom(sorted, t, CategoryCount, max);
    RankingPrefixIsTop(sorted, t, CategoryCount, max);
    forall x | x in Take(sorted, max) ensures x.count == ViewsIn(items, x.category) {
      var j :| 0 <= j < |t| && t[j] == x;
    }
  }

  // ---------------------------------------------------------------------------
  // report_user_interactions

  function ReportIds(t: seq<ContentReportItem>): (ids: seq<int>)
    ensures |ids| == |t| && forall k :: 0 <= k < |t| ==> ids[k] == t[k].contentId
  {
    MapSeq(t, (r: ContentReportItem) => r.contentId)
  }

  /** One step of the interactions loop: bump the row of that content, or
      open a row for a catalogue content while fewer than 1000 exist. */
  function Counted(t: seq<ContentReportItem>, items: seq<Content>, cid: int): seq<ContentReportItem>
  {
    var k := FirstIndex(ReportIds(t), cid);
    if k >= 0 then t[k := t[k].(count := t[k].count + 1)]
    else if |t| < MaxReportContents then
      match Find(items, cid)
      case Some(c) => t + [ContentReportItem(c.id, Truncate(c.title, TitleLimit), 1)]
      case None => t
    else t
  }

  /** The per-content buffer after scanning the log in order. */
  function InteractionTally(items: seq<Content>, log: seq<Interaction>, uid: int): (t: seq<ContentReportItem>)
    ensures |t| <= MaxReportContents
  {
    if log == [] then []
    else
      var p := InteractionTally(items, log[..|log| - 1], uid);
      var e := log[|log| - 1];
      if e.userId == uid then Counted(p, items, e.contentId) else p
  }

  /** How many log entries of the user name that content, of any type. */
  function PairCount(log: seq<Interaction>, uid: int, cid: int): nat
  {
    if log == [] then 0
    else
      var e := log[|log| - 1];
      PairCount(log[..|log| - 1], uid, cid) + (if e.userId == uid && e.contentId == cid then 1 else 0)
  }

  function UserInteractionsSpec(users: seq<User>, items: seq<Content>, log: seq<Interaction>, uid: int, max: int,
                                sort: seq<ContentReportItem> -> seq<ContentReportItem>): seq<ContentReportItem>
  {
    if uid <= 0 || max <= 0 || FindUser(users, uid).None? then []
    else Take(sort(InteractionTally(items, log, uid)), max)
  }

  /** `report_user_interactions`. */
  method UserInteractions(manager: UserManager, catalog: Catalog, uid: int, max: int,
                          sort: seq<ContentReportItem> -> seq<ContentReportItem>)
    returns (results: seq<ContentReportItem>)
    ensures results == UserInteractionsSpec(manager.users, catalog.items, manager.log, uid, max, sort)
  {
    if uid <= 0 || max <= 0 {
      return [];
    }
    var user := manager.GetById(uid);
    if user.None? {
      return [];
    }
    var log := manager.log;
    var t: seq<ContentReportItem> := [];
    var i := 0;
    while i < |log|
      invariant 0 <= i <= |log|
      invariant t == InteractionTally(catalog.items, log[..i], uid)
    {
      assert log[..i + 1][..i] == log[..i];
      var e := log[i];
      if e.userId == uid {
        var k := IndexOf(ReportIds(t), e.contentId);
        if k >= 0 {
          t := t[k := t[k].(count := t[k].count + 1)];
        } else if |t| < MaxReportContents {
          var content := catalog.GetById(e.contentId);
          if content.Some? {
            t := t + [ContentReportItem(content.value.id, Truncate(content.value.title, TitleLimit), 1)];
          }
        }
      }
      i := i + 1;
    }
    assert log[..i] == log;
    var sorted := sort(t);
    results := Take(sorted, max);
  }

  /** The rows of the per-content buffer as `InteractionTallySpec` describes them. */
  ghost predicate TallyCorrect(items: seq<Content>, log: seq<Interaction>, uid: int, t: seq<ContentReportItem>)
  {
    Distinct(ReportIds(t)) &&
    (forall k :: 0 <= k < |t| ==> t[k].contentId in ContentIds(items) && t[k].count == PairCount(log, uid, t[k].contentId)) &&
    (|t| < MaxReportContents ==>
       forall i :: 0 <= i < |log| && log[i].userId == uid && Find(items, log[i].contentId).Some? ==>
         log[i].contentId in ReportIds(t))
  }

  /** Each row is a catalogue content with the number of the user's entries
      naming it; contents appear once; below 1000 rows every catalogue
      content the user touched has its row. */
  lemma {:induction false} InteractionTallySpec(items: seq<Content>, log: seq<Interaction>, uid: int)
    ensures TallyCorrect(items, log, uid, InteractionTally(items, log, uid))
  {
    if log != [] {
      InteractionTallySpec(items, log[..|log| - 1], uid);
      CountedStep(items, log, uid);
    }
  }

  /** A content without entries of the user counts 0. */
  lemma {:induction false} NoEntriesNoCount(log: seq<Interaction>, uid: int, cid: int)
    requires forall i :: 0 <= i < |log| ==> log[i].userId != uid || log[i].contentId != cid
    ensures PairCount(log, uid, cid) == 0
  {
    if log != [] {
      NoEntriesNoCount(log[..|log| - 1], uid, cid);
    }
  }

  /** The last entry counts for its own user and content only. */
  lemma PairCountLast(log: seq<Interaction>, uid: int, cid: int)
    requires log != []
    ensures var e := log[|log| - 1];
            PairCount(log, uid, cid) == PairCount(log[..|log| - 1], uid, cid) + (if e.userId == uid && e.contentId == cid then 1 else 0)
  {
  }

  lemma {:induction false} CountedStep(items: seq<Content>, log: seq<Interaction>, uid: int)
    requires log != []
    requires TallyCorrect(items, log[..|log| - 1], uid, InteractionTally(items, log[..|log| - 1], uid))
    ensures TallyCorrect(items, log, uid, InteractionTally(items, log, uid))
  {
    var q := log[..|log| - 1];
    var e := log[|log| - 1];
    var p := InteractionTally(items, q, uid);
    if e.userId == uid {
      var k := FirstIndex(ReportIds(p), e.contentId);
      if k >= 0 {
        CountedBump(items, log, uid, k);
      } else if |p| < MaxReportContents && Find(items, e.contentId).Some? {
        CountedOpen(items, log, uid);
      } else {
        CountedSkip(items, log, uid);
      }
    } else {
      CountedSkip(items, log, uid);
    }
  }

  /** An entry whose content has its row adds one to that row. */
  lemma {:induction false} CountedBump(items: seq<Content>, log: seq<Interaction>, uid: int, k: int)
    requires log != [] && log[|log| - 1].userId == uid
    requires TallyCorrect(items, log[..|log| - 1], uid, InteractionTally(items, log[..|log| - 1], uid))
    requires k == FirstIndex(ReportIds(InteractionTally(items, log[..|log| - 1], uid)), log[|log| - 1].contentId) && k >= 0
    ensures TallyCorrect(items, log, uid, InteractionTally(items, log, uid))
  {
    var q := log[..|log| - 1];
    var cid := log[|log| - 1].contentId;
    var p := InteractionTally(items, q, uid);
    var t := InteractionTally(items, log, uid);
    assert t == p[k := p[k].(count := p[k].count + 1)];
    assert ReportIds(t) == ReportIds(p);
    forall j | 0 <= j < |t| ensures t[j].contentId in ContentIds(items) && t[j].count == PairCount(log, uid, t[j].contentId) {
      PairCountLast(log, uid, t[j].contentId);
      if j != k {
        assert p[j].contentId == ReportIds(p)[j] != ReportIds(p)[k] == cid;
      }
    }
    forall i | 0 <= i < |log| && |t| < MaxReportContents && log[i].userId == uid && Find(items, log[i].contentId).Some?
      ensures log[i].contentId in ReportIds(t)
    {
      if i < |q| {
        assert log[i] == q[i];
      }
    }
  }

  /** An entry for a catalogue content without a row opens one while there
      is room. */
  lemma {:induction false} CountedOpen(items: seq<Content>, log: seq<Interaction>, uid: int)
    requires log != [] && log[|log| - 1].userId == uid
    requires TallyCorrect(items, log[..|log| - 1], uid, InteractionTally(items, log[..|log| - 1], uid))
    requires var p := InteractionTally(items, log[..|log| - 1], uid);
             var cid := log[|log| - 1].contentId;
             cid !in ReportIds(p) && |p| < MaxReportContents && Find(items, cid).Some?
    ensures TallyCorrect(items, log, uid, InteractionTally(items, log, uid))
  {
    var q := log[..|log| - 1];
    var cid := log[|log| - 1].contentId;
    var p := InteractionTally(items, q, uid);
    var t := InteractionTally(items, log, uid);
    var c := Find(items, cid).value;
    assert t == p + [ContentReportItem(c.id, Truncate(c.title, TitleLimit), 1)];
    assert ReportIds(t) == ReportIds(p) + [cid];
    forall i | 0 <= i < |q| ensures q[i].userId != uid || q[i].contentId != cid {
      assert Find(items, cid).Some?;
    }
    NoEntriesNoCount(q, uid, cid);
    assert cid in ContentIds(items);
    forall j | 0 <= j < |t| ensures t[j].contentId in ContentIds(items) && t[j].count == PairCount(log, uid, t[j].contentId) {
      PairCountLast(log, uid, t[j].contentId);
      if j < |p| {
        assert p[j].contentId in ReportIds(p);
      }
    }
    forall i | 0 <= i < |log| && |t| < MaxReportContents && log[i].userId == uid && Find(items, log[i].contentId).Some?
      ensures log[i].contentId in ReportIds(t)
    {
      if i < |q| {
        assert log[i] == q[i];
      }
    }
  }

  /** An entry of another user, or one that finds no row and no room or no
      catalogue content, leaves the buffer as it is. */
  lemma {:induction false} CountedSkip(items: seq<Content>, log: seq<Interaction>, uid: int)
    requires log != []
    requires TallyCorrect(items, log[..|log| - 1], uid, InteractionTally(items, log[..|log| - 1], uid))
    requires var p := InteractionTally(items, log[..|log| - 1], uid);
             var e := log[|log| - 1];
             e.userId != uid ||
             (e.contentId !in ReportIds(p) && (|p| >= MaxReportContents || Find(items, e.contentId).None?))
    ensures TallyCorrect(items, log, uid, InteractionTally(items, log, uid))
  {
    var q := log[..|log| - 1];
    var e := log[|log| - 1];
    var p := InteractionTally(items, q, uid);
    var t := InteractionTally(items, log, uid);
    assert t == p;
    forall j | 0 <= j < |t| ensures t[j].contentId in ContentIds(items) && t[j].count == PairCount(log, uid, t[j].contentId) {
      PairCountLast(log, uid, t[j].contentId);
      assert p[j].contentId in ReportIds(p);
    }
    forall i | 0 <= i < |log| && |t| < MaxReportContents && log[i].userId == uid && Find(items, log[i].contentId).Some?
      ensures log[i].contentId in ReportIds(t)
    {
      if i < |q| {
        assert log[i] == q[i];
      }
    }
  }

  /** The first `max` rows of the sorted per-content buffer: distinct
      catalogue contents with the user's entry counts, most used first, and
      no row left out counts more than a row kept. */
  lemma {:induction false} InteractionRanking(items: seq<Content>, log: seq<Interaction>, uid: int, max: int,
                                              sort: seq<ContentReportItem> -> seq<ContentReportItem>)
    requires IsRankSort(sort, ContentCount) && max > 0
    ensures var t := InteractionTally(items, log, uid);
            var r := Take(sort(t), max);
            |r| == Min(max, |t|) && NonIncreasing(r, ContentCount) &&
            (forall x :: x in r ==> x.contentId in ContentIds(items) && x.count == PairCount(log, uid, x.contentId)) &&
            (forall x, i :: x in multiset(t) - multiset(r) && 0 <= i < |r| ==> x.count <= r[i].count)
  {
    var t := InteractionTally(items, log, uid);
    InteractionTallySpec(items, log, uid);
    var sorted := sort(t);
    assert IsRanking(sorted, t, ContentCount);
    RankingPrefixFrom(sorted, t, ContentCount, max);
    RankingPrefixIsTop(sorted, t, ContentCount, max);
    forall x | x in Take(sorted, max) ensures x.contentId in ContentIds(items) && x.count == PairCount(log, uid, x.contentId) {
      var j :| 0 <= j < |t| && t[j] == x;
    }
  }

  /** The interactions report of a registered user is that ranking; an
      unknown user, a non-positive id or a non-positive `max` get an empty
      report. */
  lemma UserInteractionsRanking(users: seq<User>, items: seq<Content>, log: seq<Interaction>, uid: int, max: int,
                                sort: seq<ContentReportItem> -> seq<ContentReportItem>)
    requires IsRankSort(sort, ContentCount)
    ensures uid <= 0 || max <= 0 || FindUser(users, uid).None? ==> UserInteractionsSpec(users, items, log, uid, max, sort) == []
    ensures FindUser(users, uid).Some? && max > 0 ==>
              var t := InteractionTally(items, log, uid);
              var r := UserInteractionsSpec(users, items, log, uid, max, sort);
              r == Take(sort(t), max) && |r| == Min(max, |t|) && NonIncreasing(r, ContentCount) &&
              (forall x :: x in r ==> x.contentId in ContentIds(items) && x.count == PairCount(log, uid, x.contentId))
  {
    if FindUser(users, uid).Some? && max > 0 {
      InteractionRanking(items, log, uid, max, sort);
    }
  }
}
