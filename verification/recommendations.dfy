/** The recommendation engine: read-only strategies over the catalogue and
    the interaction log, each filling a score buffer, sorting it in
    descending score order and copying out the first ids. */
module Recommendations {
  import opened Common
  import opened Contents
  import opened Users

  /** Cap each sub-strategy gets inside the blend (MAX_RECOMMENDATIONS). */
  const MaxRecommendations := 10
  /** Size of every score buffer. */
  const MaxCandidates := 1000
  /** Size of the watched-content buffer. */
  const MaxWatched := 100
  /** Size of the category tally. */
  const MaxCategories := 100

  datatype ContentScore = ContentScore(contentId: int, score: real)

  function ScoreOf(s: ContentScore): real { s.score }

  function IdOf(s: ContentScore): int { s.contentId }

  /** The sorted buffer's first `max` ids. */
  function Ranked(scores: seq<ContentScore>, max: int, sort: seq<ContentScore> -> seq<ContentScore>): seq<int>
  {
    MapSeq(Take(sort(scores), max), IdOf)
  }

  // ---------------------------------------------------------------------------
  // compare_scores

  /** `compare_scores`: positive when `b` scores higher, so `qsort` puts
      higher scores first. */
  function CompareScores(a: ContentScore, b: ContentScore): (r: int)
    ensures -1 <= r <= 1
  {
    if b.score > a.score then 1 else if b.score < a.score then -1 else 0
  }

  /** The comparator is antisymmetric, and a buffer is in the order it asks
      for exactly when its scores do not increase. */
  lemma ComparatorOrderIsNonIncreasing(s: seq<ContentScore>)
    ensures forall a, b :: CompareScores(a, b) == -CompareScores(b, a)
    ensures NonIncreasing(s, ScoreOf) <==>
            forall i, j :: 0 <= i < j < |s| ==> CompareScores(s[i], s[j]) <= 0
  {
  }

  // ---------------------------------------------------------------------------
  // Similarity

  function Abs(x: int): nat { if x < 0 then -x else x }

  /** `recommendation_calculate_similarity` on two contents: 0.6 for the same
      category, up to 0.2 for close age ratings (on a scale of 18) and, when
      the longer duration is positive, up to 0.2 for close durations. */
  function Similarity(a: Content, b: Content): real
  {
    var category := if a.category == b.category then 0.6 else 0.0;
    var age := 0.2 * (1.0 - Abs(a.ageRating - b.ageRating) as real / 18.0);
    var longer := if a.duration > b.duration then a.duration else b.duration;
    var duration := if longer > 0
                    then 0.2 * (1.0 - Abs(a.duration - b.duration) as real / longer as real)
                    else 0.0;
    category + age + duration
  }

  /** The same with C's NULL arguments: a missing content gives 0. */
  function SimilarityOf(a: Option<Content>, b: Option<Content>): (r: real)
    ensures a.None? || b.None? ==> r == 0.0
  {
    if a.None? || b.None? then 0.0 else Similarity(a.value, b.value)
  }

  lemma SimilaritySymmetric(a: Content, b: Content)
    ensures Similarity(a, b) == Similarity(b, a)
  {
    assert Abs(a.ageRating - b.ageRating) == Abs(b.ageRating - a.ageRating);
    assert Abs(a.duration - b.duration) == Abs(b.duration - a.duration);
  }

  /** A content is fully similar to itself when its duration is positive. */
  lemma SimilarityOfSelf(a: Content)
    requires a.duration > 0
    ensures Similarity(a, a) == 1.0
  {
  }

  /** With non-negative durations the score is at most 1; it is at least 0
      only while the age ratings are at most 18 apart. */
  lemma SimilarityBounds(a: Content, b: Content)
    requires a.duration >= 0 && b.duration >= 0
    ensures Similarity(a, b) <= 1.0
    ensures Abs(a.ageRating - b.ageRating) <= 18 ==> Similarity(a, b) >= 0.0
  {
    var longer := if a.duration > b.duration then a.duration else b.duration;
    var d := Abs(a.duration - b.duration);
    if longer > 0 {
      RatioInUnit(d as real, longer as real);
    }
  }

  lemma RatioInUnit(d: real, l: real)
    requires 0.0 <= d <= l && l > 0.0
    ensures 0.0 <= d / l <= 1.0
  {
  }

  /** The documented range [0, 1] does not hold: age ratings 0 and 100 in
      different categories give a negative score. */
  lemma SimilarityCanBeNegative()
    ensures Similarity(Content(1, "A", "x", 90, 0, 0), Content(2, "B", "y", 90, 100, 0)) < 0.0
  {
  }

  /** Two action films score higher together than an action film and a
      comedy (the contents of the recommendation test). */
  lemma SimilarityExample()
    ensures var film1 := Content(1, "Filme de Ação 1", "Ação", 120, 16, 10);
            var film2 := Content(2, "Filme de Ação 2", "Ação", 110, 14, 20);
            var comedy := Content(3, "Comédia 1", "Comédia", 100, 12, 5);
            Similarity(film1, film2) > Similarity(film1, comedy)
  {
  }

  // ---------------------------------------------------------------------------
  // Watched contents

  /** A PLAY or COMPLETE entry of that user for that content. */
  predicate Watches(e: Interaction, uid: int, cid: int)
  {
    e.userId == uid && e.contentId == cid && (e.kind == Complete || e.kind == Play)
  }

  /** `recommendation_has_watched`. */
  predicate HasWatched(log: seq<Interaction>, uid: int, cid: int)
  {
    uid > 0 && cid > 0 && exists i :: 0 <= i < |log| && Watches(log[i], uid, cid)
  }

  /** The scan of `recommendation_has_watched`, which stops at the first hit. */
  method HasWatchedScan(users: UserManager, uid: int, cid: int) returns (b: bool)
    ensures b == HasWatched(users.log, uid, cid)
  {
    if uid <= 0 || cid <= 0 {
      return false;
    }
    var i := 0;
    while i < |users.log|
      invariant 0 <= i <= |users.log|
      invariant forall j :: 0 <= j < i ==> !Watches(users.log[j], uid, cid)
    {
      var e := users.log[i];
      if e.userId == uid && e.contentId == cid && (e.kind == Complete || e.kind == Play) {
        return true;
      }
      i := i + 1;
    }
    return false;
  }

  predicate Completed(e: Interaction, uid: int)
  {
    e.userId == uid && e.kind == Complete
  }

  /** The watched set of the similarity strategy: distinct content ids of the
      user's COMPLETE entries in log order, keeping the first 100. */
  function WatchedIds(log: seq<Interaction>, uid: int): (w: seq<int>)
    ensures Distinct(w) && |w| <= MaxWatched
  {
    if log == [] then []
    else
      var p := WatchedIds(log[..|log| - 1], uid);
      var e := log[|log| - 1];
      if Completed(e, uid) then
        InsertKeepsSet(p, e.contentId, MaxWatched);
        Inserted(p, e.contentId, MaxWatched).1
      else p
  }

  /** Every watched id comes from a COMPLETE entry of the user, and below the
      cap every such entry's content is in the set. */
  lemma {:induction false} WatchedIdsSpec(log: seq<Interaction>, uid: int)
    ensures var w := WatchedIds(log, uid);
            (forall x :: x in w ==> exists i :: 0 <= i < |log| && Completed(log[i], uid) && log[i].contentId == x) &&
            (|w| < MaxWatched ==> forall i :: 0 <= i < |log| && Completed(log[i], uid) ==> log[i].contentId in w)
  {
    if log != [] {
      var q := log[..|log| - 1];
      var p := WatchedIds(q, uid);
      var w := WatchedIds(log, uid);
      WatchedIdsSpec(q, uid);
      forall x | x in w ensures exists i :: 0 <= i < |log| && Completed(log[i], uid) && log[i].contentId == x {
        if x in p {
          var i :| 0 <= i < |q| && Completed(q[i], uid) && q[i].contentId == x;
          assert log[i] == q[i];
        } else {
          assert Completed(log[|log| - 1], uid) && log[|log| - 1].contentId == x;
        }
      }
      if |w| < MaxWatched {
        assert |p| <= |w|;
        forall i | 0 <= i < |log| && Completed(log[i], uid) ensures log[i].contentId in w {
          if i < |q| {
            assert log[i] == q[i];
            assert forall y :: y in p ==> y in w;
          }
        }
      }
    }
  }

  /** The watched set is empty exactly when the user has no COMPLETE entry. */
  lemma {:induction false} WatchedEmpty(log: seq<Interaction>, uid: int)
    ensures WatchedIds(log, uid) == [] <==> forall i :: 0 <= i < |log| ==> !Completed(log[i], uid)
  {
    if log != [] {
      var q := log[..|log| - 1];
      var p := WatchedIds(q, uid);
      var e := log[|log| - 1];
      WatchedEmpty(q, uid);
      if Completed(e, uid) {
        var w := Inserted(p, e.contentId, MaxWatched).1;
        assert w != [] by {
          if e.contentId in p {
            assert w == p;
          } else if |p| >= MaxWatched {
            assert w == p;
          } else {
            assert w == p + [e.contentId];
          }
        }
      } else {
        assert forall i :: 0 <= i < |q| ==> q[i] == log[i];
      }
    }
  }

  /** Once the watched buffer is full, later entries change nothing. */
  lemma {:induction false} WatchedStaysFull(log: seq<Interaction>, uid: int, i: nat)
    requires i <= |log| && |WatchedIds(log[..i], uid)| >= MaxWatched
    ensures WatchedIds(log, uid) == WatchedIds(log[..i], uid)
  {
    if i == |log| {
      assert log[..i] == log;
    } else {
      var q := log[..|log| - 1];
      assert q[..i] == log[..i];
      WatchedStaysFull(q, uid, i);
    }
  }

  /** The watched-set loop of `recommendation_by_content_similarity`. */
  method CollectWatched(users: UserManager, uid: int) returns (w: seq<int>)
    ensures w == WatchedIds(users.log, uid)
  {
    var log := users.log;
    w := [];
    var i := 0;
    while i < |log| && |w| < MaxWatched
      invariant 0 <= i <= |log|
      invariant w == WatchedIds(log[..i], uid)
    {
      assert log[..i + 1][..i] == log[..i];
      var e := log[i];
      if e.userId == uid && e.kind == Complete {
        var k := IndexOf(w, e.contentId);
        if k < 0 {
          w := w + [e.contentId];
        }
      }
      i := i + 1;
    }
    if i < |log| {
      WatchedStaysFull(log, uid, i);
    } else {
      assert log[..i] == log;
    }
  }

  /** Every watched id is watched in the sense of `has_watched`. */
  lemma WatchedAreWatched(log: seq<Interaction>, uid: int, x: int)
    requires uid > 0 && x > 0 && x in WatchedIds(log, uid)
    ensures HasWatched(log, uid, x)
  {
    WatchedIdsSpec(log, uid);
    var i :| 0 <= i < |log| && Completed(log[i], uid) && log[i].contentId == x;
    assert Watches(log[i], uid, x);
  }

  // ---------------------------------------------------------------------------
  // Popularity

  function ViewScore(c: Content): ContentScore
  {
    ContentScore(c.id, c.views as real)
  }

  /** The score buffer of `recommendation_by_popularity`: the first 1000
      contents scored by views. */
  function PopularityScores(items: seq<Content>): seq<ContentScore>
  {
    MapSeq(Take(items, MaxCandidates), ViewScore)
  }

  function ByPopularitySpec(items: seq<Content>, max: int, sort: seq<ContentScore> -> seq<ContentScore>): seq<int>
  {
    if max <= 0 then [] else Ranked(PopularityScores(items), max, sort)
  }

  /** `recommendation_by_popularity`. */
  method ByPopularity(catalog: Catalog, max: int, sort: seq<ContentScore> -> seq<ContentScore>)
    returns (recs: seq<int>)
    ensures recs == ByPopularitySpec(catalog.items, max, sort)
  {
    if max <= 0 {
      return [];
    }
    var items := catalog.items;
    var scores: seq<ContentScore> := [];
    var i := 0;
    while i < |items| && |scores| < MaxCandidates
      invariant 0 <= i <= |items| && i == |scores| && i <= MaxCandidates
      invariant scores == MapSeq(items[..i], ViewScore)
    {
      scores := scores + [ViewScore(items[i])];
      i := i + 1;
    }
    assert items[..i] == Take(items, MaxCandidates);
    recs := CopyOut(sort(scores), IdOf, max);
  }

  /** Popularity returns min(max, contents, 1000) catalogue ids, the most
      viewed first: every content left out (among the first 1000) has no
      more views than any content returned. */
  lemma PopularityRanking(items: seq<Content>, max: int, sort: seq<ContentScore> -> seq<ContentScore>)
    requires IsRankSort(sort, ScoreOf) && max > 0
    ensures var r := sort(PopularityScores(items));
            var top := Take(r, max);
            |ByPopularitySpec(items, max, sort)| == Min(max, Min(|items|, MaxCandidates)) &&
            NonIncreasing(top, ScoreOf) &&
            (forall x :: x in ByPopularitySpec(items, max, sort) ==> x in ContentIds(items)) &&
            (forall x, i :: x in multiset(PopularityScores(items)) - multiset(top) && 0 <= i < |top| ==>
               x.score <= top[i].score)
  {
    var s := PopularityScores(items);
    var r := sort(s);
    assert IsRanking(r, s, ScoreOf);
    RankingPrefixFrom(r, s, ScoreOf, max);
    RankingPrefixIsTop(r, s, ScoreOf, max);
    RankedFrom(s, max, sort);
    PopularityIds(items);
  }

  /** The popularity buffer scores catalogue contents. */
  lemma PopularityIds(items: seq<Content>)
    ensures forall x :: x in ScoreIds(PopularityScores(items)) ==> x in ContentIds(items)
  {
    var s := PopularityScores(items);
    forall x | x in ScoreIds(s) ensures x in ContentIds(items) {
      var k :| 0 <= k < |s| && ScoreIds(s)[k] == x;
      assert ContentIds(items)[k] == x;
    }
  }

  /** The popularity example of the recommendation test: five contents
      with views 10, 20, 5, 15, 3 and a cap of 3 give the second, fourth and
      first content, whatever `qsort` does (there are no ties). */
  lemma PopularityExample(items: seq<Content>, sort: seq<ContentScore> -> seq<ContentScore>)
    requires IsRankSort(sort, ScoreOf)
    requires |items| == 5
    requires items[0].id == 1 && items[0].views == 10 && items[1].id == 2 && items[1].views == 20
    requires items[2].id == 3 && items[2].views == 5 && items[3].id == 4 && items[3].views == 15
    requires items[4].id == 5 && items[4].views == 3
    ensures ByPopularitySpec(items, 3, sort) == [2, 4, 1]
  {
    var s := PopularityScores(items);
    PopularityScoresExample(items);
    var ordered := ExampleOrder();
    PermutedExample(s, ordered);
    assert IsRanking(sort(s), s, ScoreOf);
    RankingUnique(ordered, sort(s), ScoreOf);
    assert Take(ordered, 3) == ordered[..3];
    assert MapSeq(ordered[..3], IdOf) == [2, 4, 1];
  }

  /** The example's contents by decreasing views; there are no ties. */
  function ExampleOrder(): (r: seq<ContentScore>)
    ensures |r| == 5 && forall i, j :: 0 <= i < j < |r| ==> ScoreOf(r[i]) > ScoreOf(r[j])
  {
    [ContentScore(2, 20.0), ContentScore(4, 15.0), ContentScore(1, 10.0),
     ContentScore(3, 5.0), ContentScore(5, 3.0)]
  }

  lemma PermutedExample<T>(s: seq<T>, ordered: seq<T>)
    requires |s| == 5 && ordered == [s[1], s[3], s[0], s[2], s[4]]
    ensures multiset(ordered) == multiset(s)
  {
    var t1 := s[0 := s[1]][1 := s[0]];
    SwapPermutes(s, 0, 1);
    var t2 := t1[1 := t1[3]][3 := t1[1]];
    SwapPermutes(t1, 1, 3);
    var t3 := t2[2 := t2[3]][3 := t2[2]];
    SwapPermutes(t2, 2, 3);
    assert t3 == ordered;
  }

  lemma PopularityScoresExample(items: seq<Content>)
    requires |items| == 5
    requires items[0].id == 1 && items[0].views == 10 && items[1].id == 2 && items[1].views == 20
    requires items[2].id == 3 && items[2].views == 5 && items[3].id == 4 && items[3].views == 15
    requires items[4].id == 5 && items[4].views == 3
    ensures PopularityScores(items) == [ContentScore(1, 10.0), ContentScore(2, 20.0), ContentScore(3, 5.0),
                                        ContentScore(4, 15.0), ContentScore(5, 3.0)]
  {
    assert Take(items, MaxCandidates) == items;
  }

  // ---------------------------------------------------------------------------
  // Content similarity

  /** The similarities of one candidate to every watched id, a missing
      watched content adding nothing. */
  function SimilaritySum(items: seq<Content>, watched: seq<int>, cand: Content): real
  {
    if watched == [] then 0.0
    else
      SimilaritySum(items, watched[..|watched| - 1], cand) +
      SimilarityOf(Find(items, watched[|watched| - 1]), Some(cand))
  }

  /** The candidate's score: the sum divided by the number of watched ids,
      present in the catalogue or not. */
  function AverageSimilarity(items: seq<Content>, watched: seq<int>, cand: Content): real
  {
    if |watched| > 0 then SimilaritySum(items, watched, cand) / |watched| as real else 0.0
  }

  /** With a well-formed catalogue each watched id adds at most 1. */
  lemma {:induction false} SimilaritySumBound(items: seq<Content>, watched: seq<int>, cand: Content)
    requires forall c :: c in items ==> c.duration >= 0
    requires cand.duration >= 0
    ensures SimilaritySum(items, watched, cand) <= |watched| as real
  {
    if watched != [] {
      var p := watched[..|watched| - 1];
      SimilaritySumBound(items, p, cand);
      var t := SimilarityOf(Find(items, watched[|watched| - 1]), Some(cand));
      assert t <= 1.0 by {
        var w := Find(items, watched[|watched| - 1]);
        if w.Some? {
          SimilarityBounds(w.value, cand);
        }
      }
      assert SimilaritySum(items, watched, cand) == SimilaritySum(items, p, cand) + t;
    }
  }

  /** So the average similarity is at most 1. */
  lemma AverageSimilarityBound(items: seq<Content>, watched: seq<int>, cand: Content)
    requires forall c :: c in items ==> c.duration >= 0
    requires cand.duration >= 0
    ensures AverageSimilarity(items, watched, cand) <= 1.0
  {
    if |watched| > 0 {
      SimilaritySumBound(items, watched, cand);
      QuotientAtMostOne(SimilaritySum(items, watched, cand), |watched| as real);
    }
  }

  lemma QuotientAtMostOne(x: real, n: real)
    requires n > 0.0 && x <= n
    ensures x / n <= 1.0
  {
    assert x / n * n == x;
  }

  /** A watched id missing from the catalogue still counts in the divisor:
      watching one present and one removed content halves the score. */
  lemma MissingWatchedStillDivides(items: seq<Content>, a: Content, missing: int, cand: Content)
    requires a in items && a.id > 0 && Distinct(ContentIds(items)) && missing !in ContentIds(items)
    ensures AverageSimilarity(items, [a.id, missing], cand) == Similarity(a, cand) / 2.0
  {
    FindDistinct(items, a);
    assert Find(items, missing) == None;
    assert [a.id, missing][..1] == [a.id];
    assert [a.id][..0] == [];
    assert SimilaritySum(items, [a.id], cand) == Similarity(a, cand);
    assert SimilaritySum(items, [a.id, missing], cand) == Similarity(a, cand);
  }

  function SimilarityScorer(items: seq<Content>, watched: seq<int>): Content -> Option<ContentScore>
  {
    (c: Content) => if c.id in watched then None
                    else Some(ContentScore(c.id, AverageSimilarity(items, watched, c)))
  }

  /** The score buffer of `recommendation_by_content_similarity`: every
      unwatched content with its average similarity, the first 1000. */
  function SimilarityScores(items: seq<Content>, watched: seq<int>): seq<ContentScore>
  {
    Take(FilterMap(items, SimilarityScorer(items, watched)), MaxCandidates)
  }

  function BySimilaritySpec(items: seq<Content>, log: seq<Interaction>, uid: int, max: int,
                            sort: seq<ContentScore> -> seq<ContentScore>): seq<int>
  {
    if uid <= 0 || max <= 0 then []
    else
      var watched := WatchedIds(log, uid);
      if watched == [] then ByPopularitySpec(items, max, sort)
      else Ranked(SimilarityScores(items, watched), max, sort)
  }

  /** The inner loop summing a candidate's similarities. */
  method SumSimilarity(catalog: Catalog, watched: seq<int>, cand: Content) returns (total: real)
    ensures total == SimilaritySum(catalog.items, watched, cand)
  {
    total := 0.0;
    var j := 0;
    while j < |watched|
      invariant 0 <= j <= |watched|
      invariant total == SimilaritySum(catalog.items, watched[..j], cand)
    {
      assert watched[..j + 1][..j] == watched[..j];
      var w := catalog.GetById(watched[j]);
      if w.Some? {
        total := total + Similarity(w.value, cand);
      }
      j := j + 1;
    }
    assert watched[..j] == watched;
  }

  /** `recommendation_by_content_similarity`. */
  method BySimilarity(users: UserManager, catalog: Catalog, uid: int, max: int,
                      sort: seq<ContentScore> -> seq<ContentScore>) returns (recs: seq<int>)
    ensures recs == BySimilaritySpec(catalog.items, users.log, uid, max, sort)
  {
    if uid <= 0 || max <= 0 {
      return [];
    }
    var watched := CollectWatched(users, uid);
    if |watched| == 0 {
      recs := ByPopularity(catalog, max, sort);
      return;
    }
    var items := catalog.items;
    ghost var f := SimilarityScorer(items, watched);
    var scores: seq<ContentScore> := [];
    var i := 0;
    while i < |items| && |scores| < MaxCandidates
      invariant 0 <= i <= |items|
      invariant scores == FilterMap(items[..i], f)
      invariant |scores| <= MaxCandidates
    {
      FilterMapNext(items, f, i);
      var c := items[i];
      var k := IndexOf(watched, c.id);
      if k < 0 {
        var total := SumSimilarity(catalog, watched, c);
        var average := if |watched| > 0 then total / |watched| as real else 0.0;
        scores := scores + [ContentScore(c.id, average)];
      }
      i := i + 1;
    }
    CappedScanDone(items, f, MaxCandidates, i);
    recs := CopyOut(sort(scores), IdOf, max);
  }

  /** A user without COMPLETE entries gets exactly the popularity ranking. */
  lemma NoCompletedMeansPopularity(items: seq<Content>, log: seq<Interaction>, uid: int, max: int,
                                   sort: seq<ContentScore> -> seq<ContentScore>)
    requires uid > 0
    requires forall i :: 0 <= i < |log| ==> !Completed(log[i], uid)
    ensures BySimilaritySpec(items, log, uid, max, sort) == ByPopularitySpec(items, max, sort)
  {
    WatchedEmpty(log, uid);
  }

  /** With a watched set, similarity recommends only catalogue contents
      outside it, best average first: any unwatched candidate left out scores
      no higher than any one returned. */
  lemma SimilarityRanking(items: seq<Content>, log: seq<Interaction>, uid: int, max: int,
                          sort: seq<ContentScore> -> seq<ContentScore>)
    requires IsRankSort(sort, ScoreOf) && uid > 0 && max > 0 && WatchedIds(log, uid) != []
    ensures var watched := WatchedIds(log, uid);
            var s := SimilarityScores(items, watched);
            var top := Take(sort(s), max);
            BySimilaritySpec(items, log, uid, max, sort) == MapSeq(top, IdOf) &&
            NonIncreasing(top, ScoreOf) &&
            (forall x :: x in BySimilaritySpec(items, log, uid, max, sort) ==>
               x in ContentIds(items) && x !in watched) &&
            (forall x, i :: x in multiset(s) - multiset(top) && 0 <= i < |top| ==> x.score <= top[i].score)
  {
    var watched := WatchedIds(log, uid);
    var s := SimilarityScores(items, watched);
    var r := sort(s);
    assert IsRanking(r, s, ScoreOf);
    RankingPrefixFrom(r, s, ScoreOf, max);
    RankingPrefixIsTop(r, s, ScoreOf, max);
    RankedFrom(s, max, sort);
    SimilarityCandidates(items, watched);
  }

  /** The candidates of the similarity strategy are unwatched catalogue contents. */
  lemma SimilarityCandidates(items: seq<Content>, watched: seq<int>)
    ensures forall x :: x in ScoreIds(SimilarityScores(items, watched)) ==> x in ContentIds(items) && x !in watched
  {
    var f := SimilarityScorer(items, watched);
    var s := SimilarityScores(items, watched);
    FilterMapMembers(items, f);
    forall x | x in ScoreIds(s) ensures x in ContentIds(items) && x !in watched {
      var j :| 0 <= j < |s| && ScoreIds(s)[j] == x;
      assert s[j] in s;
      assert s[j] in FilterMap(items, f);
      var k :| 0 <= k < |items| && f(items[k]) == Some(s[j]);
      assert ContentIds(items)[k] == x;
    }
  }

  // ---------------------------------------------------------------------------
  // recommendation_by_category
  // ---------------------------------------------------------------------------

  /** One row of the category table: a category name and how many PLAY or
      COMPLETE entries of the user fell in it. */
  datatype CategoryCount = CategoryCount(name: string, count: int)

  function CountKey(r: CategoryCount): real { r.count as real }

  function CategoryNames(t: seq<CategoryCount>): (names: seq<string>)
    ensures |names| == |t| && forall k :: 0 <= k < |t| ==> names[k] == t[k].name
  {
    MapSeq(t, (r: CategoryCount) => r.name)
  }

  /** The entries the category tally counts: PLAY or COMPLETE by the user. */
  predicate Viewed(e: Interaction, uid: int)
  {
    e.userId == uid && (e.kind == Play || e.kind == Complete)
  }

  /** One tally step: bump the row whose name equals the category, or
      append a row with count 1 while fewer than 100 rows exist; a full
      table ignores new categories. */
  function Tallied(t: seq<CategoryCount>, category: string): seq<CategoryCount>
  {
    var k := FirstIndex(CategoryNames(t), category);
    if k >= 0 then t[k := t[k].(count := t[k].count + 1)]
    else if |t| < MaxCategories then t + [CategoryCount(Truncate(category, CategoryLimit), 1)]
    else t
  }

  /** The category table after scanning the log in order; entries whose
      content is not in the catalogue are skipped. */
  function CategoryTally(items: seq<Content>, log: seq<Interaction>, uid: int): (t: seq<CategoryCount>)
    ensures |t| <= MaxCategories
    ensures forall k :: 0 <= k < |t| ==> t[k].count >= 1
  {
    if log == [] then []
    else
      var p := CategoryTally(items, log[..|log| - 1], uid);
      var e := log[|log| - 1];
      if Viewed(e, uid) then
        match Find(items, e.contentId)
        case Some(c) => Tallied(p, c.category)
        case None => p
      else p
  }

  /** How many PLAY or COMPLETE entries of the user name a catalogue content
      of that category. */
  function CategoryViews(items: seq<Content>, log: seq<Interaction>, uid: int, name: string): nat
  {
    if log == [] then 0
    else
      var e := log[|log| - 1];
      var hit := Viewed(e, uid) && Find(items, e.contentId).Some? && Find(items, e.contentId).value.category == name;
      CategoryViews(items, log[..|log| - 1], uid, name) + (if hit then 1 else 0)
  }

  /** The body of the counting loop: search the table by name, then bump
      or append. */
  method AddView(t: seq<CategoryCount>, category: string) returns (r: seq<CategoryCount>)
    ensures r == Tallied(t, category)
  {
    var k := IndexOf(CategoryNames(t), category);
    if k >= 0 {
      r := t[k := t[k].(count := t[k].count + 1)];
    } else if |t| < MaxCategories {
      r := t + [CategoryCount(Truncate(category, CategoryLimit), 1)];
    } else {
      r := t;
    }
  }

  /** Scanning one more log entry is one more tally step. */
  lemma TallyNext(items: seq<Content>, log: seq<Interaction>, uid: int, i: nat)
    requires i < |log|
    ensures var p := CategoryTally(items, log[..i], uid);
            var e := log[i];
            CategoryTally(items, log[..i + 1], uid) ==
              if Viewed(e, uid) && Find(items, e.contentId).Some? then Tallied(p, Find(items, e.contentId).value.category)
              else p
  {
    assert log[..i + 1][..i] == log[..i];
  }

  /** The counting loop of `recommendation_by_category`. */
  method TallyCategories(users: UserManager, catalog: Catalog, uid: int) returns (t: seq<CategoryCount>)
    ensures t == CategoryTally(catalog.items, users.log, uid)
  {
    var log := users.log;
    t := [];
    var i := 0;
    while i < |log|
      invariant 0 <= i <= |log|
      invariant t == CategoryTally(catalog.items, log[..i], uid)
    {
      TallyNext(catalog.items, log, uid, i);
      var e := log[i];
      if e.userId == uid && (e.kind == Play || e.kind == Complete) {
        var content := catalog.GetById(e.contentId);
        if content.Some? {
          t := AddView(t, content.value.category);
        }
      }
      i := i + 1;
    }
    assert log[..i] == log;
  }

  /** The rows of the table as `TallyCounts` describes them. */
  ghost predicate TallyCorrect(items: seq<Content>, log: seq<Interaction>, uid: int, t: seq<CategoryCount>)
  {
    Distinct(CategoryNames(t)) &&
    (forall k :: 0 <= k < |t| ==> t[k].count == CategoryViews(items, log, uid, t[k].name)) &&
    (|t| < MaxCategories ==> forall name :: name !in CategoryNames(t) ==> CategoryViews(items, log, uid, name) == 0)
  }

  /** With catalogue categories that fit their buffer, the table has one
      row per category, each row's count is the number of the user's views
      in that category, and below 100 rows no viewed category is missing. */
  lemma {:induction false} TallyCounts(items: seq<Content>, log: seq<Interaction>, uid: int)
    requires forall c :: c in items ==> |c.category| <= CategoryLimit
    ensures TallyCorrect(items, log, uid, CategoryTally(items, log, uid))
  {
    if log != [] {
      var q := log[..|log| - 1];
      var e := log[|log| - 1];
      TallyCounts(items, q, uid);
      if Viewed(e, uid) && Find(items, e.contentId).Some? {
        TallyStep(items, log, uid);
      } else {
        forall name ensures CategoryViews(items, log, uid, name) == CategoryViews(items, q, uid, name) {
        }
      }
    }
  }

  /** The last entry, when it names a catalogue content, adds one view to
      that content's category only. */
  lemma ViewsLast(items: seq<Content>, log: seq<Interaction>, uid: int)
    requires log != [] && Viewed(log[|log| - 1], uid) && Find(items, log[|log| - 1].contentId).Some?
    ensures var cat := Find(items, log[|log| - 1].contentId).value.category;
            forall name :: CategoryViews(items, log, uid, name) ==
                           CategoryViews(items, log[..|log| - 1], uid, name) + (if name == cat then 1 else 0)
  {
  }

  /** The step of `TallyCounts` for an entry that names a catalogue content. */
  lemma TallyStep(items: seq<Content>, log: seq<Interaction>, uid: int)
    requires forall c :: c in items ==> |c.category| <= CategoryLimit
    requires log != [] && Viewed(log[|log| - 1], uid) && Find(items, log[|log| - 1].contentId).Some?
    requires TallyCorrect(items, log[..|log| - 1], uid, CategoryTally(items, log[..|log| - 1], uid))
    ensures TallyCorrect(items, log, uid, CategoryTally(items, log, uid))
  {
    var q := log[..|log| - 1];
    var p := CategoryTally(items, q, uid);
    var c := Find(items, log[|log| - 1].contentId).value;
    assert CategoryTally(items, log, uid) == Tallied(p, c.category);
    ViewsLast(items, log, uid);
    var k := FirstIndex(CategoryNames(p), c.category);
    if k >= 0 {
      TallyBump(items, log, uid, p, c.category, k);
    } else if |p| < MaxCategories {
      TallyOpen(items, log, uid, p, c.category);
    }
  }

  /** A view of a category that has its row bumps that row. */
  lemma TallyBump(items: seq<Content>, log: seq<Interaction>, uid: int, p: seq<CategoryCount>, cat: string, k: int)
    requires log != [] && TallyCorrect(items, log[..|log| - 1], uid, p)
    requires forall name :: CategoryViews(items, log, uid, name) ==
                            CategoryViews(items, log[..|log| - 1], uid, name) + (if name == cat then 1 else 0)
    requires k == FirstIndex(CategoryNames(p), cat) && k >= 0
    ensures TallyCorrect(items, log, uid, Tallied(p, cat))
  {
    var t := Tallied(p, cat);
    assert CategoryNames(t) == CategoryNames(p);
    forall j | 0 <= j < |t| ensures t[j].count == CategoryViews(items, log, uid, t[j].name) {
      if j != k {
        assert p[j].name == CategoryNames(p)[j] != CategoryNames(p)[k] == cat;
      }
    }
  }

  /** A view of a new category opens a row while there is room. */
  lemma TallyOpen(items: seq<Content>, log: seq<Interaction>, uid: int, p: seq<CategoryCount>, cat: string)
    requires log != [] && TallyCorrect(items, log[..|log| - 1], uid, p)
    requires forall name :: CategoryViews(items, log, uid, name) ==
                            CategoryViews(items, log[..|log| - 1], uid, name) + (if name == cat then 1 else 0)
    requires cat !in CategoryNames(p) && |p| < MaxCategories && |cat| <= CategoryLimit
    ensures TallyCorrect(items, log, uid, Tallied(p, cat))
  {
    var t := Tallied(p, cat);
    assert Truncate(cat, CategoryLimit) == cat;
    assert CategoryNames(t) == CategoryNames(p) + [cat];
    forall j | 0 <= j < |t| ensures t[j].count == CategoryViews(items, log, uid, t[j].name) {
      if j < |p| {
        assert p[j].name in CategoryNames(p);
      }
    }
  }

  /** The table is empty exactly when no PLAY or COMPLETE entry of the user
      names a catalogue content; then the strategy falls back to popularity. */
  lemma {:induction false} TallyEmpty(items: seq<Content>, log: seq<Interaction>, uid: int)
    ensures CategoryTally(items, log, uid) == [] <==>
            forall i :: 0 <= i < |log| && Viewed(log[i], uid) ==> Find(items, log[i].contentId).None?
  {
    if log != [] {
      var q := log[..|log| - 1];
      TallyEmpty(items, q, uid);
      assert forall i :: 0 <= i < |q| ==> q[i] == log[i];
    }
  }

  /** Exchanging two rows. */
  function Swap<T>(s: seq<T>, i: nat, j: nat): seq<T>
    requires i < |s| && j < |s|
  {
    s[i := s[j]][j := s[i]]
  }

  /** The inner loop of the category sort from position `j` on: row `i`
      swaps with every later row whose count is strictly larger. */
  function InnerPass(t: seq<CategoryCount>, i: nat, j: nat): (r: seq<CategoryCount>)
    requires i < j <= |t|
    ensures |r| == |t|
    decreases |t| - j
  {
    if j == |t| then t
    else InnerPass(if t[j].count > t[i].count then Swap(t, i, j) else t, i, j + 1)
  }

  /** The outer loop of the category sort from position `i` on; it stops
      before the last row. */
  function OuterPass(t: seq<CategoryCount>, i: nat): seq<CategoryCount>
    requires i <= |t|
    decreases |t| - i
  {
    if i + 1 >= |t| then t else OuterPass(InnerPass(t, i, i + 1), i + 1)
  }

  /** The exchange sort of `recommendation_by_category`, as a function of the table. */
  function ExchangeSorted(t: seq<CategoryCount>): seq<CategoryCount>
  {
    OuterPass(t, 0)
  }

  /** An inner pass brings a largest count of `t[i..]` to position `i`,
      leaves the rows before `i` alone and only rearranges rows. */
  lemma {:induction false} InnerPassSpec(t: seq<CategoryCount>, i: nat, j: nat)
    requires i < j <= |t|
    requires forall k :: i < k < j ==> t[k].count <= t[i].count
    ensures var r := InnerPass(t, i, j);
            |r| == |t| && r[..i] == t[..i] && multiset(r) == multiset(t) &&
            forall k :: i < k < |r| ==> r[k].count <= r[i].count
    decreases |t| - j
  {
    InnerPassPermutes(t, i, j);
    if j < |t| {
      if t[j].count > t[i].count {
        var t' := Swap(t, i, j);
        SwapToFront(t, i, j);
        InnerPassSpec(t', i, j + 1);
        assert InnerPass(t, i, j) == InnerPass(t', i, j + 1);
      } else {
        InnerPassSpec(t, i, j + 1);
        assert InnerPass(t, i, j) == InnerPass(t, i, j + 1);
      }
    }
  }

  /** An inner pass only rearranges rows. */
  lemma {:induction false} InnerPassPermutes(t: seq<CategoryCount>, i: nat, j: nat)
    requires i < j <= |t|
    ensures multiset(InnerPass(t, i, j)) == multiset(t)
    decreases |t| - j
  {
    if j < |t| {
      var t' := if t[j].count > t[i].count then Swap(t, i, j) else t;
      assert multiset(t') == multiset(t) by {
        if t[j].count > t[i].count {
          SwapPermutes(t, i, j);
        }
      }
      assert InnerPass(t, i, j) == InnerPass(t', i, j + 1);
      InnerPassPermutes(t', i, j + 1);
    }
  }

  /** A swap with a larger row keeps the rows before `i` and leaves row `i`
      largest up to position `j`. */
  lemma SwapToFront(t: seq<CategoryCount>, i: nat, j: nat)
    requires i < j < |t| && t[j].count > t[i].count
    requires forall k :: i < k < j ==> t[k].count <= t[i].count
    ensures var t' := Swap(t, i, j);
            t'[..i] == t[..i] && forall k :: i < k < j + 1 ==> t'[k].count <= t'[i].count
  {
    var t' := Swap(t, i, j);
    assert t'[..i] == t[..i];
    forall k | i < k < j + 1 ensures t'[k].count <= t'[i].count {
      if k < j {
        assert t'[k] == t[k];
      }
    }
  }

  /** Rows after `i` of a rearrangement that keeps the first `i` rows come
      from the rows after `i`. */
  lemma SuffixFrom<T>(t: seq<T>, r: seq<T>, i: nat)
    requires i <= |t| && |r| == |t| && r[..i] == t[..i] && multiset(r) == multiset(t)
    ensures forall b :: i <= b < |r| ==> r[b] in t[i..]
  {
    SplitMultiset(t, i);
    SplitMultiset(r, i);
    assert multiset(r[i..]) == multiset(r) - multiset(r[..i]);
    assert multiset(t[i..]) == multiset(t) - multiset(t[..i]);
    forall b | i <= b < |r| ensures r[b] in t[i..] {
      assert r[b] == r[i..][b - i];
      assert r[b] in multiset(r[i..]);
    }
  }

  lemma SplitMultiset<T>(s: seq<T>, i: nat)
    requires i <= |s|
    ensures multiset(s) == multiset(s[..i]) + multiset(s[i..])
  {
    assert s == s[..i] + s[i..];
  }

  /** The first `i` rows are in place: sorted, and none smaller than a later row. */
  ghost predicate PlacedUpTo(t: seq<CategoryCount>, i: nat)
  {
    i <= |t| &&
    (forall a, b :: 0 <= a < b < i ==> t[a].count >= t[b].count) &&
    (forall a, b :: 0 <= a < i <= b < |t| ==> t[a].count >= t[b].count)
  }

  /** One outer step places one more row. */
  lemma InnerPassStep(t: seq<CategoryCount>, i: nat)
    requires PlacedUpTo(t, i) && i + 1 < |t|
    ensures var r := InnerPass(t, i, i + 1);
            PlacedUpTo(r, i + 1) && multiset(r) == multiset(t)
  {
    var r := InnerPass(t, i, i + 1);
    InnerPassSpec(t, i, i + 1);
    SuffixFrom(t, r, i);
    forall a, b | 0 <= a < i + 1 <= b < |r| ensures r[a].count >= r[b].count {
      if a < i {
        assert r[a] == r[..i][a] == t[a];
        assert r[b] in t[i..];
      }
    }
    forall a, b | 0 <= a < b < i + 1 ensures r[a].count >= r[b].count {
      assert r[a] == r[..i][a] == t[a];
      if b < i {
        assert r[b] == r[..i][b] == t[b];
      } else {
        assert r[b] in t[i..];
      }
    }
  }

  /** Sorting from position `i` on, with the first `i` rows in place, ranks the table. */
  lemma {:induction false} OuterPassSpec(t: seq<CategoryCount>, i: nat)
    requires PlacedUpTo(t, i)
    ensures IsRanking(OuterPass(t, i), t, CountKey)
    decreases |t| - i
  {
    if i + 1 >= |t| {
      assert NonIncreasing(t, CountKey) by {
        forall a, b | 0 <= a < b < |t| ensures t[a].count >= t[b].count {
          if b < i {
          } else {
            assert a < i;
          }
        }
      }
    } else {
      var r := InnerPass(t, i, i + 1);
      InnerPassStep(t, i);
      assert multiset(r) == multiset(t);
      OuterPassSpec(r, i + 1);
    }
  }

  /** The category sort returns the table's rows by non-increasing count. */
  lemma ExchangeSortedRanks(t: seq<CategoryCount>)
    ensures IsRanking(ExchangeSorted(t), t, CountKey)
  {
    OuterPassSpec(t, 0);
  }

  /** The sort is not stable: of two categories seen equally often, the one
      counted first can end up last. */
  lemma ExchangeSortUnstable()
    ensures var t := [CategoryCount("a", 1), CategoryCount("b", 1), CategoryCount("c", 2)];
            ExchangeSorted(t) == [CategoryCount("c", 2), CategoryCount("b", 1), CategoryCount("a", 1)]
  {
    var t := [CategoryCount("a", 1), CategoryCount("b", 1), CategoryCount("c", 2)];
    var u := [CategoryCount("c", 2), CategoryCount("b", 1), CategoryCount("a", 1)];
    assert InnerPass(t, 0, 1) == InnerPass(t, 0, 2) == InnerPass(u, 0, 3) == u;
    assert InnerPass(u, 1, 2) == InnerPass(u, 1, 3) == u;
    assert OuterPass(t, 0) == OuterPass(u, 1) == OuterPass(u, 2) == u;
  }

  /** The two nested loops sorting the table in place. */
  method ExchangeSort(a: array<CategoryCount>)
    modifies a
    ensures a[..] == ExchangeSorted(old(a[..]))
  {
    var i := 0;
    while i + 1 < a.Length
      invariant 0 <= i <= a.Length
      invariant OuterPass(a[..], i) == ExchangeSorted(old(a[..]))
    {
      assert OuterPass(a[..], i) == OuterPass(InnerPass(a[..], i, i + 1), i + 1);
      ExchangeFrom(a, i);
      i := i + 1;
    }
    assert OuterPass(a[..], i) == a[..];
  }

  /** The inner loop of the category sort: row `i` against every later row. */
  method ExchangeFrom(a: array<CategoryCount>, i: nat)
    requires i + 1 < a.Length
    modifies a
    ensures a[..] == InnerPass(old(a[..]), i, i + 1)
  {
    var j := i + 1;
    while j < a.Length
      invariant i < j <= a.Length
      invariant InnerPass(a[..], i, j) == InnerPass(old(a[..]), i, i + 1)
    {
      ghost var before := a[..];
      if a[j].count > a[i].count {
        a[i], a[j] := a[j], a[i];
        assert a[..] == Swap(before, i, j);
      }
      assert InnerPass(before, i, j) == InnerPass(a[..], i, j + 1);
      j := j + 1;
    }
  }

  /** A content's score in the category strategy: its category's rank from
      the bottom plus the category's count relative to the top count. */
  function CategoryScore(sorted: seq<CategoryCount>, k: nat): real
    requires k < |sorted|
  {
    var top := if sorted[0].count > 0 then sorted[0].count else 1;
    (|sorted| - k) as real + sorted[k].count as real / top as real
  }

  /** For a sorted table of positive counts, the score of the category at
      rank `k` lies in (n - k, n - k + 1]. */
  lemma CategoryScoreBounds(sorted: seq<CategoryCount>, k: nat)
    requires NonIncreasing(sorted, CountKey) && k < |sorted|
    requires forall m :: 0 <= m < |sorted| ==> sorted[m].count >= 1
    ensures (|sorted| - k) as real < CategoryScore(sorted, k) <= (|sorted| - k + 1) as real
  {
    var top := sorted[0].count;
    if k > 0 {
      assert CountKey(sorted[0]) >= CountKey(sorted[k]);
    }
    assert 0 < sorted[k].count <= top;
    assert 0.0 < sorted[k].count as real / top as real <= 1.0;
  }

  /** Every content of a more frequent category (an earlier row) scores
      strictly above every content of a later row, whatever their counts. */
  lemma CategoryScoreOrder(sorted: seq<CategoryCount>, k: nat, l: nat)
    requires NonIncreasing(sorted, CountKey) && k < l < |sorted|
    requires forall m :: 0 <= m < |sorted| ==> sorted[m].count >= 1
    ensures CategoryScore(sorted, k) > CategoryScore(sorted, l)
  {
    CategoryScoreBounds(sorted, k);
    CategoryScoreBounds(sorted, l);
  }

  /** The sorted table ranks the tally and keeps its positive counts. */
  lemma SortedTally(items: seq<Content>, log: seq<Interaction>, uid: int)
    ensures var t := CategoryTally(items, log, uid);
            var sorted := ExchangeSorted(t);
            IsRanking(sorted, t, CountKey) && |sorted| == |t| &&
            forall m :: 0 <= m < |sorted| ==> sorted[m].count >= 1
  {
    var t := CategoryTally(items, log, uid);
    var sorted := ExchangeSorted(t);
    ExchangeSortedRanks(t);
    RankingPrefixFrom(sorted, t, CountKey, |sorted|);
    forall m | 0 <= m < |sorted| ensures sorted[m].count >= 1 {
      assert Take(sorted, |sorted|) == sorted;
      assert sorted[m] in t;
    }
  }

  /** An unwatched content whose category is in the table scores by its
      category's rank; other contents are not candidates. */
  function CategoryScorer(log: seq<Interaction>, uid: int, sorted: seq<CategoryCount>): Content -> Option<ContentScore>
  {
    (c: Content) =>
      if HasWatched(log, uid, c.id) then None
      else
        var k := FirstIndex(CategoryNames(sorted), c.category);
        if k < 0 then None else Some(ContentScore(c.id, CategoryScore(sorted, k)))
  }

  /** The score buffer of `recommendation_by_category`: the first 1000 candidates. */
  function CategoryScores(items: seq<Content>, log: seq<Interaction>, uid: int): seq<ContentScore>
  {
    var sorted := ExchangeSorted(CategoryTally(items, log, uid));
    Take(FilterMap(items, CategoryScorer(log, uid, sorted)), MaxCandidates)
  }

  function ByCategorySpec(items: seq<Content>, log: seq<Interaction>, uid: int, max: int,
                          sort: seq<ContentScore> -> seq<ContentScore>): seq<int>
  {
    if uid <= 0 || max <= 0 then []
    else if CategoryTally(items, log, uid) == [] then ByPopularitySpec(items, max, sort)
    else Ranked(CategoryScores(items, log, uid), max, sort)
  }

  /** The table copied into an array and sorted there. */
  method SortTable(t: seq<CategoryCount>) returns (sorted: seq<CategoryCount>)
    ensures sorted == ExchangeSorted(t)
  {
    var table := new CategoryCount[|t|](k requires 0 <= k < |t| => t[k]);
    assert table[..] == t;
    ExchangeSort(table);
    sorted := table[..];
  }

  /** The scoring loop of `recommendation_by_category`, which stops at 1000 candidates. */
  method ScoreByCategory(users: UserManager, catalog: Catalog, uid: int, sorted: seq<CategoryCount>)
    returns (scores: seq<ContentScore>)
    requires sorted != []
    ensures scores == Take(FilterMap(catalog.items, CategoryScorer(users.log, uid, sorted)), MaxCandidates)
  {
    var items := catalog.items;
    ghost var f := CategoryScorer(users.log, uid, sorted);
    scores := [];
    var i := 0;
    while i < |items| && |scores| < MaxCandidates
      invariant 0 <= i <= |items|
      invariant scores == FilterMap(items[..i], f)
      invariant |scores| <= MaxCandidates
    {
      FilterMapNext(items, f, i);
      var c := items[i];
      var watched := HasWatchedScan(users, uid, c.id);
      if !watched {
        var k := IndexOf(CategoryNames(sorted), c.category);
        if k >= 0 {
          scores := scores + [ContentScore(c.id, CategoryScore(sorted, k))];
        }
      }
      i := i + 1;
    }
    CappedScanDone(items, f, MaxCandidates, i);
  }

  /** `recommendation_by_category`. */
  method ByCategory(users: UserManager, catalog: Catalog, uid: int, max: int,
                    sort: seq<ContentScore> -> seq<ContentScore>) returns (recs: seq<int>)
    ensures recs == ByCategorySpec(catalog.items, users.log, uid, max, sort)
  {
    if uid <= 0 || max <= 0 {
      return [];
    }
    var t := TallyCategories(users, catalog, uid);
    if |t| == 0 {
      recs := ByPopularity(catalog, max, sort);
      return;
    }
    var sorted := SortTable(t);
    SortedTally(catalog.items, users.log, uid);
    var scores := ScoreByCategory(users, catalog, uid, sorted);
    recs := CopyOut(sort(scores), IdOf, max);
  }

  /** With a non-empty table, the category strategy recommends only unwatched
      catalogue contents of a counted category, best score first: any
      candidate left out scores no higher than any one returned. */
  lemma CategoryRanking(items: seq<Content>, log: seq<Interaction>, uid: int, max: int,
                        sort: seq<ContentScore> -> seq<ContentScore>)
    requires IsRankSort(sort, ScoreOf) && uid > 0 && max > 0 && CategoryTally(items, log, uid) != []
    ensures var s := CategoryScores(items, log, uid);
            var top := Take(sort(s), max);
            var names := CategoryNames(CategoryTally(items, log, uid));
            ByCategorySpec(items, log, uid, max, sort) == MapSeq(top, IdOf) &&
            NonIncreasing(top, ScoreOf) &&
            (forall x :: x in ByCategorySpec(items, log, uid, max, sort) ==>
               !HasWatched(log, uid, x) && exists c :: c in items && c.id == x && c.category in names) &&
            (forall x, i :: x in multiset(s) - multiset(top) && 0 <= i < |top| ==> x.score <= top[i].score)
  {
    var t := CategoryTally(items, log, uid);
    var s := CategoryScores(items, log, uid);
    var r := sort(s);
    assert IsRanking(r, s, ScoreOf);
    RankingPrefixFrom(r, s, ScoreOf, max);
    RankingPrefixIsTop(r, s, ScoreOf, max);
    CategoryTop(items, log, uid, max, sort);
  }

  /** The ranked prefix holds candidates only. */
  lemma CategoryTop(items: seq<Content>, log: seq<Interaction>, uid: int, max: int,
                    sort: seq<ContentScore> -> seq<ContentScore>)
    requires IsRankSort(sort, ScoreOf)
    ensures forall x :: x in Ranked(CategoryScores(items, log, uid), max, sort) ==>
              !HasWatched(log, uid, x) &&
              exists c :: c in items && c.id == x && c.category in CategoryNames(CategoryTally(items, log, uid))
  {
    var s := CategoryScores(items, log, uid);
    var r := sort(s);
    assert IsRanking(r, s, ScoreOf);
    RankingPrefixFrom(r, s, ScoreOf, max);
    CategoryCandidates(items, log, uid);
    var top := Take(r, max);
    forall x | x in MapSeq(top, IdOf)
      ensures !HasWatched(log, uid, x) &&
              exists c :: c in items && c.id == x && c.category in CategoryNames(CategoryTally(items, log, uid))
    {
      var j :| 0 <= j < |top| && top[j].contentId == x;
      assert top[j] in s;
    }
  }

  /** Every candidate of the category strategy is an unwatched catalogue
      content of a tallied category. */
  lemma CategoryCandidates(items: seq<Content>, log: seq<Interaction>, uid: int)
    ensures forall y :: y in CategoryScores(items, log, uid) ==>
              !HasWatched(log, uid, y.contentId) &&
              exists c :: c in items && c.id == y.contentId && c.category in CategoryNames(CategoryTally(items, log, uid))
  {
    var t := CategoryTally(items, log, uid);
    var sorted := ExchangeSorted(t);
    var f := CategoryScorer(log, uid, sorted);
    var s := CategoryScores(items, log, uid);
    FilterMapMembers(items, f);
    SortedTally(items, log, uid);
    forall y | y in s
      ensures !HasWatched(log, uid, y.contentId) && exists c :: c in items && c.id == y.contentId && c.category in CategoryNames(t)
    {
      assert y in FilterMap(items, f);
      var k :| 0 <= k < |items| && f(items[k]) == Some(y);
      var c := items[k];
      var m := FirstIndex(CategoryNames(sorted), c.category);
      assert sorted[m] in multiset(t);
      assert c.category in CategoryNames(t);
    }
  }

  // ---------------------------------------------------------------------------
  // recommendation_personalized
  // ---------------------------------------------------------------------------

  /** Weights of the three strategies in the blend. */
  const SimilarityWeight := 3.0
  const CategoryWeight := 2.0
  const PopularityWeight := 1.0

  /** What position `i` of a strategy's `n` results adds to a content's
      blended score: the weight scaled by (n - i) / n. */
  function Contribution(w: real, n: nat, i: int): real
    requires n > 0
  {
    w * (n - i) as real / n as real
  }

  function ScoreIds(combined: seq<ContentScore>): seq<int>
  {
    MapSeq(combined, IdOf)
  }

  /** The blended score of `x` so far, 0 when absent. */
  function ScoreIn(combined: seq<ContentScore>, x: int): real
  {
    var k := FirstIndex(ScoreIds(combined), x);
    if k < 0 then 0.0 else combined[k].score
  }

  /** What a strategy's result list adds to the score of `x`, counting its
      first `n` positions. */
  function PartialWeight(recs: seq<int>, w: real, n: nat, x: int): real
    requires n <= |recs|
  {
    var k := FirstIndex(recs, x);
    if 0 <= k < n then Contribution(w, |recs|, k) else 0.0
  }

  /** The first loop: similarity results are appended without a search. */
  function Listed(recs: seq<int>, w: real): (r: seq<ContentScore>)
    ensures |r| == |recs|
  {
    seq(|recs|, i requires 0 <= i < |recs| => ContentScore(recs[i], Contribution(w, |recs|, i)))
  }

  /** One credit of the later loops: add to the entry with that id, or
      append a new entry. */
  function Credited(combined: seq<ContentScore>, id: int, amount: real): (r: seq<ContentScore>)
    ensures |combined| <= |r| <= |combined| + 1
  {
    var k := FirstIndex(ScoreIds(combined), id);
    if k >= 0 then combined[k := ContentScore(id, combined[k].score + amount)]
    else combined + [ContentScore(id, amount)]
  }

  /** The first `n` results of a strategy credited in order. */
  function CreditAll(combined: seq<ContentScore>, recs: seq<int>, w: real, n: nat): (r: seq<ContentScore>)
    requires n <= |recs|
    ensures |combined| <= |r| <= |combined| + n
  {
    if n == 0 then combined
    else Credited(CreditAll(combined, recs, w, n - 1), recs[n - 1], Contribution(w, |recs|, n - 1))
  }

  /** The combined score buffer of `recommendation_personalized`. */
  function Blend(s: seq<int>, c: seq<int>, p: seq<int>): seq<ContentScore>
  {
    CreditAll(CreditAll(Listed(s, SimilarityWeight), c, CategoryWeight, |c|), p, PopularityWeight, |p|)
  }

  /** The score the blend promises each content: the sum of its weighted
      positions in the three strategies' lists. */
  function BlendedScore(s: seq<int>, c: seq<int>, p: seq<int>, x: int): real
  {
    PartialWeight(s, SimilarityWeight, |s|, x) + PartialWeight(c, CategoryWeight, |c|, x) +
    PartialWeight(p, PopularityWeight, |p|, x)
  }

  function PersonalizedSpec(items: seq<Content>, log: seq<Interaction>, uid: int, max: int,
                            sort: seq<ContentScore> -> seq<ContentScore>): seq<int>
  {
    if uid <= 0 || max <= 0 then []
    else
      var s := BySimilaritySpec(items, log, uid, MaxRecommendations, sort);
      var c := ByCategorySpec(items, log, uid, MaxRecommendations, sort);
      var p := ByPopularitySpec(items, MaxRecommendations, sort);
      Ranked(Blend(s, c, p), max, sort)
  }

  /** Appending an id not yet present leaves the position of every other id. */
  lemma {:induction false} FirstIndexAppend(ids: seq<int>, y: int, x: int)
    requires x != y
    ensures FirstIndex(ids + [y], x) == FirstIndex(ids, x)
  {
    if ids != [] && ids[0] != x {
      assert (ids + [y])[1..] == ids[1..] + [y];
      FirstIndexAppend(ids[1..], y, x);
    }
  }

  /** A credit adds the amount to the credited id's score, leaves every other
      score alone, adds the id to the ids and keeps them distinct. */
  lemma CreditedSpec(combined: seq<ContentScore>, id: int, amount: real)
    requires Distinct(ScoreIds(combined))
    ensures var r := Credited(combined, id, amount);
            Distinct(ScoreIds(r)) &&
            (forall x :: x in ScoreIds(r) <==> x in ScoreIds(combined) || x == id) &&
            ScoreIn(r, id) == ScoreIn(combined, id) + amount &&
            forall x :: x != id ==> ScoreIn(r, x) == ScoreIn(combined, x)
  {
    var ids := ScoreIds(combined);
    var r := Credited(combined, id, amount);
    var k := FirstIndex(ids, id);
    if k >= 0 {
      assert ScoreIds(r) == ids;
    } else {
      assert ScoreIds(r) == ids + [id];
      assert FirstIndex(ids + [id], id) == |ids| by {
        assert (ids + [id])[..|ids|] == ids;
      }
      forall x | x != id ensures ScoreIn(r, x) == ScoreIn(combined, x) {
        FirstIndexAppend(ids, id, x);
      }
    }
  }

  /** What crediting the first `n` results of `recs` to `combined` leaves in `r`. */
  ghost predicate CreditedUpTo(combined: seq<ContentScore>, recs: seq<int>, w: real, n: nat, r: seq<ContentScore>)
    requires n <= |recs|
  {
    Distinct(ScoreIds(r)) &&
    (forall x :: x in ScoreIds(r) <==> x in ScoreIds(combined) || x in recs[..n]) &&
    forall x :: ScoreIn(r, x) == ScoreIn(combined, x) + PartialWeight(recs, w, n, x)
  }

  /** Crediting a list of distinct ids adds each one's weighted position to
      its score and nothing to any other. */
  lemma {:induction false} CreditAllSpec(combined: seq<ContentScore>, recs: seq<int>, w: real, n: nat)
    requires Distinct(ScoreIds(combined)) && Distinct(recs) && n <= |recs|
    ensures var r := CreditAll(combined, recs, w, n);
            Distinct(ScoreIds(r)) &&
            (forall x :: x in ScoreIds(r) <==> x in ScoreIds(combined) || x in recs[..n]) &&
            forall x :: ScoreIn(r, x) == ScoreIn(combined, x) + PartialWeight(recs, w, n, x)
  {
    if n == 0 {
      assert recs[..0] == [];
    } else {
      CreditAllSpec(combined, recs, w, n - 1);
      CreditNext(combined, recs, w, n, CreditAll(combined, recs, w, n - 1));
    }
  }

  /** One more credit keeps `CreditedUpTo`. */
  lemma CreditNext(combined: seq<ContentScore>, recs: seq<int>, w: real, n: nat, prev: seq<ContentScore>)
    requires Distinct(recs) && 0 < n <= |recs|
    requires CreditedUpTo(combined, recs, w, n - 1, prev)
    ensures CreditedUpTo(combined, recs, w, n, Credited(prev, recs[n - 1], Contribution(w, |recs|, n - 1)))
  {
    var y := recs[n - 1];
    var amount := Contribution(w, |recs|, n - 1);
    var r := Credited(prev, y, amount);
    CreditedSpec(prev, y, amount);
    assert recs[..n] == recs[..n - 1] + [y];
    PartialWeightNext(recs, w, n);
    forall x ensures ScoreIn(r, x) == ScoreIn(combined, x) + PartialWeight(recs, w, n, x) {
      assert ScoreIn(prev, x) == ScoreIn(combined, x) + PartialWeight(recs, w, n - 1, x);
    }
  }

  /** Position `n - 1` adds its contribution to its own id only. */
  lemma PartialWeightNext(recs: seq<int>, w: real, n: nat)
    requires Distinct(recs) && 0 < n <= |recs|
    ensures forall x :: PartialWeight(recs, w, n, x) == PartialWeight(recs, w, n - 1, x) +
                                                      (if x == recs[n - 1] then Contribution(w, |recs|, n - 1) else 0.0)
  {
    var y := recs[n - 1];
    assert FirstIndex(recs, y) == n - 1 by {
      assert y !in recs[..n - 1];
    }
    forall x ensures PartialWeight(recs, w, n, x) == PartialWeight(recs, w, n - 1, x) +
                                                     (if x == y then Contribution(w, |recs|, n - 1) else 0.0) {
      if x != y {
        var k := FirstIndex(recs, x);
        assert k != n - 1;
      }
    }
  }

  /** Appending a list of distinct ids is crediting it to an empty buffer. */
  lemma {:induction false} ListedIsCredited(recs: seq<int>, w: real, n: nat)
    requires Distinct(recs) && n <= |recs|
    ensures Listed(recs, w)[..n] == CreditAll([], recs, w, n)
  {
    if n > 0 {
      ListedIsCredited(recs, w, n - 1);
      CreditAllSpec([], recs, w, n - 1);
      var prev := CreditAll([], recs, w, n - 1);
      assert recs[n - 1] !in recs[..n - 1];
      assert recs[n - 1] !in ScoreIds(prev);
      assert Listed(recs, w)[..n] == Listed(recs, w)[..n - 1] + [Listed(recs, w)[n - 1]];
    }
  }

  /** The blend holds each content of the three lists once, scored by the
      sum of its weighted positions. */
  lemma BlendSpec(s: seq<int>, c: seq<int>, p: seq<int>)
    requires Distinct(s) && Distinct(c) && Distinct(p)
    ensures var b := Blend(s, c, p);
            Distinct(ScoreIds(b)) &&
            (forall x :: x in ScoreIds(b) <==> x in s || x in c || x in p) &&
            (forall x :: ScoreIn(b, x) == BlendedScore(s, c, p, x)) &&
            |b| <= |s| + |c| + |p|
  {
    ListedIsCredited(s, SimilarityWeight, |s|);
    assert Listed(s, SimilarityWeight)[..|s|] == Listed(s, SimilarityWeight);
    assert ScoreIds([]) == [];
    CreditAllSpec([], s, SimilarityWeight, |s|);
    var a := Listed(s, SimilarityWeight);
    CreditAllSpec(a, c, CategoryWeight, |c|);
    var ac := CreditAll(a, c, CategoryWeight, |c|);
    CreditAllSpec(ac, p, PopularityWeight, |p|);
    assert s[..|s|] == s && c[..|c|] == c && p[..|p|] == p;
  }

  /** The body of the credit loop: search the buffer by id, then bump or
      append. */
  method Credit(combined: seq<ContentScore>, id: int, amount: real) returns (r: seq<ContentScore>)
    ensures r == Credited(combined, id, amount)
  {
    var j := IndexOf(ScoreIds(combined), id);
    if j >= 0 {
      r := combined[j := ContentScore(id, combined[j].score + amount)];
    } else {
      r := combined + [ContentScore(id, amount)];
    }
  }

  /** The search-and-credit loop over one strategy's results. */
  method CreditLoop(combined: seq<ContentScore>, recs: seq<int>, w: real) returns (r: seq<ContentScore>)
    ensures r == CreditAll(combined, recs, w, |recs|)
  {
    r := combined;
    var i := 0;
    while i < |recs|
      invariant 0 <= i <= |recs|
      invariant r == CreditAll(combined, recs, w, i)
    {
      r := Credit(r, recs[i], Contribution(w, |recs|, i));
      i := i + 1;
    }
  }

  /** The first loop of the blend: one entry per result, no search. */
  method ListLoop(recs: seq<int>, w: real) returns (combined: seq<ContentScore>)
    ensures combined == Listed(recs, w)
  {
    combined := [];
    var i := 0;
    while i < |recs|
      invariant 0 <= i <= |recs|
      invariant combined == Listed(recs, w)[..i]
    {
      assert Listed(recs, w)[..i + 1] == Listed(recs, w)[..i] + [Listed(recs, w)[i]];
      combined := combined + [ContentScore(recs[i], Contribution(w, |recs|, i))];
      i := i + 1;
    }
    assert Listed(recs, w)[..i] == Listed(recs, w);
  }

  /** `recommendation_personalized`: each strategy is asked for 10 results,
      whatever `max` is. */
  method Personalized(users: UserManager, catalog: Catalog, uid: int, max: int,
                      sort: seq<ContentScore> -> seq<ContentScore>) returns (recs: seq<int>)
    ensures recs == PersonalizedSpec(catalog.items, users.log, uid, max, sort)
  {
    if uid <= 0 || max <= 0 {
      return [];
    }
    var s := BySimilarity(users, catalog, uid, MaxRecommendations, sort);
    var c := ByCategory(users, catalog, uid, MaxRecommendations, sort);
    var p := ByPopularity(catalog, MaxRecommendations, sort);
    var combined := ListLoop(s, SimilarityWeight);
    combined := CreditLoop(combined, c, CategoryWeight);
    combined := CreditLoop(combined, p, PopularityWeight);
    recs := CopyOut(sort(combined), IdOf, max);
  }

  /** A scorer that labels each candidate with the candidate's own id. */
  ghost predicate KeepsIds(f: Content -> Option<ContentScore>)
  {
    forall c :: f(c).Some? ==> f(c).value.contentId == c.id
  }

  /** Scoring contents with distinct ids gives entries with distinct ids,
      each the id of a catalogue content. */
  lemma {:induction false} ScoresDistinct(items: seq<Content>, f: Content -> Option<ContentScore>)
    requires Distinct(ContentIds(items)) && KeepsIds(f)
    ensures Distinct(ScoreIds(FilterMap(items, f)))
    ensures forall x :: x in ScoreIds(FilterMap(items, f)) ==> x in ContentIds(items)
  {
    if items != [] {
      var q := items[..|items| - 1];
      var last := items[|items| - 1];
      assert ContentIds(q) == ContentIds(items)[..|items| - 1];
      ScoresDistinct(q, f);
      var p := FilterMap(q, f);
      assert last.id !in ContentIds(q);
      if f(last).Some? {
        assert ScoreIds(p + [f(last).value]) == ScoreIds(p) + [last.id];
      }
    }
  }

  /** A ranked buffer with distinct ids yields distinct ids, each from the
      buffer, at most `max` of them. */
  lemma RankedDistinct(scores: seq<ContentScore>, max: int, sort: seq<ContentScore> -> seq<ContentScore>)
    requires IsRankSort(sort, ScoreOf) && Distinct(ScoreIds(scores))
    ensures var r := Ranked(scores, max, sort);
            Distinct(r) && (max > 0 ==> |r| <= max) && forall x :: x in r ==> x in ScoreIds(scores)
  {
    var r := sort(scores);
    assert IsRanking(r, scores, ScoreOf);
    assert Distinct(scores) by {
      forall i, j | 0 <= i < j < |scores| ensures scores[i] != scores[j] {
        assert ScoreIds(scores)[i] != ScoreIds(scores)[j];
      }
    }
    PermutationDistinct(r, scores);
    RankingPrefixFrom(r, scores, ScoreOf, |r|);
    assert Take(r, |r|) == r;
    forall i, j | 0 <= i < j < |r| ensures r[i].contentId != r[j].contentId {
      assert r[i] in Take(r, |r|) && r[j] in Take(r, |r|);
      var a :| 0 <= a < |scores| && scores[a] == r[i];
      var b :| 0 <= b < |scores| && scores[b] == r[j];
      assert ScoreIds(scores)[a] != ScoreIds(scores)[b];
    }
    RankedFrom(scores, max, sort);
  }

  /** Every ranked id is the id of a buffer entry. */
  lemma RankedFrom(scores: seq<ContentScore>, max: int, sort: seq<ContentScore> -> seq<ContentScore>)
    requires IsRankSort(sort, ScoreOf)
    ensures forall x :: x in Ranked(scores, max, sort) ==> x in ScoreIds(scores)
  {
    var r := sort(scores);
    assert IsRanking(r, scores, ScoreOf);
    RankingPrefixFrom(r, scores, ScoreOf, max);
    var top := Take(r, max);
    forall x | x in MapSeq(top, IdOf) ensures x in ScoreIds(scores) {
      var j :| 0 <= j < |top| && top[j].contentId == x;
      assert top[j] in top;
      var a :| 0 <= a < |scores| && scores[a] == top[j];
      assert ScoreIds(scores)[a] == x;
    }
  }

  /** Over a catalogue with distinct ids, each strategy returns at most
      `max` distinct catalogue ids. */
  lemma StrategiesDistinct(items: seq<Content>, log: seq<Interaction>, uid: int, max: int,
                           sort: seq<ContentScore> -> seq<ContentScore>)
    requires IsRankSort(sort, ScoreOf) && Distinct(ContentIds(items))
    ensures var p := ByPopularitySpec(items, max, sort);
            Distinct(p) && (max > 0 ==> |p| <= max) && forall x :: x in p ==> x in ContentIds(items)
    ensures var s := BySimilaritySpec(items, log, uid, max, sort);
            Distinct(s) && (max > 0 ==> |s| <= max) && forall x :: x in s ==> x in ContentIds(items)
    ensures var c := ByCategorySpec(items, log, uid, max, sort);
            Distinct(c) && (max > 0 ==> |c| <= max) && forall x :: x in c ==> x in ContentIds(items)
  {
    var pop := PopularityScores(items);
    assert ScoreIds(pop) == ContentIds(items)[..|pop|];
    RankedDistinct(pop, max, sort);
    var watched := WatchedIds(log, uid);
    ScoresDistinct(items, SimilarityScorer(items, watched));
    RankedDistinct(SimilarityScores(items, watched), max, sort);
    var sorted := ExchangeSorted(CategoryTally(items, log, uid));
    ScoresDistinct(items, CategoryScorer(log, uid, sorted));
    RankedDistinct(CategoryScores(items, log, uid), max, sort);
  }

  /** With distinct ids, an entry's score is what the lookup by its id gives. */
  lemma ScoreInMember(b: seq<ContentScore>, e: ContentScore)
    requires Distinct(ScoreIds(b)) && e in b
    ensures ScoreIn(b, e.contentId) == e.score
  {
    var i :| 0 <= i < |b| && b[i] == e;
    assert ScoreIds(b)[i] == e.contentId;
  }

  /** Each ranked entry carries its id's score in the buffer. */
  lemma TopScores(b: seq<ContentScore>, max: int, sort: seq<ContentScore> -> seq<ContentScore>)
    requires IsRankSort(sort, ScoreOf) && Distinct(ScoreIds(b))
    ensures var top := Take(sort(b), max);
            forall k :: 0 <= k < |top| ==> top[k].score == ScoreIn(b, top[k].contentId)
  {
    var r := sort(b);
    assert IsRanking(r, b, ScoreOf);
    RankingPrefixFrom(r, b, ScoreOf, max);
    var top := Take(r, max);
    forall k | 0 <= k < |top| ensures top[k].score == ScoreIn(b, top[k].contentId) {
      assert top[k] in top;
      ScoreInMember(b, top[k]);
    }
  }

  /** Ranking the blend of three lists of distinct ids: distinct ids from
      the lists, at most `max` and at most the three lengths together, all
      of them when `max` allows, best blended score first, each scored by the
      sum of its weighted positions. */
  lemma BlendRanking(s: seq<int>, c: seq<int>, p: seq<int>, max: int, sort: seq<ContentScore> -> seq<ContentScore>)
    requires IsRankSort(sort, ScoreOf) && Distinct(s) && Distinct(c) && Distinct(p) && max > 0
    ensures var b := Blend(s, c, p);
            var top := Take(sort(b), max);
            var r := Ranked(b, max, sort);
            Distinct(r) && |r| <= Min(max, |s| + |c| + |p|) &&
            (forall x :: x in r ==> x in s || x in c || x in p) &&
            (max >= |b| ==> forall x :: x in s || x in c || x in p ==> x in r) &&
            NonIncreasing(top, ScoreOf) &&
            (forall k :: 0 <= k < |top| ==> top[k].score == BlendedScore(s, c, p, top[k].contentId)) &&
            (forall x, i :: x in multiset(b) - multiset(top) && 0 <= i < |top| ==> x.score <= top[i].score)
  {
    BlendSpec(s, c, p);
    var b := Blend(s, c, p);
    RankedDistinct(b, max, sort);
    var r := sort(b);
    assert IsRanking(r, b, ScoreOf);
    RankingPrefixFrom(r, b, ScoreOf, max);
    RankingPrefixIsTop(r, b, ScoreOf, max);
    var top := Take(r, max);
    TopScores(b, max, sort);
    forall k | 0 <= k < |top| ensures top[k].score == BlendedScore(s, c, p, top[k].contentId) {
      assert top[k].score == ScoreIn(b, top[k].contentId);
    }
    if max >= |b| {
      BlendComplete(b, max, sort);
    }
  }

  /** When `max` covers the buffer, every id of the buffer is returned. */
  lemma BlendComplete(b: seq<ContentScore>, max: int, sort: seq<ContentScore> -> seq<ContentScore>)
    requires IsRankSort(sort, ScoreOf) && max >= |b|
    ensures forall x :: x in ScoreIds(b) ==> x in Ranked(b, max, sort)
  {
    var r := sort(b);
    assert IsRanking(r, b, ScoreOf);
    RankingPrefixFrom(r, b, ScoreOf, max);
    assert Take(r, max) == r;
    forall x | x in ScoreIds(b) ensures x in Ranked(b, max, sort) {
      var k :| 0 <= k < |b| && ScoreIds(b)[k] == x;
      assert b[k] in multiset(r);
      var j :| 0 <= j < |r| && r[j] == b[k];
      assert Ranked(b, max, sort)[j] == x;
    }
  }

  /** Over a catalogue with distinct ids, the personalized list is the
      blend ranking of the three strategies' lists of at most 10 each, so
      it never holds more than 30 ids, whatever `max` is. */
  lemma PersonalizedRanking(items: seq<Content>, log: seq<Interaction>, uid: int, max: int,
                            sort: seq<ContentScore> -> seq<ContentScore>)
    requires IsRankSort(sort, ScoreOf) && Distinct(ContentIds(items)) && uid > 0 && max > 0
    ensures var s := BySimilaritySpec(items, log, uid, MaxRecommendations, sort);
            var c := ByCategorySpec(items, log, uid, MaxRecommendations, sort);
            var p := ByPopularitySpec(items, MaxRecommendations, sort);
            var r := PersonalizedSpec(items, log, uid, max, sort);
            r == Ranked(Blend(s, c, p), max, sort) &&
            Distinct(s) && Distinct(c) && Distinct(p) &&
            Distinct(r) && |r| <= Min(max, 3 * MaxRecommendations) &&
            forall x :: x in r ==> x in ContentIds(items) && (x in s || x in c || x in p)
  {
    var s := BySimilaritySpec(items, log, uid, MaxRecommendations, sort);
    var c := ByCategorySpec(items, log, uid, MaxRecommendations, sort);
    var p := ByPopularitySpec(items, MaxRecommendations, sort);
    StrategiesDistinct(items, log, uid, MaxRecommendations, sort);
    BlendRanking(s, c, p, max, sort);
  }

  /** A content ranked first of two by similarity and second of two by
      category gets 3 * 2/2 + 2 * 1/2 = 4. */
  lemma BlendExample()
    ensures var b := Blend([7, 8], [9, 7], []);
            ScoreIn(b, 7) == 4.0 && ScoreIn(b, 8) == 1.5 && ScoreIn(b, 9) == 2.0 && ScoreIn(b, 5) == 0.0
  {
    var a := Listed([7, 8], SimilarityWeight);
    assert a == [ContentScore(7, 3.0), ContentScore(8, 1.5)];
    assert ScoreIds(a) == [7, 8];
    var a1 := a + [ContentScore(9, 2.0)];
    assert CreditAll(a, [9, 7], CategoryWeight, 1) == a1;
    assert ScoreIds(a1) == [7, 8, 9];
    var a2 := [ContentScore(7, 4.0), ContentScore(8, 1.5), ContentScore(9, 2.0)];
    assert CreditAll(a, [9, 7], CategoryWeight, 2) == a2;
    assert Blend([7, 8], [9, 7], []) == a2;
    assert ScoreIds(a2) == [7, 8, 9];
  }
}
