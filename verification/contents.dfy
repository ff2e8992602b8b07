/** The content catalogue: a growable array of media records with id
    allocation, compaction on removal, sentinel-driven editing, three capped
    searches and a view counter. */
module Contents {
  import opened Common

  /** Characters kept by the title buffer (MAX_TITLE_LENGTH - 1). */
  const TitleLimit := 99
  /** Characters kept by the category buffer (MAX_CATEGORY_LENGTH - 1). */
  const CategoryLimit := 49

  datatype Content = Content(id: int, title: string, category: string,
                             duration: int, ageRating: int, views: int)

  function ContentIds(items: seq<Content>): (ids: seq<int>)
    ensures |ids| == |items| && forall i :: 0 <= i < |items| ==> ids[i] == items[i].id
  {
    MapSeq(items, (c: Content) => c.id)
  }

  /** `content_get_by_id`: the first record with that id; nothing for a
      non-positive or unknown id. */
  function Find(items: seq<Content>, id: int): (r: Option<Content>)
    ensures r.Some? <==> id > 0 && id in ContentIds(items)
    ensures r.Some? ==> r.value in items && r.value.id == id
  {
    var k := FirstIndex(ContentIds(items), id);
    if id <= 0 || k < 0 then None else Some(items[k])
  }

  /** With distinct ids, every record is exactly what a lookup of its id yields. */
  lemma FindDistinct(items: seq<Content>, c: Content)
    requires Distinct(ContentIds(items)) && c in items && c.id > 0
    ensures Find(items, c.id) == Some(c)
  {
    var i :| 0 <= i < |items| && items[i] == c;
    var k := FirstIndex(ContentIds(items), c.id);
    assert ContentIds(items)[i] == c.id;
    assert k == i;
  }

  /** A record a catalogue can hold once it went through the operations below. */
  predicate WellFormed(c: Content)
  {
    c.id > 0 && |c.title| <= TitleLimit && |c.category| <= CategoryLimit &&
    c.duration > 0 && c.ageRating >= 0 && c.views >= 0
  }

  /** Ids are distinct and every record is well formed. */
  predicate CatalogInvariant(items: seq<Content>)
  {
    Distinct(ContentIds(items)) && forall c :: c in items ==> WellFormed(c)
  }

  // ---------------------------------------------------------------------------
  // Search predicates

  /** The title search: the lower-cased title contains the lower-cased query
      (both cut to the title buffer). */
  predicate TitleMatches(c: Content, query: string)
  {
    Contains(Lower(Truncate(c.title, TitleLimit)), Lower(Truncate(query, TitleLimit)))
  }

  /** The category search: the lower-cased category equals the lower-cased query
      (both cut to the category buffer). */
  predicate CategoryMatches(c: Content, query: string)
  {
    Lower(Truncate(c.category, CategoryLimit)) == Lower(Truncate(query, CategoryLimit))
  }

  function TitleMatcher(query: string): Content -> Option<int>
  {
    (c: Content) => if TitleMatches(c, query) then Some(c.id) else None
  }

  function CategoryMatcher(query: string): Content -> Option<int>
  {
    (c: Content) => if CategoryMatches(c, query) then Some(c.id) else None
  }

  function AgeMatcher(ageRating: int): Content -> Option<int>
  {
    (c: Content) => if c.ageRating == ageRating then Some(c.id) else None
  }

  /** What a capped search returns: only ids of matching records, and, when
      the cap was not reached, the id of every matching record. */
  lemma CappedSearch(items: seq<Content>, f: Content -> Option<int>, max: int)
    requires forall c :: f(c) == None || f(c) == Some(c.id)
    ensures var ids := Take(FilterMap(items, f), max);
            (forall x :: x in ids ==> exists c :: c in items && c.id == x && f(c).Some?) &&
            (|ids| < max ==> forall c :: c in items && f(c).Some? ==> c.id in ids)
  {
    var all := FilterMap(items, f);
    var ids := Take(all, max);
    FilterMapMembers(items, f);
    forall x | x in ids ensures exists c :: c in items && c.id == x && f(c).Some? {
      assert x in all;
      var i :| 0 <= i < |items| && f(items[i]) == Some(x);
      assert items[i] in items;
    }
    if |ids| < max {
      assert ids == all;
      forall c | c in items && f(c).Some? ensures c.id in ids {
        var i :| 0 <= i < |items| && items[i] == c;
        assert f(items[i]) == Some(c.id);
      }
    }
  }

  /** Title search: results are matching records' ids and, below the cap,
      all of them. */
  lemma TitleSearchSpec(items: seq<Content>, query: string, max: int)
    ensures var ids := Take(FilterMap(items, TitleMatcher(query)), max);
            (forall x :: x in ids ==> exists c :: c in items && c.id == x && TitleMatches(c, query)) &&
            (|ids| < max ==> forall c :: c in items && TitleMatches(c, query) ==> c.id in ids)
  {
    CappedSearch(items, TitleMatcher(query), max);
  }

  /** Category search: exact equality ignoring ASCII case. */
  lemma CategorySearchSpec(items: seq<Content>, query: string, max: int)
    ensures var ids := Take(FilterMap(items, CategoryMatcher(query)), max);
            (forall x :: x in ids ==> exists c :: c in items && c.id == x && CategoryMatches(c, query)) &&
            (|ids| < max ==> forall c :: c in items && CategoryMatches(c, query) ==> c.id in ids)
  {
    CappedSearch(items, CategoryMatcher(query), max);
  }

  /** Age-rating search: exact integer equality. */
  lemma AgeSearchSpec(items: seq<Content>, ageRating: int, max: int)
    ensures var ids := Take(FilterMap(items, AgeMatcher(ageRating)), max);
            (forall x :: x in ids ==> exists c :: c in items && c.id == x && c.ageRating == ageRating) &&
            (|ids| < max ==> forall c :: c in items && c.ageRating == ageRating ==> c.id in ids)
  {
    CappedSearch(items, AgeMatcher(ageRating), max);
  }

  /** An empty title query matches every record, so the search lists the
      first `max` ids of the catalogue in order. */
  lemma {:induction false} EmptyTitleQueryMatchesAll(items: seq<Content>)
    ensures FilterMap(items, TitleMatcher("")) == ContentIds(items)
  {
    if items != [] {
      var p := items[..|items| - 1];
      EmptyTitleQueryMatchesAll(p);
      EmptyNeedleOccurs(Lower(Truncate(items[|items| - 1].title, TitleLimit)));
      assert Lower(Truncate("", TitleLimit)) == "";
      assert ContentIds(items) == ContentIds(p) + [items[|items| - 1].id];
    }
  }

  lemma LowerUpper(s: string)
    ensures Lower(Upper(s)) == Lower(s)
  {
    assert forall i :: 0 <= i < |s| ==> ToLower(ToUpper(s[i])) == ToLower(s[i]);
  }

  /** Both searches by text ignore the case of the query. */
  lemma QueryCaseIgnored(c: Content, query: string)
    ensures TitleMatches(c, Upper(query)) <==> TitleMatches(c, query)
    ensures CategoryMatches(c, Upper(query)) <==> CategoryMatches(c, query)
  {
    assert Truncate(Upper(query), TitleLimit) == Upper(Truncate(query, TitleLimit));
    assert Truncate(Upper(query), CategoryLimit) == Upper(Truncate(query, CategoryLimit));
    LowerUpper(Truncate(query, TitleLimit));
    LowerUpper(Truncate(query, CategoryLimit));
  }

  // ---------------------------------------------------------------------------
  // The store

  class Catalog {
    var items: seq<Content>

    ghost predicate Valid()
      reads this
    {
      CatalogInvariant(items)
    }

    /** `content_init_catalog`: an empty catalogue. */
    constructor ()
      ensures items == [] && Valid()
    {
      items := [];
    }

    /** `content_add`: rejects a NULL string, a non-positive duration or a
        negative age rating; otherwise appends a record with the next id and
        no views. */
    method Add(title: Option<string>, category: Option<string>, duration: int, ageRating: int)
      returns (id: int)
      modifies this
      ensures title.None? || category.None? || duration <= 0 || ageRating < 0 ==>
                id == -1 && items == old(items)
      ensures title.Some? && category.Some? && duration > 0 && ageRating >= 0 ==>
                id == NextIdOf(ContentIds(old(items))) &&
                items == old(items) + [Content(id, Truncate(title.value, TitleLimit),
                                               Truncate(category.value, CategoryLimit),
                                               duration, ageRating, 0)]
      ensures old(Valid()) ==> Valid()
    {
      if title.None? || category.None? || duration <= 0 || ageRating < 0 {
        return -1;
      }
      id := NextId(ContentIds(items));
      var c := Content(id, Truncate(title.value, TitleLimit), Truncate(category.value, CategoryLimit),
                       duration, ageRating, 0);
      ghost var before := items;
      items := items + [c];
      AddKeepsInvariant(before, c);
    }

    /** `content_remove`: deletes the first record with that id and shifts the
        later ones left; a non-positive or unknown id changes nothing. */
    method Remove(id: int) returns (ok: bool)
      modifies this
      ensures var k := FirstIndex(ContentIds(old(items)), id);
              if id <= 0 || k < 0 then !ok && items == old(items)
              else ok && items == old(items)[..k] + old(items)[k + 1..]
      ensures old(Valid()) ==> Valid()
    {
      if id <= 0 {
        return false;
      }
      var k := IndexOf(ContentIds(items), id);
      if k < 0 {
        return false;
      }
      ghost var before := items;
      items := RemoveAt(items, k);
      ok := true;
      if CatalogInvariant(before) {
        RemoveKeepsOthers(before, id);
      }
    }

    /** `content_edit`: on the record with that id, a non-NULL title or
        category, a positive duration and a non-negative age rating (0
        included) replace the old value; id and views never change. */
    method Edit(id: int, title: Option<string>, category: Option<string>, duration: int, ageRating: int)
      returns (ok: bool)
      modifies this
      ensures var k := FirstIndex(ContentIds(old(items)), id);
              if id <= 0 || k < 0 then !ok && items == old(items)
              else
                ok && |items| == |old(items)| &&
                var c, e := old(items)[k], items[k];
                (forall j :: 0 <= j < |items| && j != k ==> items[j] == old(items)[j]) &&
                e.id == c.id && e.views == c.views &&
                e.title == (if title.Some? then Truncate(title.value, TitleLimit) else c.title) &&
                e.category == (if category.Some? then Truncate(category.value, CategoryLimit) else c.category) &&
                e.duration == (if duration > 0 then duration else c.duration) &&
                e.ageRating == (if ageRating >= 0 then ageRating else c.ageRating)
      ensures old(Valid()) ==> Valid()
    {
      if id <= 0 {
        return false;
      }
      var k := IndexOf(ContentIds(items), id);
      if k < 0 {
        return false;
      }
      var c := items[k];
      if title.Some? {
        c := c.(title := Truncate(title.value, TitleLimit));
      }
      if category.Some? {
        c := c.(category := Truncate(category.value, CategoryLimit));
      }
      if duration > 0 {
        c := c.(duration := duration);
      }
      if ageRating >= 0 {
        c := c.(ageRating := ageRating);
      }
      ghost var before := items;
      items := items[k := c];
      ok := true;
      ReplaceKeepsInvariant(before, k, c);
    }

    /** `content_search_by_title`: ids of records whose title contains the
        query, ignoring case, in catalogue order, at most `max`. */
    method SearchByTitle(query: Option<string>, max: int) returns (ids: seq<int>)
      ensures query.None? || max <= 0 ==> ids == []
      ensures query.Some? && max > 0 ==> ids == Take(FilterMap(items, TitleMatcher(query.value)), max)
    {
      if query.None? || max <= 0 {
        return [];
      }
      ids := CollectCapped(items, TitleMatcher(query.value), max);
    }

    /** `content_search_by_category`: ids of records whose category equals the
        query, ignoring case, in catalogue order, at most `max`. */
    method SearchByCategory(query: Option<string>, max: int) returns (ids: seq<int>)
      ensures query.None? || max <= 0 ==> ids == []
      ensures query.Some? && max > 0 ==> ids == Take(FilterMap(items, CategoryMatcher(query.value)), max)
    {
      if query.None? || max <= 0 {
        return [];
      }
      ids := CollectCapped(items, CategoryMatcher(query.value), max);
    }

    /** `content_search_by_age_rating`: ids of records with exactly that age
        rating, in catalogue order, at most `max`; a negative rating finds nothing. */
    method SearchByAgeRating(ageRating: int, max: int) returns (ids: seq<int>)
      ensures ageRating < 0 || max <= 0 ==> ids == []
      ensures ageRating >= 0 && max > 0 ==> ids == Take(FilterMap(items, AgeMatcher(ageRating)), max)
    {
      if ageRating < 0 || max <= 0 {
        return [];
      }
      ids := CollectCapped(items, AgeMatcher(ageRating), max);
    }

    /** `content_increment_views`: one more view on the record with that id,
        nothing else changes. */
    method IncrementViews(id: int) returns (ok: bool)
      modifies this
      ensures var k := FirstIndex(ContentIds(old(items)), id);
              if id <= 0 || k < 0 then !ok && items == old(items)
              else ok && items == old(items)[k := old(items)[k].(views := old(items)[k].views + 1)]
      ensures old(Valid()) ==> Valid()
    {
      if id <= 0 {
        return false;
      }
      var k := IndexOf(ContentIds(items), id);
      if k < 0 {
        return false;
      }
      ghost var before := items;
      items := items[k := items[k].(views := items[k].views + 1)];
      ok := true;
      ReplaceKeepsInvariant(before, k, items[k]);
    }

    /** `content_get_by_id`. */
    method GetById(id: int) returns (r: Option<Content>)
      ensures r == Find(items, id)
    {
      if id <= 0 {
        return None;
      }
      var k := IndexOf(ContentIds(items), id);
      if k < 0 {
        return None;
      }
      return Some(items[k]);
    }
  }

  // ---------------------------------------------------------------------------
  // Lemmas about the operations

  /** The added record gets an unused id, can be found under it, and keeps the
      catalogue invariant. */
  lemma AddKeepsInvariant(items: seq<Content>, c: Content)
    requires c.id == NextIdOf(ContentIds(items))
    requires |c.title| <= TitleLimit && |c.category| <= CategoryLimit
    requires c.duration > 0 && c.ageRating >= 0 && c.views == 0
    ensures c.id !in ContentIds(items)
    ensures Find(items + [c], c.id) == Some(c)
    ensures CatalogInvariant(items) ==> CatalogInvariant(items + [c])
  {
    var ids := ContentIds(items);
    var ids' := ContentIds(items + [c]);
    assert ids' == ids + [c.id];
    assert c.id !in ids;
    assert FirstIndex(ids', c.id) == |items| by {
      assert ids'[..|items|] == ids;
    }
    if CatalogInvariant(items) {
      forall i, j | 0 <= i < j < |ids'| ensures ids'[i] != ids'[j] {
        if j == |items| { assert ids'[i] == ids[i]; }
      }
    }
  }

  /** Removal under distinct ids: the id disappears, every other record is
      still found unchanged, and the invariant holds. */
  lemma RemoveKeepsOthers(items: seq<Content>, id: int)
    requires CatalogInvariant(items) && id in ContentIds(items)
    ensures var k := FirstIndex(ContentIds(items), id);
            var rest := items[..k] + items[k + 1..];
            CatalogInvariant(rest) && Find(rest, id) == None &&
            forall c :: c in items && c.id != id ==> Find(rest, c.id) == Some(c)
  {
    var ids := ContentIds(items);
    var k := FirstIndex(ids, id);
    var rest := items[..k] + items[k + 1..];
    assert ContentIds(rest) == ids[..k] + ids[k + 1..];
    RemovingFirstOccurrence(ids, id);
    RemoveKeepsWellFormed(items, k);
    forall c | c in items && c.id != id ensures Find(rest, c.id) == Some(c) {
      SurvivorFound(items, k, c);
    }
  }

  lemma RemoveKeepsWellFormed(items: seq<Content>, k: nat)
    requires k < |items| && forall c :: c in items ==> WellFormed(c)
    ensures forall c :: c in items[..k] + items[k + 1..] ==> WellFormed(c)
  {
    var rest := items[..k] + items[k + 1..];
    forall c | c in rest ensures WellFormed(c) {
      var i :| 0 <= i < |rest| && rest[i] == c;
      if i < k { assert items[i] == c; } else { assert items[i + 1] == c; }
    }
  }

  lemma SurvivorFound(items: seq<Content>, k: nat, c: Content)
    requires k < |items| && c in items && c != items[k] && c.id > 0
    requires Distinct(ContentIds(items[..k] + items[k + 1..]))
    ensures Find(items[..k] + items[k + 1..], c.id) == Some(c)
  {
    var rest := items[..k] + items[k + 1..];
    var i :| 0 <= i < |items| && items[i] == c;
    if i < k { assert rest[i] == c; } else { assert rest[i - 1] == c; }
    FindDistinct(rest, c);
  }

  /** Replacing a record by one with the same id that is still well formed
      keeps the catalogue invariant: editing or counting a view can never
      produce an invalid record. */
  lemma ReplaceKeepsInvariant(items: seq<Content>, k: nat, c: Content)
    requires k < |items| && c.id == items[k].id
    requires WellFormed(items[k]) ==> WellFormed(c)
    ensures CatalogInvariant(items) ==> CatalogInvariant(items[k := c])
  {
    assert ContentIds(items[k := c]) == ContentIds(items);
    if CatalogInvariant(items) {
      forall d | d in items[k := c] ensures WellFormed(d) {
        var i :| 0 <= i < |items| && items[k := c][i] == d;
        if i != k { assert items[i] == d; } else { assert items[k] in items; }
      }
    }
  }
}
