/** Custom lists: named, user-owned, bounded ordered sets of content ids. */
module Lists {
  import opened Common

  /** Characters kept by the list name buffer (MAX_LIST_NAME_LENGTH - 1). */
  const NameLimit := 99
  /** Capacity of a list (MAX_LIST_ITEMS). */
  const MaxListItems := 100

  datatype CustomList = CustomList(id: int, userId: int, name: string, contentIds: seq<int>)

  function ListIds(lists: seq<CustomList>): (ids: seq<int>)
    ensures |ids| == |lists| && forall i :: 0 <= i < |lists| ==> ids[i] == lists[i].id
  {
    MapSeq(lists, (l: CustomList) => l.id)
  }

  /** `list_get_by_id`: the first list with that id; nothing for a
      non-positive or unknown id. */
  function FindList(lists: seq<CustomList>, id: int): (r: Option<CustomList>)
    ensures r.Some? <==> id > 0 && id in ListIds(lists)
    ensures r.Some? ==> r.value in lists && r.value.id == id
  {
    var k := FirstIndex(ListIds(lists), id);
    if id <= 0 || k < 0 then None else Some(lists[k])
  }

  /** A list as the operations below leave it. */
  predicate ListWellFormed(l: CustomList)
  {
    l.id > 0 && l.userId > 0 && 0 < |l.name| <= NameLimit &&
    Distinct(l.contentIds) && |l.contentIds| <= MaxListItems &&
    (forall c :: c in l.contentIds ==> c > 0)
  }

  predicate ListsInvariant(lists: seq<CustomList>)
  {
    Distinct(ListIds(lists)) && forall l :: l in lists ==> ListWellFormed(l)
  }

  function OwnerMatcher(uid: int): CustomList -> Option<int>
  {
    (l: CustomList) => if l.userId == uid then Some(l.id) else None
  }

  /** `list_get_by_user` returns ids of that user's lists only, and all of
      them when the cap is not reached. */
  lemma ByUserSpec(lists: seq<CustomList>, uid: int, max: int)
    ensures var ids := Take(FilterMap(lists, OwnerMatcher(uid)), max);
            (forall x :: x in ids ==> exists l :: l in lists && l.id == x && l.userId == uid) &&
            (|ids| < max ==> forall l :: l in lists && l.userId == uid ==> l.id in ids)
  {
    var all := FilterMap(lists, OwnerMatcher(uid));
    var ids := Take(all, max);
    FilterMapMembers(lists, OwnerMatcher(uid));
    forall x | x in ids ensures exists l :: l in lists && l.id == x && l.userId == uid {
      assert x in all;
      var i :| 0 <= i < |lists| && OwnerMatcher(uid)(lists[i]) == Some(x);
      assert lists[i] in lists;
    }
    if |ids| < max {
      assert ids == all;
      forall l | l in lists && l.userId == uid ensures l.id in ids {
        var i :| 0 <= i < |lists| && lists[i] == l;
        assert OwnerMatcher(uid)(lists[i]) == Some(l.id);
      }
    }
  }

  /** Replacing list `k` by a well-formed list with the same id keeps the
      invariant. */
  lemma ReplaceKeepsInvariant(lists: seq<CustomList>, k: nat, l: CustomList)
    requires ListsInvariant(lists) && k < |lists| && l.id == lists[k].id && ListWellFormed(l)
    ensures ListsInvariant(lists[k := l])
  {
    assert ListIds(lists[k := l]) == ListIds(lists);
    forall d | d in lists[k := l] ensures ListWellFormed(d) {
      var i :| 0 <= i < |lists| && lists[k := l][i] == d;
      if i != k { assert lists[i] in lists; }
    }
  }

  lemma CreateKeepsInvariant(lists: seq<CustomList>, l: CustomList)
    requires ListsInvariant(lists) && l.id == NextIdOf(ListIds(lists)) && ListWellFormed(l)
    ensures ListsInvariant(lists + [l])
  {
    var ids := ListIds(lists);
    var ids' := ListIds(lists + [l]);
    assert ids' == ids + [l.id];
    forall i, j | 0 <= i < j < |ids'| ensures ids'[i] != ids'[j] {
      if j == |lists| { assert ids'[i] == ids[i]; }
    }
  }

  /** Dropping list `k` drops its id at the same position. */
  lemma RemovedIds(lists: seq<CustomList>, k: nat)
    requires k < |lists|
    ensures ListIds(lists[..k] + lists[k + 1..]) == ListIds(lists)[..k] + ListIds(lists)[k + 1..]
  {
    var ids := ListIds(lists);
    var rest := lists[..k] + lists[k + 1..];
    forall i | 0 <= i < |rest| ensures ListIds(rest)[i] == (ids[..k] + ids[k + 1..])[i] {
      if i < k { assert rest[i] == lists[i]; } else { assert rest[i] == lists[i + 1]; }
    }
  }

  /** Every list left after dropping one was in the store. */
  lemma RemovedMembers(lists: seq<CustomList>, k: nat)
    requires k < |lists|
    ensures forall l :: l in lists[..k] + lists[k + 1..] ==> l in lists
  {
    var rest := lists[..k] + lists[k + 1..];
    forall l | l in rest ensures l in lists {
      var i :| 0 <= i < |rest| && rest[i] == l;
      if i < k { assert lists[i] == l; } else { assert lists[i + 1] == l; }
    }
  }

  lemma {:induction false} RemoveListKeepsInvariant(lists: seq<CustomList>, id: int)
    requires ListsInvariant(lists) && id in ListIds(lists)
    ensures var k := FirstIndex(ListIds(lists), id);
            ListsInvariant(lists[..k] + lists[k + 1..]) && FindList(lists[..k] + lists[k + 1..], id) == None
  {
    var ids := ListIds(lists);
    var k := FirstIndex(ids, id);
    var rest := lists[..k] + lists[k + 1..];
    RemovedIds(lists, k);
    RemovingFirstOccurrence(ids, id);
    assert id !in ListIds(rest);
    RemovedMembers(lists, k);
  }

  /** Adding or removing an item keeps a list a well-formed set. */
  lemma ItemsKeepSet(l: CustomList, cid: int)
    requires ListWellFormed(l) && cid > 0
    ensures ListWellFormed(l.(contentIds := Inserted(l.contentIds, cid, MaxListItems).1))
    ensures ListWellFormed(l.(contentIds := Removed(l.contentIds, cid).1))
  {
    InsertKeepsSet(l.contentIds, cid, MaxListItems);
    var r := Removed(l.contentIds, cid).1;
    if cid in l.contentIds {
      RemovedKeepsSet(l.contentIds, cid);
      forall c | c in r ensures c > 0 {
        assert c in multiset(r);
        assert c in multiset(l.contentIds);
        assert c in l.contentIds;
      }
    }
  }

  class ListManager {
    var lists: seq<CustomList>

    ghost predicate Valid()
      reads this
    {
      ListsInvariant(lists)
    }

    /** `list_init_manager`: no lists. */
    constructor ()
      ensures lists == [] && Valid()
    {
      lists := [];
    }

    /** `list_create`: rejects a non-positive owner or a NULL or empty name;
        otherwise appends an empty list with the next id. The owner is not
        checked against the users. */
    method Create(uid: int, name: Option<string>) returns (id: int)
      modifies this
      ensures uid <= 0 || name.None? || name.value == "" ==> id == -1 && lists == old(lists)
      ensures uid > 0 && name.Some? && name.value != "" ==>
                id == NextIdOf(ListIds(old(lists))) &&
                lists == old(lists) + [CustomList(id, uid, Truncate(name.value, NameLimit), [])]
      ensures old(Valid()) ==> Valid()
    {
      if uid <= 0 || name.None? || name.value == "" {
        return -1;
      }
      id := NextId(ListIds(lists));
      var l := CustomList(id, uid, Truncate(name.value, NameLimit), []);
      ghost var before := lists;
      lists := lists + [l];
      if ListsInvariant(before) {
        CreateKeepsInvariant(before, l);
      }
    }

    /** `list_remove`: deletes the list with that id, the others keep their
        order; a non-positive or unknown id changes nothing. */
    method Remove(id: int) returns (ok: bool)
      modifies this
      ensures var k := FirstIndex(ListIds(old(lists)), id);
              if id <= 0 || k < 0 then !ok && lists == old(lists)
              else ok && lists == old(lists)[..k] + old(lists)[k + 1..]
      ensures old(Valid()) ==> Valid()
    {
      if id <= 0 {
        return false;
      }
      var k := IndexOf(ListIds(lists), id);
      if k < 0 {
        return false;
      }
      ghost var before := lists;
      lists := RemoveAt(lists, k);
      ok := true;
      if ListsInvariant(before) {
        RemoveListKeepsInvariant(before, id);
      }
    }

    /** `list_add_content`: an item already present is a success with no
        change, a full list is a failure, otherwise the item is appended. */
    method AddContent(id: int, cid: int) returns (ok: bool)
      modifies this
      ensures var k := FirstIndex(ListIds(old(lists)), id);
              if id <= 0 || cid <= 0 || k < 0 then !ok && lists == old(lists)
              else
                var r := Inserted(old(lists)[k].contentIds, cid, MaxListItems);
                ok == r.0 && lists == old(lists)[k := old(lists)[k].(contentIds := r.1)]
      ensures old(Valid()) ==> Valid()
    {
      if id <= 0 || cid <= 0 {
        return false;
      }
      var k := IndexOf(ListIds(lists), id);
      if k < 0 {
        return false;
      }
      var items;
      ok, items := Insert(lists[k].contentIds, cid, MaxListItems);
      ghost var before := lists;
      lists := lists[k := lists[k].(contentIds := items)];
      if ListsInvariant(before) {
        assert before[k] in before;
        ItemsKeepSet(before[k], cid);
        ReplaceKeepsInvariant(before, k, lists[k]);
      }
    }

    /** `list_remove_content`: removes the item keeping the others in order;
        an absent item is a failure. */
    method RemoveContent(id: int, cid: int) returns (ok: bool)
      modifies this
      ensures var k := FirstIndex(ListIds(old(lists)), id);
              if id <= 0 || cid <= 0 || k < 0 then !ok && lists == old(lists)
              else
                var r := Removed(old(lists)[k].contentIds, cid);
                ok == r.0 && lists == old(lists)[k := old(lists)[k].(contentIds := r.1)]
      ensures old(Valid()) ==> Valid()
    {
      if id <= 0 || cid <= 0 {
        return false;
      }
      var k := IndexOf(ListIds(lists), id);
      if k < 0 {
        return false;
      }
      var items;
      ok, items := Common.Remove(lists[k].contentIds, cid);
      ghost var before := lists;
      lists := lists[k := lists[k].(contentIds := items)];
      if ListsInvariant(before) {
        assert before[k] in before;
        ItemsKeepSet(before[k], cid);
        ReplaceKeepsInvariant(before, k, lists[k]);
      }
    }

    /** `list_get_by_id`. */
    method GetById(id: int) returns (r: Option<CustomList>)
      ensures r == FindList(lists, id)
    {
      if id <= 0 {
        return None;
      }
      var k := IndexOf(ListIds(lists), id);
      if k < 0 {
        return None;
      }
      return Some(lists[k]);
    }

    /** `list_get_by_user`: ids of the user's lists in store order, at most `max`. */
    method GetByUser(uid: int, max: int) returns (ids: seq<int>)
      ensures uid <= 0 || max <= 0 ==> ids == []
      ensures uid > 0 && max > 0 ==> ids == Take(FilterMap(lists, OwnerMatcher(uid)), max)
    {
      if uid <= 0 || max <= 0 {
        return [];
      }
      ids := CollectCapped(lists, OwnerMatcher(uid), max);
    }

    /** `list_rename`: a NULL or empty name or an unknown list is a failure;
        otherwise only the name changes. */
    method Rename(id: int, name: Option<string>) returns (ok: bool)
      modifies this
      ensures var k := FirstIndex(ListIds(old(lists)), id);
              if id <= 0 || name.None? || name.value == "" || k < 0 then !ok && lists == old(lists)
              else ok && lists == old(lists)[k := old(lists)[k].(name := Truncate(name.value, NameLimit))]
      ensures old(Valid()) ==> Valid()
    {
      if id <= 0 || name.None? || name.value == "" {
        return false;
      }
      var k := IndexOf(ListIds(lists), id);
      if k < 0 {
        return false;
      }
      ghost var before := lists;
      lists := lists[k := lists[k].(name := Truncate(name.value, NameLimit))];
      ok := true;
      if ListsInvariant(before) {
        assert before[k] in before;
        ReplaceKeepsInvariant(before, k, lists[k]);
      }
    }
  }
}
