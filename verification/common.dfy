/** Building blocks shared by the Streamflix stores: the NULL-or-value wrapper,
    bounded C string copies, ASCII case mapping, the "max id + 1" allocation
    rule, the left shift that compacts an array after a removal, the bounded
    ordered id set used for favourites and custom lists, and the ordering that
    every descending sort of the system promises. */
module Common {

  /** A C reference that may be NULL. */
  datatype Option<T> = None | Some(value: T)

  function Min(a: int, b: int): int { if a < b then a else b }

  /** The first `n` elements, or all of them when there are fewer; nothing for n <= 0. */
  function Take<T>(s: seq<T>, n: int): (r: seq<T>)
    ensures |r| == if n <= 0 then 0 else Min(n, |s|)
    ensures r == s[..|r|]
  {
    if n <= 0 then [] else if n >= |s| then s else s[..n]
  }

  // ---------------------------------------------------------------------------
  // C strings

  /** `strncpy(dst, src, limit)` followed by `dst[limit] = '\0'`: at most `limit` characters survive. */
  function Truncate(s: string, limit: nat): (r: string)
    ensures |r| == Min(|s|, limit)
    ensures r == s[..|r|]
    ensures |s| <= limit ==> r == s
  {
    if |s| <= limit then s else s[..limit]
  }

  /** `tolower` in the C locale: only 'A'..'Z' change. */
  function ToLower(c: char): (r: char)
    ensures 'A' <= c <= 'Z' ==> 'a' <= r <= 'z'
    ensures !('A' <= c <= 'Z') ==> r == c
  {
    if 'A' <= c <= 'Z' then (c as int + 32) as char else c
  }

  /** `toupper` in the C locale: only 'a'..'z' change. */
  function ToUpper(c: char): (r: char)
    ensures 'a' <= c <= 'z' ==> 'A' <= r <= 'Z'
    ensures !('a' <= c <= 'z') ==> r == c
  {
    if 'a' <= c <= 'z' then (c as int - 32) as char else c
  }

  function Lower(s: string): (r: string)
    ensures |r| == |s| && forall i :: 0 <= i < |s| ==> r[i] == ToLower(s[i])
  {
    seq(|s|, i requires 0 <= i < |s| => ToLower(s[i]))
  }

  function Upper(s: string): (r: string)
    ensures |r| == |s| && forall i :: 0 <= i < |s| ==> r[i] == ToUpper(s[i])
  {
    seq(|s|, i requires 0 <= i < |s| => ToUpper(s[i]))
  }

  /** `needle` occurs in `hay` starting at offset `i`. */
  predicate OccursAt(hay: string, needle: string, i: int)
  {
    0 <= i && i + |needle| <= |hay| && hay[i..i + |needle|] == needle
  }

  /** `strstr(hay, needle) != NULL`: `needle` occurs in `hay` at some offset. */
  predicate Contains(hay: string, needle: string)
  {
    exists i :: 0 <= i <= |hay| && OccursAt(hay, needle, i)
  }

  /** The empty string occurs in every string, so an empty query matches everything. */
  lemma EmptyNeedleOccurs(hay: string)
    ensures Contains(hay, "")
  {
    assert OccursAt(hay, "", 0);
  }

  // ---------------------------------------------------------------------------
  // Identifier allocation

  /** The id every store hands out next: the scan starts at 1 and moves past
      each id it meets, so the result is one more than the largest id (and 1
      when no id is positive). */
  function NextIdOf(ids: seq<int>): (r: int)
    ensures r >= 1
    ensures forall i :: 0 <= i < |ids| ==> ids[i] < r
    ensures r == 1 || r - 1 in ids
  {
    if ids == [] then 1
    else
      var p := NextIdOf(ids[..|ids| - 1]);
      var last := ids[|ids| - 1];
      assert ids == ids[..|ids| - 1] + [last];
      if last >= p then last + 1 else p
  }

  /** The allocation scan of `content_add`, `user_add` and `list_create`. */
  method NextId(ids: seq<int>) returns (next: int)
    ensures next == NextIdOf(ids)
  {
    next := 1;
    var i := 0;
    while i < |ids|
      invariant 0 <= i <= |ids|
      invariant next == NextIdOf(ids[..i])
    {
      assert ids[..i + 1][..i] == ids[..i];
      if ids[i] >= next {
        next := ids[i] + 1;
      }
      i := i + 1;
    }
    assert ids[..i] == ids;
  }

  /** Removing the record that holds the largest id never makes the next id grow. */
  lemma {:induction false} NextIdAfterRemovingMax(ids: seq<int>, k: nat)
    requires Distinct(ids) && k < |ids| && ids[k] == NextIdOf(ids) - 1 && ids[k] >= 1
    ensures NextIdOf(ids[..k] + ids[k + 1..]) <= ids[k]
  {
    var rest := ids[..k] + ids[k + 1..];
    var r := NextIdOf(rest);
    OthersBelowMax(ids, k, rest);
    if r != 1 {
      var j :| 0 <= j < |rest| && rest[j] == r - 1;
    }
  }

  /** The freed largest id is handed out again when its predecessor is still
      in use (in particular when the ids are 1..n) or when it was 1. */
  lemma {:induction false} FreedMaxIdReused(ids: seq<int>, k: nat)
    requires Distinct(ids) && k < |ids| && ids[k] == NextIdOf(ids) - 1 && ids[k] >= 1
    requires ids[k] == 1 || ids[k] - 1 in ids
    ensures NextIdOf(ids[..k] + ids[k + 1..]) == ids[k]
  {
    var rest := ids[..k] + ids[k + 1..];
    NextIdAfterRemovingMax(ids, k);
    if ids[k] != 1 {
      var j :| 0 <= j < |ids| && ids[j] == ids[k] - 1;
      OtherStays(ids, k, j);
      var i :| 0 <= i < |rest| && rest[i] == ids[j];
    }
  }

  lemma OtherStays(ids: seq<int>, k: nat, j: nat)
    requires k < |ids| && j < |ids| && j != k
    ensures ids[j] in ids[..k] + ids[k + 1..]
  {
    if j < k {
      assert ids[j] == ids[..k][j];
    } else {
      assert ids[j] == ids[k + 1..][j - k - 1];
    }
  }

  lemma {:induction false} OthersBelowMax(ids: seq<int>, k: nat, rest: seq<int>)
    requires Distinct(ids) && k < |ids| && ids[k] == NextIdOf(ids) - 1
    requires rest == ids[..k] + ids[k + 1..]
    ensures forall j :: 0 <= j < |rest| ==> rest[j] < ids[k]
  {
    forall j | 0 <= j < |rest| ensures rest[j] < ids[k] {
      var j' := if j < k then j else j + 1;
      assert rest[j] == ids[j'] && j' != k;
    }
  }

  /** The general claim "the freed id comes back" fails once the ids have a gap. */
  lemma FreedMaxIdNotAlwaysReused()
    ensures NextIdOf([1, 5]) == 6 && NextIdOf([1]) == 2
  {
    assert [1, 5][..1] == [1];
    assert [1][..0] == [];
  }

  // ---------------------------------------------------------------------------
  // Searching and compacting

  /** The index of the first `x`, or -1. */
  function FirstIndex<T(==)>(ids: seq<T>, x: T): (k: int)
    ensures -1 <= k < |ids|
    ensures k == -1 <==> x !in ids
    ensures k >= 0 ==> ids[k] == x && x !in ids[..k]
  {
    if ids == [] then -1
    else if ids[0] == x then 0
    else
      var k := FirstIndex(ids[1..], x);
      if k == -1 then -1
      else
        assert ids[..k + 1] == [ids[0]] + ids[1..][..k];
        k + 1
  }

  /** An occurrence with none before it is the first one. */
  lemma {:induction false} FirstIndexAt<T>(ids: seq<T>, x: T, n: nat)
    requires n < |ids| && ids[n] == x && x !in ids[..n]
    ensures FirstIndex(ids, x) == n
  {
    if n > 0 {
      assert ids[..n] == [ids[0]] + ids[1..][..n - 1];
      FirstIndexAt(ids[1..], x, n - 1);
    }
  }

  /** The lookup loop of the stores' get/remove/edit functions. */
  method IndexOf<T(==)>(ids: seq<T>, x: T) returns (k: int)
    ensures k == FirstIndex(ids, x)
  {
    k := 0;
    while k < |ids|
      invariant 0 <= k <= |ids|
      invariant x !in ids[..k]
    {
      if ids[k] == x {
        return;
      }
      assert ids[..k + 1] == ids[..k] + [ids[k]];
      k := k + 1;
    }
    assert ids[..k] == ids;
    k := -1;
  }

  /** The left shift that closes the hole left by a removed element:
      `a[i] = a[i + 1]` for every later slot, then the count drops by one. */
  method RemoveAt<T>(s: seq<T>, k: nat) returns (r: seq<T>)
    requires k < |s|
    ensures r == s[..k] + s[k + 1..]
  {
    var a := s;
    var i := k;
    while i < |s| - 1
      invariant k <= i <= |s| - 1
      invariant |a| == |s|
      invariant forall j :: 0 <= j < k ==> a[j] == s[j]
      invariant forall j :: k <= j < i ==> a[j] == s[j + 1]
      invariant forall j :: i < j < |s| ==> a[j] == s[j]
    {
      a := a[i := a[i + 1]];
      i := i + 1;
    }
    r := a[..|s| - 1];
  }

  /** No id occurs twice. */
  predicate Distinct<T(==)>(ids: seq<T>)
  {
    forall i, j :: 0 <= i < j < |ids| ==> ids[i] != ids[j]
  }

  /** Taking out the first occurrence of `x` from a duplicate-free sequence
      removes `x` altogether and keeps everything else, in order. */
  lemma RemovingFirstOccurrence(ids: seq<int>, x: int)
    requires Distinct(ids) && x in ids
    ensures var k := FirstIndex(ids, x);
            var r := ids[..k] + ids[k + 1..];
            Distinct(r) && x !in r && |r| == |ids| - 1 &&
            multiset(r) == multiset(ids) - multiset{x}
  {
    var k := FirstIndex(ids, x);
    var r := ids[..k] + ids[k + 1..];
    assert ids == ids[..k] + [x] + ids[k + 1..];
    assert multiset(ids) == multiset(ids[..k]) + multiset{x} + multiset(ids[k + 1..]);
    forall i, j | 0 <= i < j < |r| ensures r[i] != r[j] {
      var i' := if i < k then i else i + 1;
      var j' := if j < k then j else j + 1;
      assert r[i] == ids[i'] && r[j] == ids[j'];
    }
    forall i | 0 <= i < |r| ensures r[i] != x {
      var i' := if i < k then i else i + 1;
      assert r[i] == ids[i'] && i' != k;
    }
  }

  // ---------------------------------------------------------------------------
  // Bounded ordered id sets (favourites, custom list items)

  /** Adding to a bounded ordered set: an id already present is a success
      with no change, a full set refuses, otherwise the id goes at the end. */
  function Inserted(s: seq<int>, x: int, capacity: int): (r: (bool, seq<int>))
    ensures x in s ==> r == (true, s)
    ensures x !in s && |s| >= capacity ==> r == (false, s)
    ensures x !in s && |s| < capacity ==> r == (true, s + [x])
  {
    if x in s then (true, s)
    else if |s| >= capacity then (false, s)
    else (true, s + [x])
  }

  /** Adding twice is adding once: a second add of the same id succeeds and changes nothing. */
  lemma InsertIdempotent(s: seq<int>, x: int, capacity: int)
    requires Inserted(s, x, capacity).0
    ensures Inserted(Inserted(s, x, capacity).1, x, capacity) == Inserted(s, x, capacity)
  {
  }

  /** Insertion keeps the set duplicate-free and within its capacity. */
  lemma InsertKeepsSet(s: seq<int>, x: int, capacity: int)
    requires Distinct(s) && |s| <= capacity
    ensures Distinct(Inserted(s, x, capacity).1) && |Inserted(s, x, capacity).1| <= capacity
  {
  }

  /** `user_add_favorite` / `list_add_content`: a duplicate scan, the capacity test, an append. */
  method Insert(s: seq<int>, x: int, capacity: int) returns (ok: bool, r: seq<int>)
    ensures (ok, r) == Inserted(s, x, capacity)
  {
    var k := IndexOf(s, x);
    if k >= 0 {
      return true, s;
    }
    if |s| >= capacity {
      return false, s;
    }
    return true, s + [x];
  }

  /** Taking an id out of a bounded ordered set: absent is a failure, present
      removes its first occurrence and keeps the rest in order. */
  function Removed(s: seq<int>, x: int): (r: (bool, seq<int>))
    ensures x !in s ==> r == (false, s)
    ensures x in s ==> r.0 && |r.1| == |s| - 1
  {
    var k := FirstIndex(s, x);
    if k < 0 then (false, s) else (true, s[..k] + s[k + 1..])
  }

  /** Removal from a duplicate-free set takes out exactly that id. */
  lemma RemovedKeepsSet(s: seq<int>, x: int)
    requires Distinct(s) && x in s
    ensures var r := Removed(s, x).1;
            x !in r && Distinct(r) && multiset(r) == multiset(s) - multiset{x}
  {
    RemovingFirstOccurrence(s, x);
  }

  /** `user_remove_favorite` / `list_remove_content`: a search, then the left shift. */
  method Remove(s: seq<int>, x: int) returns (ok: bool, r: seq<int>)
    ensures (ok, r) == Removed(s, x)
  {
    var k := IndexOf(s, x);
    if k < 0 {
      return false, s;
    }
    r := RemoveAt(s, k);
    ok := true;
  }

  // ---------------------------------------------------------------------------
  // Filtering with a cap

  /** The values `f` keeps, in the order of `s`. */
  function FilterMap<T, U>(s: seq<T>, f: T -> Option<U>): (r: seq<U>)
    ensures |r| <= |s|
  {
    if s == [] then []
    else
      var p := FilterMap(s[..|s| - 1], f);
      match f(s[|s| - 1])
      case Some(u) => p + [u]
      case None => p
  }

  lemma {:induction false} FilterMapAppend<T, U>(a: seq<T>, b: seq<T>, f: T -> Option<U>)
    ensures FilterMap(a + b, f) == FilterMap(a, f) + FilterMap(b, f)
  {
    if b == [] {
      assert a + b == a;
    } else {
      var b' := b[..|b| - 1];
      assert (a + b)[..|a + b| - 1] == a + b';
      FilterMapAppend(a, b', f);
    }
  }

  /** Every kept value comes from some element of `s`, and every element `f`
      keeps contributes its value. */
  lemma {:induction false} FilterMapMembers<T, U>(s: seq<T>, f: T -> Option<U>)
    ensures forall u :: u in FilterMap(s, f) <==> exists i :: 0 <= i < |s| && f(s[i]) == Some(u)
  {
    if s != [] {
      var p := s[..|s| - 1];
      FilterMapMembers(p, f);
      forall u ensures u in FilterMap(s, f) <==> exists i :: 0 <= i < |s| && f(s[i]) == Some(u) {
        if u in FilterMap(s, f) {
          if u in FilterMap(p, f) {
            var i :| 0 <= i < |p| && f(p[i]) == Some(u);
            assert s[i] == p[i];
          } else {
            assert f(s[|s| - 1]) == Some(u);
          }
        } else {
          forall i | 0 <= i < |s| ensures f(s[i]) != Some(u) {
            if i < |p| { assert s[i] == p[i]; }
          }
        }
      }
    }
  }

  /** Scanning one more element keeps what `f` keeps of it. */
  lemma FilterMapNext<T, U>(s: seq<T>, f: T -> Option<U>, i: nat)
    requires i < |s|
    ensures FilterMap(s[..i + 1], f) ==
            FilterMap(s[..i], f) + (if f(s[i]).Some? then [f(s[i]).value] else [])
  {
    assert s[..i + 1][..i] == s[..i];
  }

  /** The scan loop of every search: walk `s` while fewer than `cap` values
      were found, keeping what `f` keeps. */
  method CollectCapped<T, U>(s: seq<T>, f: T -> Option<U>, cap: int) returns (r: seq<U>)
    requires cap > 0
    ensures r == Take(FilterMap(s, f), cap)
  {
    r := [];
    var i := 0;
    while i < |s| && |r| < cap
      invariant 0 <= i <= |s|
      invariant r == FilterMap(s[..i], f)
      invariant |r| <= cap
    {
      FilterMapNext(s, f, i);
      var v := f(s[i]);
      if v.Some? {
        r := r + [v.value];
      }
      i := i + 1;
    }
    CappedScanDone(s, f, cap, i);
  }

  /** A scan that stopped at the end of `s` or at the cap has kept exactly
      the first `cap` values `f` keeps. */
  lemma CappedScanDone<T, U>(s: seq<T>, f: T -> Option<U>, cap: int, i: int)
    requires 0 <= i <= |s| && 0 < cap
    requires |FilterMap(s[..i], f)| <= cap
    requires i == |s| || |FilterMap(s[..i], f)| >= cap
    ensures FilterMap(s[..i], f) == Take(FilterMap(s, f), cap)
  {
    assert s == s[..i] + s[i..];
    FilterMapAppend(s[..i], s[i..], f);
  }

  /** `f` applied to every element. */
  function MapSeq<T, U>(s: seq<T>, f: T -> U): (r: seq<U>)
    ensures |r| == |s| && forall i :: 0 <= i < |s| ==> r[i] == f(s[i])
  {
    seq(|s|, i requires 0 <= i < |s| => f(s[i]))
  }

  /** The copy-out loop closing every ranking: the first `max` elements of
      the sorted buffer, projected. */
  method CopyOut<T, U>(s: seq<T>, f: T -> U, max: int) returns (r: seq<U>)
    requires max > 0
    ensures r == MapSeq(Take(s, max), f)
  {
    r := [];
    var i := 0;
    while i < |s| && |r| < max
      invariant 0 <= i <= |s| && |r| == i && i <= max
      invariant r == MapSeq(s[..i], f)
    {
      r := r + [f(s[i])];
      i := i + 1;
    }
    assert Take(s, max) == s[..i];
  }

  // ---------------------------------------------------------------------------
  // Descending order

  /** Ordered by non-increasing key. */
  ghost predicate NonIncreasing<T>(s: seq<T>, key: T -> real)
  {
    forall i, j :: 0 <= i < j < |s| ==> key(s[i]) >= key(s[j])
  }

  /** `r` is `s` rearranged into non-increasing key order; nothing is said
      about the order of equal keys. */
  ghost predicate IsRanking<T>(r: seq<T>, s: seq<T>, key: T -> real)
  {
    multiset(r) == multiset(s) && NonIncreasing(r, key)
  }

  /** What the model knows of `qsort` with a descending comparator: it
      returns a ranking of its input, with an unspecified order among ties. */
  ghost predicate IsRankSort<T(!new)>(sort: seq<T> -> seq<T>, key: T -> real)
  {
    forall s :: IsRanking(sort(s), s, key)
  }

  /** Any prefix of a ranking holds the largest keys: every element left out
      has a key no larger than every element kept. */
  lemma RankingPrefixIsTop<T>(r: seq<T>, s: seq<T>, key: T -> real, n: int)
    requires IsRanking(r, s, key)
    ensures var top := Take(r, n);
            forall x, i :: x in multiset(s) - multiset(top) && 0 <= i < |top| ==> key(x) <= key(top[i])
  {
    var top := Take(r, n);
    assert r == top + r[|top|..];
    assert multiset(r) == multiset(top) + multiset(r[|top|..]);
    forall x, i | x in multiset(s) - multiset(top) && 0 <= i < |top| ensures key(x) <= key(top[i]) {
      assert x in multiset(r[|top|..]);
      var j :| 0 <= j < |r[|top|..]| && r[|top|..][j] == x;
      assert r[|top| + j] == x;
    }
  }

  lemma HeadIsLargest<T>(s: seq<T>, key: T -> real, x: T)
    requires NonIncreasing(s, key) && x in s
    ensures key(s[0]) >= key(x)
  {
    var i :| 0 <= i < |s| && s[i] == x;
    if i > 0 { assert key(s[0]) >= key(s[i]); }
  }

  /** When no two keys are equal there is exactly one ranking: a ranking of
      elements in strictly decreasing key order is that order itself. */
  lemma {:induction false} RankingUnique<T>(a: seq<T>, b: seq<T>, key: T -> real)
    requires forall i, j :: 0 <= i < j < |a| ==> key(a[i]) > key(a[j])
    requires IsRanking(b, a, key)
    ensures a == b
  {
    if a != [] {
      SameHead(a, b, key);
      TailsPermuted(a, b);
      assert NonIncreasing(b[1..], key) by {
        forall i, j | 0 <= i < j < |b[1..]| ensures key(b[1..][i]) >= key(b[1..][j]) {
          assert b[1..][i] == b[i + 1] && b[1..][j] == b[j + 1];
        }
      }
      RankingUnique(a[1..], b[1..], key);
    }
  }

  /** A ranking of a strictly decreasing sequence starts with its head. */
  lemma SameHead<T>(a: seq<T>, b: seq<T>, key: T -> real)
    requires a != [] && forall i, j :: 0 <= i < j < |a| ==> key(a[i]) > key(a[j])
    requires IsRanking(b, a, key)
    ensures b != [] && b[0] == a[0]
  {
    assert |b| == |a| by { assert |multiset(a)| == |multiset(b)|; }
    assert a[0] in multiset(b);
    assert b[0] in multiset(a);
    HeadIsLargest(b, key, a[0]);
    var j :| 0 <= j < |a| && a[j] == b[0];
    assert j == 0;
  }

  /** Two permutations with the same head have permuted tails. */
  lemma TailsPermuted<T>(a: seq<T>, b: seq<T>)
    requires a != [] && b != [] && a[0] == b[0] && multiset(a) == multiset(b)
    ensures multiset(a[1..]) == multiset(b[1..])
  {
    assert a == [a[0]] + a[1..] && b == [b[0]] + b[1..];
    assert multiset(a[1..]) == multiset(a) - multiset{a[0]};
    assert multiset(b[1..]) == multiset(b) - multiset{b[0]};
  }

  /** A prefix of a ranking holds only elements of the ranked input, and a
      ranking is as long as its input. */
  lemma RankingPrefixFrom<T>(r: seq<T>, s: seq<T>, key: T -> real, n: int)
    requires IsRanking(r, s, key)
    ensures |r| == |s|
    ensures forall x :: x in Take(r, n) ==> x in s
  {
    assert |multiset(r)| == |multiset(s)|;
    forall x | x in Take(r, n) ensures x in s {
      assert x in multiset(r);
    }
  }

  /** Exchanging two positions keeps the elements. */
  lemma SwapPermutes<T>(s: seq<T>, i: nat, j: nat)
    requires i < |s| && j < |s|
    ensures multiset(s[i := s[j]][j := s[i]]) == multiset(s)
  {
  }

  /** In a sequence without repetitions every element occurs at most once. */
  lemma {:induction false} DistinctCounts<T>(s: seq<T>)
    requires Distinct(s)
    ensures forall e :: multiset(s)[e] <= 1
  {
    if s != [] {
      var q := s[..|s| - 1];
      var last := s[|s| - 1];
      assert s == q + [last];
      DistinctCounts(q);
      assert last !in q;
    }
  }

  /** A sequence in which every element occurs at most once has no repetitions. */
  lemma {:induction false} CountsDistinct<T>(s: seq<T>)
    requires forall e :: multiset(s)[e] <= 1
    ensures Distinct(s)
  {
    if s != [] {
      var q := s[..|s| - 1];
      var last := s[|s| - 1];
      assert s == q + [last];
      assert multiset(s) == multiset(q) + multiset{last};
      assert forall e :: multiset(q)[e] <= multiset(s)[e];
      CountsDistinct(q);
      assert multiset(q)[last] == 0;
      forall i, j | 0 <= i < j < |s| ensures s[i] != s[j] {
        if j < |q| {
          assert s[i] == q[i] && s[j] == q[j];
        } else {
          assert s[i] in q;
        }
      }
    }
  }

  /** Rearranging keeps a sequence free of repetitions. */
  lemma PermutationDistinct<T>(r: seq<T>, s: seq<T>)
    requires multiset(r) == multiset(s) && Distinct(s)
    ensures Distinct(r)
  {
    DistinctCounts(s);
    CountsDistinct(r);
  }
}
