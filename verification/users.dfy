/** The user manager: user records with a bounded favourites set, and the
    shared interaction log that every user's counter mirrors. */
module Users {
  import opened Common

  /** Characters kept by the username buffer (MAX_USERNAME_LENGTH - 1). */
  const UsernameLimit := 49
  /** Characters of a type string looked at when parsing (MAX_INTERACTION_TYPE_LENGTH - 1). */
  const TypeNameLimit := 19
  /** Capacity of a user's favourites array. */
  const MaxFavorites := 100

  datatype InteractionType = Play | Pause | Complete | Favorite

  datatype Interaction = Interaction(userId: int, contentId: int, kind: InteractionType, timestamp: int)

  datatype User = User(id: int, username: string, favorites: seq<int>, interactionCount: int)

  // ---------------------------------------------------------------------------
  // Interaction types as text

  function TypeName(t: InteractionType): (name: string)
    ensures 4 <= |name| <= 8
  {
    match t
    case Play => "PLAY"
    case Pause => "PAUSE"
    case Complete => "COMPLETE"
    case Favorite => "FAVORITE"
  }

  /** `user_interaction_type_to_string` into a buffer of `size` bytes. */
  function TypeToString(t: InteractionType, size: int): (r: string)
    requires size >= 1
    ensures |r| < size
    ensures size > |TypeName(t)| ==> r == TypeName(t)
  {
    Truncate(TypeName(t), size - 1)
  }

  /** `user_interaction_type_from_string`: the upper-cased text (at most 19
      characters of it) against the four names; NULL and anything else is PLAY. */
  function TypeFromString(s: Option<string>): (t: InteractionType)
    ensures s.None? ==> t == Play
    ensures s.Some? ==> t == Play || Upper(s.value) == TypeName(t)
  {
    if s.None? then Play
    else
      var u := Upper(Truncate(s.value, TypeNameLimit));
      assert |s.value| <= TypeNameLimit ==> u == Upper(s.value);
      if u == "PLAY" then Play
      else if u == "PAUSE" then Pause
      else if u == "COMPLETE" then Complete
      else if u == "FAVORITE" then Favorite
      else Play
  }

  /** Every type survives being written (into the 20-byte buffer the log
      writer uses) and read back. */
  lemma TypeRoundTrip(t: InteractionType)
    ensures TypeFromString(Some(TypeToString(t, TypeNameLimit + 1))) == t
  {
    var s := TypeName(t);
    assert Truncate(s, TypeNameLimit) == s;
    assert Upper(s) == s;
  }

  /** Parsing ignores case: any spelling of a name reads as that name. */
  lemma TypeParseIgnoresCase(s: string)
    ensures TypeFromString(Some(Lower(s))) == TypeFromString(Some(s))
    ensures TypeFromString(Some(Upper(s))) == TypeFromString(Some(s))
  {
    var p := Truncate(s, TypeNameLimit);
    assert Truncate(Lower(s), TypeNameLimit) == Lower(p);
    assert Truncate(Upper(s), TypeNameLimit) == Upper(p);
    assert Upper(Lower(p)) == Upper(p);
    assert Upper(Upper(p)) == Upper(p);
  }

  lemma TypeParseExamples()
    ensures TypeFromString(Some("complete")) == Complete
    ensures TypeFromString(Some("Favorite")) == Favorite
    ensures TypeFromString(Some("stop")) == Play
  {
    assert Upper("complete") == "COMPLETE";
    assert Upper("Favorite") == "FAVORITE";
    assert Upper("stop") == "STOP";
  }

  // ---------------------------------------------------------------------------
  // Specification functions over the two arrays

  function UserIds(users: seq<User>): (ids: seq<int>)
    ensures |ids| == |users| && forall i :: 0 <= i < |users| ==> ids[i] == users[i].id
  {
    MapSeq(users, (u: User) => u.id)
  }

  function Usernames(users: seq<User>): (names: seq<string>)
    ensures |names| == |users| && forall i :: 0 <= i < |users| ==> names[i] == users[i].username
  {
    MapSeq(users, (u: User) => u.username)
  }

  /** `user_get_by_id`: the first user with that id; nothing for a
      non-positive or unknown id. */
  function FindUser(users: seq<User>, id: int): (r: Option<User>)
    ensures r.Some? <==> id > 0 && id in UserIds(users)
    ensures r.Some? ==> r.value in users && r.value.id == id
  {
    var k := FirstIndex(UserIds(users), id);
    if id <= 0 || k < 0 then None else Some(users[k])
  }

  /** `user_get_by_username`: the first user whose stored name equals the
      given one exactly. */
  function FindByName(users: seq<User>, name: Option<string>): (r: Option<User>)
    ensures r.Some? <==> name.Some? && name.value in Usernames(users)
    ensures r.Some? ==> r.value in users && r.value.username == name.value
  {
    if name.None? then None
    else
      var k := FirstIndex(Usernames(users), name.value);
      if k < 0 then None else Some(users[k])
  }

  /** Number of log entries of one user. */
  function CountFor(log: seq<Interaction>, uid: int): (n: nat)
    ensures n <= |log|
    ensures n == 0 <==> forall e :: e in log ==> e.userId != uid
  {
    if log == [] then 0
    else
      var p := log[..|log| - 1];
      assert log == p + [log[|log| - 1]];
      CountFor(p, uid) + (if log[|log| - 1].userId == uid then 1 else 0)
  }

  lemma {:induction false} CountForAppend(a: seq<Interaction>, b: seq<Interaction>, uid: int)
    ensures CountFor(a + b, uid) == CountFor(a, uid) + CountFor(b, uid)
  {
    if b != [] {
      var p := b[..|b| - 1];
      assert a + b == (a + p) + [b[|b| - 1]];
      assert (a + b)[..|a + b| - 1] == a + p;
      CountForAppend(a, p, uid);
    } else {
      assert a + b == a;
    }
  }

  /** The name check `user_add` performs, as written: the FULL given name
      against the stored (already truncated) names. */
  predicate NameTakenAsWritten(users: seq<User>, name: string)
  {
    name in Usernames(users)
  }

  /** The name check that keeps stored names unique: the name as it would be
      stored against the stored names. */
  predicate NameTaken(users: seq<User>, name: string)
  {
    Truncate(name, UsernameLimit) in Usernames(users)
  }

  predicate NamesDistinct(users: seq<User>)
  {
    forall i, j :: 0 <= i < j < |users| ==> users[i].username != users[j].username
  }

  /** A user record as the operations below leave it. */
  predicate UserWellFormed(u: User)
  {
    u.id > 0 && 0 < |u.username| <= UsernameLimit &&
    Distinct(u.favorites) && |u.favorites| <= MaxFavorites &&
    (forall f :: f in u.favorites ==> f > 0)
  }

  /** Ids are unique, every log entry belongs to a user, and each user's
      counter equals that user's number of log entries. Unique names are not
      part of it: the name check as written does not keep them unique (see
      `LongNameDuplicatesAsWritten`). */
  predicate Consistent(users: seq<User>, log: seq<Interaction>)
  {
    Distinct(UserIds(users)) &&
    (forall u :: u in users ==> UserWellFormed(u) && u.interactionCount == CountFor(log, u.id)) &&
    (forall e :: e in log ==> e.userId in UserIds(users))
  }

  // ---------------------------------------------------------------------------
  // Findings about the name check

  /** As written, a name longer than the buffer is accepted next to the
      stored name it truncates to, and two users end up with one name. */
  lemma LongNameDuplicatesAsWritten()
    ensures var stored := seq(UsernameLimit, _ => 'a');
            var given := seq(UsernameLimit + 1, _ => 'a');
            var users := [User(1, stored, [], 0)];
            !NameTakenAsWritten(users, given) &&
            !NamesDistinct(users + [User(2, Truncate(given, UsernameLimit), [], 0)])
  {
    var stored := seq(UsernameLimit, _ => 'a');
    var given := seq(UsernameLimit + 1, _ => 'a');
    var users := [User(1, stored, [], 0)];
    assert |given| != |stored|;
    assert Usernames(users) == [stored];
    assert Truncate(given, UsernameLimit) == stored by {
      assert forall i :: 0 <= i < UsernameLimit ==> Truncate(given, UsernameLimit)[i] == stored[i];
    }
    var users' := users + [User(2, Truncate(given, UsernameLimit), [], 0)];
    assert users'[0].username == users'[1].username;
  }

  /** As written, the check keeps stored names unique for every name that
      fits the buffer, since such a name is stored whole. */
  lemma AddAsWrittenKeepsNamesDistinct(users: seq<User>, name: string, id: int)
    requires NamesDistinct(users) && !NameTakenAsWritten(users, name) && |name| <= UsernameLimit
    ensures NamesDistinct(users + [User(id, Truncate(name, UsernameLimit), [], 0)])
  {
    assert Truncate(name, UsernameLimit) == name;
    AddKeepsNamesDistinct(users, name, id);
  }

  /** With the corrected check, adding a user keeps stored names unique. */
  lemma AddKeepsNamesDistinct(users: seq<User>, name: string, id: int)
    requires NamesDistinct(users) && !NameTaken(users, name)
    ensures NamesDistinct(users + [User(id, Truncate(name, UsernameLimit), [], 0)])
  {
    var users' := users + [User(id, Truncate(name, UsernameLimit), [], 0)];
    forall i, j | 0 <= i < j < |users'| ensures users'[i].username != users'[j].username {
      if j == |users| {
        assert Usernames(users)[i] == users[i].username;
      }
    }
  }

  // ---------------------------------------------------------------------------
  // The store

  class UserManager {
    var users: seq<User>
    var log: seq<Interaction>

    ghost predicate Valid()
      reads this
    {
      Consistent(users, log)
    }

    /** `user_init_manager`: no users, empty log. */
    constructor ()
      ensures users == [] && log == [] && Valid()
    {
      users := [];
      log := [];
    }

    /** `user_add`: rejects a NULL or empty name, and a name equal to a
        stored one (the full given name against the stored, truncated names);
        otherwise appends a user with the next id, the name cut to 49
        characters, no favourites and no interactions. */
    method AddUser(name: Option<string>) returns (id: int)
      modifies this
      ensures log == old(log)
      ensures name.None? || name.value == "" || NameTakenAsWritten(old(users), name.value) ==>
                id == -1 && users == old(users)
      ensures name.Some? && name.value != "" && !NameTakenAsWritten(old(users), name.value) ==>
                id == NextIdOf(UserIds(old(users))) &&
                users == old(users) + [User(id, Truncate(name.value, UsernameLimit), [], 0)]
      ensures old(Valid()) ==> Valid()
      ensures old(NamesDistinct(users)) && (name.Some? ==> |name.value| <= UsernameLimit) ==>
                NamesDistinct(users)
    {
      if name.None? || name.value == "" {
        return -1;
      }
      var k := IndexOf(Usernames(users), name.value);
      if k >= 0 {
        return -1;
      }
      id := NextId(UserIds(users));
      ghost var before := users;
      users := users + [User(id, Truncate(name.value, UsernameLimit), [], 0)];
      if Consistent(before, log) {
        AddUserKeepsConsistent(before, log, name.value, id);
      }
      if NamesDistinct(before) && |name.value| <= UsernameLimit {
        AddAsWrittenKeepsNamesDistinct(before, name.value, id);
      }
    }

    /** `user_add` with the corrected name check: the name as it will be
        stored against the stored names, so stored names stay unique. */
    method AddUserUnique(name: Option<string>) returns (id: int)
      modifies this
      ensures log == old(log)
      ensures name.None? || name.value == "" || NameTaken(old(users), name.value) ==>
                id == -1 && users == old(users)
      ensures name.Some? && name.value != "" && !NameTaken(old(users), name.value) ==>
                id == NextIdOf(UserIds(old(users))) &&
                users == old(users) + [User(id, Truncate(name.value, UsernameLimit), [], 0)]
      ensures old(Valid()) ==> Valid()
      ensures old(NamesDistinct(users)) ==> NamesDistinct(users)
    {
      if name.None? || name.value == "" {
        return -1;
      }
      var k := IndexOf(Usernames(users), Truncate(name.value, UsernameLimit));
      if k >= 0 {
        return -1;
      }
      id := NextId(UserIds(users));
      ghost var before := users;
      users := users + [User(id, Truncate(name.value, UsernameLimit), [], 0)];
      if Consistent(before, log) {
        AddUserKeepsConsistent(before, log, name.value, id);
      }
      if NamesDistinct(before) {
        AddKeepsNamesDistinct(before, name.value, id);
      }
    }

    /** `user_remove`: drops every log entry of the user by moving the last
        entry into its slot (`SwapPurged`, which reorders the log), then
        deletes the user record keeping the others in order. */
    method RemoveUser(uid: int) returns (ok: bool)
      modifies this
      ensures var k := FirstIndex(UserIds(old(users)), uid);
              if uid <= 0 || k < 0 then !ok && users == old(users) && log == old(log)
              else
                ok && users == old(users)[..k] + old(users)[k + 1..] &&
                log == SwapPurged(old(log), uid, 0) &&
                (forall e :: e in log ==> e.userId != uid) &&
                (forall e: Interaction :: e.userId != uid ==> multiset(log)[e] == multiset(old(log))[e])
      ensures forall v :: v != uid ==> CountFor(log, v) == CountFor(old(log), v)
      ensures old(Valid()) ==> Valid()
      ensures old(NamesDistinct(users)) ==> NamesDistinct(users)
    {
      if uid <= 0 {
        return false;
      }
      var k := IndexOf(UserIds(users), uid);
      if k < 0 {
        return false;
      }
      log := PurgeEntries(log, uid);
      ghost var before := users;
      users := RemoveAt(users, k);
      ok := true;
      if Consistent(before, old(log)) {
        RemoveUserKeepsConsistent(before, old(log), log, uid);
      }
      if NamesDistinct(before) {
        RemoveKeepsNamesDistinct(before, k);
      }
    }

    /** `user_register_interaction`: for a known user, appends one log entry
        and bumps that user's counter; a FAVORITE also tries to add the
        content to the favourites (success is reported even when they are
        full). The content id is not checked against any catalogue. */
    method RegisterInteraction(uid: int, cid: int, kind: InteractionType, timestamp: int)
      returns (ok: bool)
      modifies this
      ensures var k := FirstIndex(UserIds(old(users)), uid);
              if uid <= 0 || cid <= 0 || k < 0 then !ok && users == old(users) && log == old(log)
              else
                var u := old(users)[k];
                ok && log == old(log) + [Interaction(uid, cid, kind, timestamp)] &&
                users == old(users)[k := u.(interactionCount := u.interactionCount + 1,
                                           favorites := if kind == Favorite
                                                        then Inserted(u.favorites, cid, MaxFavorites).1
                                                        else u.favorites)]
      ensures old(Valid()) ==> Valid()
    {
      if uid <= 0 || cid <= 0 {
        return false;
      }
      var k := IndexOf(UserIds(users), uid);
      if k < 0 {
        return false;
      }
      ghost var before, beforeLog := users, log;
      var u := users[k];
      var e := Interaction(uid, cid, kind, timestamp);
      log := log + [e];
      u := u.(interactionCount := u.interactionCount + 1);
      if kind == Favorite {
        var _, favorites := Insert(u.favorites, cid, MaxFavorites);
        u := u.(favorites := favorites);
      }
      users := users[k := u];
      ok := true;
      if Consistent(before, beforeLog) {
        RegisterKeepsConsistent(before, beforeLog, k, e, u);
      }
    }

    /** `user_add_favorite`: a content already present is a success with no
        change, a full set of 100 is a failure, otherwise it is appended. */
    method AddFavorite(uid: int, cid: int) returns (ok: bool)
      modifies this
      ensures log == old(log)
      ensures var k := FirstIndex(UserIds(old(users)), uid);
              if uid <= 0 || cid <= 0 || k < 0 then !ok && users == old(users)
              else
                var r := Inserted(old(users)[k].favorites, cid, MaxFavorites);
                ok == r.0 && users == old(users)[k := old(users)[k].(favorites := r.1)]
      ensures old(Valid()) ==> Valid()
    {
      if uid <= 0 || cid <= 0 {
        return false;
      }
      var k := IndexOf(UserIds(users), uid);
      if k < 0 {
        return false;
      }
      var favorites;
      ok, favorites := Insert(users[k].favorites, cid, MaxFavorites);
      ghost var before := users;
      users := users[k := users[k].(favorites := favorites)];
      if Consistent(before, log) {
        InsertKeepsSet(before[k].favorites, cid, MaxFavorites);
        ReplaceUserKeepsConsistent(before, log, k, users[k]);
      }
    }

    /** `user_remove_favorite`: removes the content from the favourites,
        keeping the others in order; absent content is a failure. */
    method RemoveFavorite(uid: int, cid: int) returns (ok: bool)
      modifies this
      ensures log == old(log)
      ensures var k := FirstIndex(UserIds(old(users)), uid);
              if uid <= 0 || cid <= 0 || k < 0 then !ok && users == old(users)
              else
                var r := Removed(old(users)[k].favorites, cid);
                ok == r.0 && users == old(users)[k := old(users)[k].(favorites := r.1)]
      ensures old(Valid()) ==> Valid()
    {
      if uid <= 0 || cid <= 0 {
        return false;
      }
      var k := IndexOf(UserIds(users), uid);
      if k < 0 {
        return false;
      }
      var favorites;
      ok, favorites := Remove(users[k].favorites, cid);
      ghost var before := users;
      users := users[k := users[k].(favorites := favorites)];
      if Consistent(before, log) {
        RemovedKeepsFavorites(before[k], cid);
        ReplaceUserKeepsConsistent(before, log, k, users[k]);
      }
    }

    /** `user_get_by_id`. */
    method GetById(uid: int) returns (r: Option<User>)
      ensures r == FindUser(users, uid)
    {
      if uid <= 0 {
        return None;
      }
      var k := IndexOf(UserIds(users), uid);
      if k < 0 {
        return None;
      }
      return Some(users[k]);
    }

    /** `user_get_by_username`. */
    method GetByUsername(name: Option<string>) returns (r: Option<User>)
      ensures r == FindByName(users, name)
    {
      if name.None? {
        return None;
      }
      var k := IndexOf(Usernames(users), name.value);
      if k < 0 {
        return None;
      }
      return Some(users[k]);
    }

    /** `user_get_interaction_count`: a rescan of the log. */
    method InteractionCount(uid: int) returns (n: int)
      ensures n == if uid <= 0 then 0 else CountFor(log, uid)
    {
      if uid <= 0 {
        return 0;
      }
      n := 0;
      var i := 0;
      while i < |log|
        invariant 0 <= i <= |log|
        invariant n == CountFor(log[..i], uid)
      {
        assert log[..i + 1][..i] == log[..i];
        if log[i].userId == uid {
          n := n + 1;
        }
        i := i + 1;
      }
      assert log[..i] == log;
    }
  }

  // ---------------------------------------------------------------------------
  // Lemmas about the operations

  /** What the cascade in `user_remove` has established once it has looked
      at the first `i` entries of `log` (which started out as `orig`): none of
      them belongs to the user, and every other user's entries are all still
      there, each as often as before. */
  ghost predicate CascadeInv(log: seq<Interaction>, orig: seq<Interaction>, uid: int, i: int)
  {
    0 <= i <= |log| &&
    (forall j :: 0 <= j < i ==> log[j].userId != uid) &&
    (forall e: Interaction :: e.userId != uid ==> multiset(log)[e] == multiset(orig)[e]) &&
    (forall v :: v != uid ==> CountFor(log, v) == CountFor(orig, v))
  }

  /** Moving the last entry into slot `i` and dropping the last slot loses
      exactly entry `i` and keeps the slots before `i`. */
  lemma SwapRemoveMultiset(log: seq<Interaction>, i: nat)
    requires i < |log|
    ensures var r := log[i := log[|log| - 1]][..|log| - 1];
            multiset(r) == multiset(log) - multiset{log[i]} &&
            forall j :: 0 <= j < i ==> r[j] == log[j]
  {
    var n := |log|;
    var r := log[i := log[n - 1]][..n - 1];
    var swapped := log[i := log[n - 1]][n - 1 := log[i]];
    SwapPermutes(log, i, n - 1);
    assert swapped == r + [log[i]];
    assert multiset(swapped) == multiset(r) + multiset{log[i]};
  }

  lemma CountForSplit(a: seq<Interaction>, x: Interaction, b: seq<Interaction>, uid: int)
    ensures CountFor(a + [x] + b, uid) == CountFor(a, uid) + CountFor([x], uid) + CountFor(b, uid)
  {
    CountForAppend(a + [x], b, uid);
    CountForAppend(a, [x], uid);
  }

  /** The same step, counted per user. */
  lemma SwapRemoveCount(log: seq<Interaction>, i: nat, v: int)
    requires i < |log|
    ensures CountFor(log[i := log[|log| - 1]][..|log| - 1], v) ==
            CountFor(log, v) - (if log[i].userId == v then 1 else 0)
  {
    var n := |log|;
    var r := log[i := log[n - 1]][..n - 1];
    assert CountFor([log[i]], v) == if log[i].userId == v then 1 else 0 by {
      assert [log[i]][..0] == [];
    }
    if i == n - 1 {
      assert log == r + [log[i]];
      CountForAppend(r, [log[i]], v);
    } else {
      var a, b := log[..i], log[i + 1..n - 1];
      assert log == a + [log[i]] + (b + [log[n - 1]]);
      assert r == a + [log[n - 1]] + b;
      CountForSplit(a, log[i], b + [log[n - 1]], v);
      CountForSplit(a, log[n - 1], b, v);
      CountForAppend(b, [log[n - 1]], v);
    }
  }

  /** One step of the cascade keeps its invariant without advancing `i`. */
  lemma CascadeStep(log: seq<Interaction>, orig: seq<Interaction>, uid: int, i: nat)
    requires CascadeInv(log, orig, uid, i) && i < |log| && log[i].userId == uid
    ensures CascadeInv(log[i := log[|log| - 1]][..|log| - 1], orig, uid, i)
  {
    SwapRemoveMultiset(log, i);
    forall v | v != uid
      ensures CountFor(log[i := log[|log| - 1]][..|log| - 1], v) == CountFor(orig, v)
    {
      SwapRemoveCount(log, i, v);
    }
  }

  /** When the cascade ends, no entry of the user is left and every entry
      left was in the original log. */
  lemma CascadeDone(log: seq<Interaction>, orig: seq<Interaction>, uid: int)
    requires CascadeInv(log, orig, uid, |log|)
    ensures forall e :: e in log ==> e.userId != uid && e in orig
  {
    forall e | e in log ensures e.userId != uid && e in orig {
      var j :| 0 <= j < |log| && log[j] == e;
      assert multiset(log)[e] > 0;
    }
  }

  /** The log the cascade of `user_remove` leaves, from slot `i` on: an
      entry of the user is overwritten by the last entry and the log shrinks
      by one, without advancing; any other entry is kept and passed. The
      slots before `i` are never touched. */
  function SwapPurged(log: seq<Interaction>, uid: int, i: nat): (r: seq<Interaction>)
    requires i <= |log|
    ensures i <= |r| <= |log| && r[..i] == log[..i]
    ensures forall j :: i <= j < |r| ==> r[j].userId != uid
    decreases |log| - i
  {
    if i == |log| then log
    else if log[i].userId == uid then SwapPurged(log[i := log[|log| - 1]][..|log| - 1], uid, i)
    else SwapPurged(log, uid, i + 1)
  }

  lemma {:induction false} SwapPurgedCascade(log: seq<Interaction>, orig: seq<Interaction>, uid: int, i: nat)
    requires CascadeInv(log, orig, uid, i)
    ensures var r := SwapPurged(log, uid, i); CascadeInv(r, orig, uid, |r|)
    decreases |log| - i
  {
    if i == |log| {
    } else if log[i].userId == uid {
      CascadeStep(log, orig, uid, i);
      SwapPurgedCascade(log[i := log[|log| - 1]][..|log| - 1], orig, uid, i);
    } else {
      SwapPurgedCascade(log, orig, uid, i + 1);
    }
  }

  /** The purged log holds no entry of the user, and every other entry as
      often as before, so every other user's count is unchanged. */
  lemma PurgedKeepsOthers(log: seq<Interaction>, uid: int)
    ensures var r := SwapPurged(log, uid, 0);
            (forall e :: e in r ==> e.userId != uid && e in log) &&
            (forall e: Interaction :: e.userId != uid ==> multiset(r)[e] == multiset(log)[e]) &&
            (forall v :: v != uid ==> CountFor(r, v) == CountFor(log, v))
  {
    assert CascadeInv(log, log, uid, 0);
    SwapPurgedCascade(log, log, uid, 0);
    CascadeDone(SwapPurged(log, uid, 0), log, uid);
  }

  /** The cascade does not keep the log order: purging the first of three
      entries moves the last one to the front. */
  lemma PurgeReordersLog()
    ensures var a := Interaction(1, 10, Play, 0);
            var b := Interaction(2, 20, Play, 0);
            var c := Interaction(3, 30, Play, 0);
            SwapPurged([a, b, c], 1, 0) == [c, b]
  {
    var a := Interaction(1, 10, Play, 0);
    var b := Interaction(2, 20, Play, 0);
    var c := Interaction(3, 30, Play, 0);
    assert [a, b, c][0 := c][..2] == [c, b];
    assert SwapPurged([a, b, c], 1, 0) == SwapPurged([c, b], 1, 0);
    assert SwapPurged([c, b], 1, 0) == SwapPurged([c, b], 1, 1) == SwapPurged([c, b], 1, 2);
  }

  /** The cascade loop of `user_remove`: it computes `SwapPurged`. */
  method PurgeEntries(log: seq<Interaction>, uid: int) returns (r: seq<Interaction>)
    ensures r == SwapPurged(log, uid, 0)
    ensures forall e :: e in r ==> e.userId != uid && e in log
    ensures forall e: Interaction :: e.userId != uid ==> multiset(r)[e] == multiset(log)[e]
    ensures forall v :: v != uid ==> CountFor(r, v) == CountFor(log, v)
  {
    r := log;
    var i := 0;
    while i < |r|
      invariant 0 <= i <= |r|
      invariant SwapPurged(r, uid, i) == SwapPurged(log, uid, 0)
      decreases |r| - i
    {
      if r[i].userId == uid {
        r := r[i := r[|r| - 1]][..|r| - 1];
      } else {
        i := i + 1;
      }
    }
    PurgedKeepsOthers(log, uid);
  }

  /** A new user has no log entries yet, so its zero counter is consistent. */
  lemma AddUserKeepsConsistent(users: seq<User>, log: seq<Interaction>, name: string, id: int)
    requires Consistent(users, log) && name != ""
    requires id == NextIdOf(UserIds(users))
    ensures Consistent(users + [User(id, Truncate(name, UsernameLimit), [], 0)], log)
  {
    var u := User(id, Truncate(name, UsernameLimit), [], 0);
    var users' := users + [u];
    assert UserIds(users') == UserIds(users) + [id];
    forall e | e in log ensures e.userId != id {
      assert e.userId in UserIds(users);
    }
    assert CountFor(log, id) == 0;
    forall i, j | 0 <= i < j < |users'| ensures UserIds(users')[i] != UserIds(users')[j] {
      if j == |users| { assert UserIds(users')[i] == UserIds(users)[i]; }
    }
    forall e | e in log ensures e.userId in UserIds(users') {
      assert e.userId in UserIds(users);
    }
  }

  /** Replacing user `k` by a well-formed record with the same id, name and
      counter (a favourites change) keeps the manager consistent. */
  lemma ReplaceUserKeepsConsistent(users: seq<User>, log: seq<Interaction>, k: nat, u: User)
    requires Consistent(users, log) && k < |users|
    requires u.id == users[k].id && u.username == users[k].username
    requires u.interactionCount == users[k].interactionCount && UserWellFormed(u)
    ensures Consistent(users[k := u], log)
  {
    var users' := users[k := u];
    assert UserIds(users') == UserIds(users);
    forall w | w in users' ensures UserWellFormed(w) && w.interactionCount == CountFor(log, w.id) {
      var i :| 0 <= i < |users'| && users'[i] == w;
      if i != k { assert users[i] in users; } else { assert users[k] in users; }
    }
  }

  /** Favourites stay a well-formed set after a removal. */
  lemma RemovedKeepsFavorites(u: User, cid: int)
    requires UserWellFormed(u)
    ensures UserWellFormed(u.(favorites := Removed(u.favorites, cid).1))
  {
    var r := Removed(u.favorites, cid).1;
    if cid in u.favorites {
      RemovedKeepsSet(u.favorites, cid);
      forall f | f in r ensures f > 0 {
        assert f in multiset(r);
        assert f in multiset(u.favorites);
        assert f in u.favorites;
      }
    }
  }

  /** Appending one entry for user `k` and bumping that user's counter keeps
      every counter equal to its rescan. */
  lemma RegisterKeepsConsistent(users: seq<User>, log: seq<Interaction>, k: nat, e: Interaction, u: User)
    requires Consistent(users, log) && k < |users|
    requires e.userId == users[k].id && e.contentId > 0
    requires u.id == users[k].id && u.username == users[k].username
    requires u.interactionCount == users[k].interactionCount + 1
    requires u.favorites == users[k].favorites ||
             u.favorites == Inserted(users[k].favorites, e.contentId, MaxFavorites).1
    ensures Consistent(users[k := u], log + [e])
  {
    var users' := users[k := u];
    var log' := log + [e];
    assert UserIds(users') == UserIds(users);
    assert users[k] in users;
    InsertKeepsSet(users[k].favorites, e.contentId, MaxFavorites);
    forall v ensures CountFor(log', v) == CountFor(log, v) + (if e.userId == v then 1 else 0) {
      CountForAppend(log, [e], v);
    }
    forall w | w in users' ensures UserWellFormed(w) && w.interactionCount == CountFor(log', w.id) {
      var i :| 0 <= i < |users'| && users'[i] == w;
      if i != k {
        assert users[i] in users;
        assert UserIds(users)[i] != UserIds(users)[k];
      }
    }
    forall d | d in log' ensures d.userId in UserIds(users') {
      if d != e { assert d in log; }
    }
  }

  /** After the cascade, ids stay unique, the remaining users' counters still
      match the shrunken log, and no entry refers to the removed user. */
  lemma RemoveUserKeepsConsistent(users: seq<User>, log: seq<Interaction>, log': seq<Interaction>, uid: int)
    requires Consistent(users, log) && uid in UserIds(users)
    requires forall e :: e in log' ==> e.userId != uid && e in log
    requires forall v :: v != uid ==> CountFor(log', v) == CountFor(log, v)
    ensures var k := FirstIndex(UserIds(users), uid);
            Consistent(users[..k] + users[k + 1..], log')
  {
    var ids := UserIds(users);
    var k := FirstIndex(ids, uid);
    var users' := users[..k] + users[k + 1..];
    RemoveKeepsIds(users, k);
    assert Distinct(UserIds(users')) by {
      RemovingFirstOccurrence(ids, uid);
    }
    assert forall e :: e in log' ==> e.userId in UserIds(users') by {
      RemoveKeepsOwners(ids, log, log', uid);
    }
    assert forall u :: u in users' ==> UserWellFormed(u) && u.interactionCount == CountFor(log', u.id) by {
      RemoveKeepsCounters(users, log, log', k);
    }
    assert Consistent(users', log');
  }

  lemma RemoveKeepsIds(users: seq<User>, k: nat)
    requires k < |users|
    ensures UserIds(users[..k] + users[k + 1..]) == UserIds(users)[..k] + UserIds(users)[k + 1..]
  {
  }

  lemma RemoveKeepsOwners(ids: seq<int>, log: seq<Interaction>, log': seq<Interaction>, uid: int)
    requires Distinct(ids) && uid in ids
    requires forall e :: e in log ==> e.userId in ids
    requires forall e :: e in log' ==> e.userId != uid && e in log
    ensures var k := FirstIndex(ids, uid);
            forall e :: e in log' ==> e.userId in ids[..k] + ids[k + 1..]
  {
    var k := FirstIndex(ids, uid);
    forall e | e in log' ensures e.userId in ids[..k] + ids[k + 1..] {
      var j :| 0 <= j < |ids| && ids[j] == e.userId;
      assert j != k;
      if j < k { assert (ids[..k] + ids[k + 1..])[j] == e.userId; }
      else { assert (ids[..k] + ids[k + 1..])[j - 1] == e.userId; }
    }
  }

  lemma RemoveKeepsNamesDistinct(users: seq<User>, k: nat)
    requires NamesDistinct(users) && k < |users|
    ensures NamesDistinct(users[..k] + users[k + 1..])
  {
    var users' := users[..k] + users[k + 1..];
    forall i, j | 0 <= i < j < |users'| ensures users'[i].username != users'[j].username {
      var i0 := if i < k then i else i + 1;
      var j0 := if j < k then j else j + 1;
      assert users'[i] == users[i0] && users'[j] == users[j0];
    }
  }

  lemma RemoveKeepsCounters(users: seq<User>, log: seq<Interaction>, log': seq<Interaction>, k: nat)
    requires k < |users| && Distinct(UserIds(users))
    requires forall u :: u in users ==> UserWellFormed(u) && u.interactionCount == CountFor(log, u.id)
    requires forall v :: v != users[k].id ==> CountFor(log', v) == CountFor(log, v)
    ensures forall u :: u in users[..k] + users[k + 1..] ==>
              UserWellFormed(u) && u.interactionCount == CountFor(log', u.id)
  {
    var users' := users[..k] + users[k + 1..];
    forall w | w in users' ensures UserWellFormed(w) && w.interactionCount == CountFor(log', w.id) {
      var i :| 0 <= i < |users'| && users'[i] == w;
      var i0 := if i < k then i else i + 1;
      assert users'[i] == users[i0] && users[i0] in users;
      assert UserIds(users)[i0] != UserIds(users)[k];
    }
  }
}
