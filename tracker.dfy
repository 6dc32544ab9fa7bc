/** The IP identity tracker of main.go: a table from an observed egress IP to
    the session identifiers currently reporting it, shared by all sessions. */
module Tracking {
  import opened Seqs

  /** IP -> session identifiers, in registration order. */
  type Table = map<string, seq<string>>

  /** The list under `ip`; Go's map read yields the nil slice for a missing key. */
  function Lookup(m: Table, ip: string): seq<string>
  {
    if ip in m then m[ip] else []
  }

  /** `append(ids[:i], ids[i+1:]...)` at the first occurrence `i` of `id`,
      or `ids` itself when `id` does not occur. */
  function RemoveFirst(ids: seq<string>, id: string): (r: seq<string>)
    ensures id in ids ==> |r| == |ids| - 1
    ensures id !in ids ==> r == ids
  {
    if id in ids then
      var i := IndexOf(ids, id);
      ids[..i] + ids[i + 1..]
    else
      ids
  }

  /** The table once the removal pass of `registerIP` has visited the keys in
      `done`: each visited list loses its first `id`, and a list that this
      leaves empty (it was exactly `[id]`) is deleted. */
  function StrippedOn(m: Table, id: string, done: set<string>): Table
  {
    map k | k in m && !(k in done && m[k] == [id]) ::
      if k in done then RemoveFirst(m[k], id) else m[k]
  }

  /** The whole removal pass: every key visited. */
  function Stripped(m: Table, id: string): Table
  {
    StrippedOn(m, id, m.Keys)
  }

  /** `registerIP(ip, id)`: the removal pass, then `id` appended under `ip`.
      Afterwards `id` is the last entry of the list under `ip`. */
  function Registered(m: Table, ip: string, id: string): (r: Table)
    ensures ip in r && |r[ip]| >= 1 && r[ip][|r[ip]| - 1] == id
  {
    var s := Stripped(m, id);
    s[ip := Lookup(s, ip) + [id]]
  }

  /** The table invariant: no list is empty, and every identifier appears at
      most once in all the lists together. */
  predicate TableInv(m: Table)
  {
    && (forall ip :: ip in m ==> m[ip] != [] && NoDup(m[ip]))
    && (forall ip1, ip2, x :: ip1 in m && ip2 in m && ip1 != ip2 && x in m[ip1] ==> x !in m[ip2])
  }

  /** `isDuplicate(ip, id)`: the list under `ip` holds an identifier other than `id`. */
  predicate Duplicate(m: Table, ip: string, id: string)
  {
    ip in m && exists j :: 0 <= j < |m[ip]| && m[ip][j] != id
  }

  class IPTracker {
    var ipToIDs: Table

    ghost predicate Valid()
      reads this
    {
      TableInv(ipToIDs)
    }

    /** `&IPTracker{ipToIDs: make(map[string][]string)}`. */
    constructor ()
      ensures ipToIDs == map[] && Valid()
    {
      ipToIDs := map[];
    }

    /** Moves `sessionID` to `ip`: one pass over the table removes it from
        every list (deleting lists that become empty), then it is appended
        under `ip`. The pass visits the keys in an unspecified order, as Go's
        map iteration does; the result does not depend on it. */
    method RegisterIP(ip: string, sessionID: string)
      modifies this
      ensures ipToIDs == Registered(old(ipToIDs), ip, sessionID)
      ensures old(Valid()) ==> Valid()
    {
      ghost var m0 := ipToIDs;
      var pending := ipToIDs.Keys;
      while pending != {}
        invariant pending <= m0.Keys
        invariant ipToIDs == StrippedOn(m0, sessionID, m0.Keys - pending)
        decreases pending
      {
        var existingIP :| existingIP in pending;
        ghost var done := m0.Keys - pending;
        pending := pending - {existingIP};
        assert m0.Keys - pending == done + {existingIP};
        StrippedOnStep(m0, sessionID, done, existingIP);
        RemoveFromList(existingIP, sessionID);
      }
      assert m0.Keys - pending == m0.Keys;
      assert ipToIDs == Stripped(m0, sessionID);
      var current := if ip in ipToIDs then ipToIDs[ip] else [];
      assert current == Lookup(Stripped(m0, sessionID), ip);
      ipToIDs := ipToIDs[ip := current + [sessionID]];
      if old(Valid()) {
        RegisterKeepsInvariant(m0, ip, sessionID);
      }
    }

    /** The inner loop of `registerIP` for one key: scans its list for
        `sessionID`, splices out the first occurrence and deletes the key if
        its list becomes empty. */
    method RemoveFromList(key: string, sessionID: string)
      requires key in ipToIDs
      modifies this
      ensures var ids := old(ipToIDs[key]);
        ipToIDs == if sessionID !in ids then old(ipToIDs)
                   else if ids == [sessionID] then old(ipToIDs) - {key}
                   else old(ipToIDs)[key := RemoveFirst(ids, sessionID)]
    {
      var ids := ipToIDs[key];
      var i := 0;
      while i < |ids|
        invariant 0 <= i <= |ids|
        invariant forall j :: 0 <= j < i ==> ids[j] != sessionID
        invariant ipToIDs == old(ipToIDs)
      {
        if ids[i] == sessionID {
          IndexOfUnique(ids, sessionID, i);
          ipToIDs := ipToIDs[key := ids[..i] + ids[i + 1..]];
          if |ipToIDs[key]| == 0 {
            assert ids == [sessionID];
            ipToIDs := ipToIDs - {key};
          }
          return;
        }
        i := i + 1;
      }
    }

    /** Read-only: scans the list under `ip` for an identifier other than `sessionID`. */
    method IsDuplicate(ip: string, sessionID: string) returns (dup: bool)
      ensures dup <==> ip in ipToIDs && exists j :: 0 <= j < |ipToIDs[ip]| && ipToIDs[ip][j] != sessionID
      ensures dup == Duplicate(ipToIDs, ip, sessionID)
    {
      if ip !in ipToIDs {
        return false;
      }
      var ids := ipToIDs[ip];
      for i := 0 to |ids|
        invariant forall j :: 0 <= j < i ==> ids[j] == sessionID
      {
        if ids[i] != sessionID {
          return true;
        }
      }
      return false;
    }
  }

  /** Visiting one more key `k` changes only the entry under `k`. */
  lemma StrippedOnStep(m: Table, id: string, done: set<string>, k: string)
    requires k in m && k !in done
    ensures var before, after := StrippedOn(m, id, done), StrippedOn(m, id, done + {k});
      && k in before && before[k] == m[k]
      && after == if id !in m[k] then before
                  else if m[k] == [id] then before - {k}
                  else before[k := RemoveFirst(m[k], id)]
  {
  }

  // ---------------------------------------------------------------------------
  // Properties of registration

  /** The splice at index `i`, element by element. */
  lemma SpliceAt(s: seq<string>, i: nat)
    requires i < |s|
    ensures var r := s[..i] + s[i + 1..];
      |r| == |s| - 1 && forall j :: 0 <= j < |r| ==> r[j] == if j < i then s[j] else s[j + 1]
  {
  }

  /** Without duplicates, removing the first `id` removes `id` altogether and
      keeps exactly the other entries. */
  lemma RemoveFirstNoDup(ids: seq<string>, id: string)
    requires NoDup(ids)
    ensures var r := RemoveFirst(ids, id);
      && NoDup(r) && id !in r
      && forall x :: x in r <==> x in ids && x != id
  {
    if id in ids {
      var i := IndexOf(ids, id);
      var r := ids[..i] + ids[i + 1..];
      SpliceAt(ids, i);
      forall x | x in ids && x != id
        ensures x in r
      {
        var j :| 0 <= j < |ids| && ids[j] == x;
        if j < i {
          assert r[j] == x;
        } else {
          assert j > i;
          assert r[j - 1] == x;
        }
      }
    }
  }

  /** Under the invariant the removal pass keeps the invariant, removes `id`
      everywhere, and only shrinks lists. */
  lemma StrippedKeepsInvariant(m: Table, id: string)
    requires TableInv(m)
    ensures var s := Stripped(m, id);
      && TableInv(s)
      && s.Keys <= m.Keys
      && forall k :: k in s ==> id !in s[k] && forall x :: x in s[k] ==> x in m[k]
  {
    var s := Stripped(m, id);
    forall k | k in s
      ensures s[k] != [] && NoDup(s[k]) && id !in s[k]
      ensures forall x :: x in s[k] ==> x in m[k]
    {
      RemoveFirstNoDup(m[k], id);
    }
  }

  /** Registration preserves the invariant, and afterwards `id` appears in
      exactly one list: the one under `ip`. */
  lemma RegisterKeepsInvariant(m: Table, ip: string, id: string)
    requires TableInv(m)
    ensures var r := Registered(m, ip, id);
      && TableInv(r)
      && forall k :: k in r ==> (id in r[k] <==> k == ip)
  {
    var s := Stripped(m, id);
    StrippedKeepsInvariant(m, id);
    var r := Registered(m, ip, id);
    var l := Lookup(s, ip);
    assert r[ip] == l + [id];
    assert NoDup(r[ip]) by {
      forall a, b | 0 <= a < b < |r[ip]|
        ensures r[ip][a] != r[ip][b]
      {
        if b == |l| {
          assert r[ip][a] == l[a];
        } else {
          assert r[ip][a] == l[a] && r[ip][b] == l[b];
        }
      }
    }
    forall k1, k2, x | k1 in r && k2 in r && k1 != k2 && x in r[k1]
      ensures x !in r[k2]
    {
      if k1 == ip {
        if x != id {
          assert x in l;
          assert x in m[ip];
        }
      } else if k2 == ip {
        assert x in m[k1];
      }
    }
  }

  /** Filtering `id` out after the removal pass gives what filtering it out
      before gives, list by list. */
  lemma StrippedKeepsOthers(m: Table, id: string, k: string)
    ensures Without(Lookup(Stripped(m, id), k), id) == Without(Lookup(m, k), id)
  {
    var s := Stripped(m, id);
    if k in m {
      if id in m[k] {
        var i := IndexOf(m[k], id);
        WithoutSplice(m[k], id, i);
        if m[k] == [id] {
          assert Without([id], id) == [] by {
            assert [id][1..] == [];
          }
        }
      }
    }
  }

  /** Registration leaves every other identifier where it was: filtering out
      `id`, every list is unchanged, so the membership and relative order of
      all other identifiers are kept. */
  lemma RegisterKeepsOthers(m: Table, ip: string, id: string)
    ensures var r := Registered(m, ip, id);
      forall k :: Without(Lookup(r, k), id) == Without(Lookup(m, k), id)
  {
    var s := Stripped(m, id);
    var r := Registered(m, ip, id);
    forall k
      ensures Without(Lookup(r, k), id) == Without(Lookup(m, k), id)
    {
      StrippedKeepsOthers(m, id, k);
      if k == ip {
        WithoutAppend(Lookup(s, ip), [id], id);
        assert Without([id], id) == [] by {
          assert [id][1..] == [];
        }
      }
    }
  }

  /** A table where `id` appears once, as the last entry under `ip`, is a
      fixed point of `registerIP(ip, id)`. */
  lemma RegisterFixpoint(r: Table, ip: string, id: string)
    requires ip in r && |r[ip]| >= 1 && r[ip][|r[ip]| - 1] == id
    requires id !in r[ip][..|r[ip]| - 1]
    requires forall k :: k in r && k != ip ==> id !in r[k]
    ensures Registered(r, ip, id) == r
  {
    var t := r[ip][..|r[ip]| - 1];
    RemoveLast(r[ip], id);
    StrippedOnlyAt(r, ip, id);
    var r2 := Registered(r, ip, id);
    assert r2[ip] == r[ip];
    assert r2.Keys == r.Keys;
  }

  /** Removing the first `id` from a list whose only `id` is its last entry
      drops that entry. */
  lemma RemoveLast(ids: seq<string>, id: string)
    requires |ids| >= 1 && ids[|ids| - 1] == id && id !in ids[..|ids| - 1]
    ensures RemoveFirst(ids, id) == ids[..|ids| - 1]
    ensures ids[..|ids| - 1] + [id] == ids
  {
    var n := |ids|;
    forall j | 0 <= j < n - 1
      ensures ids[j] != id
    {
      assert ids[j] == ids[..n - 1][j];
    }
    IndexOfUnique(ids, id, n - 1);
  }

  /** When `id` occurs under `ip` alone, the removal pass only touches `ip`. */
  lemma StrippedOnlyAt(r: Table, ip: string, id: string)
    requires ip in r
    requires forall k :: k in r && k != ip ==> id !in r[k]
    ensures var s := Stripped(r, id);
      && (forall k :: k != ip ==> (k in s <==> k in r))
      && (forall k :: k != ip && k in r ==> s[k] == r[k])
      && Lookup(s, ip) == RemoveFirst(r[ip], id)
  {
    var s := Stripped(r, id);
    forall k | k != ip && k in r
      ensures k in s && s[k] == r[k]
    {
      assert RemoveFirst(r[k], id) == r[k];
    }
    if r[ip] == [id] {
      assert [id][1..] == [];
      assert RemoveFirst(r[ip], id) == [];
    }
  }

  /** `registerIP(ip, id)` twice in a row leaves the table as once. */
  lemma RegisterIdempotent(m: Table, ip: string, id: string)
    requires TableInv(m)
    ensures Registered(Registered(m, ip, id), ip, id) == Registered(m, ip, id)
  {
    var r := Registered(m, ip, id);
    RegisterKeepsInvariant(m, ip, id);
    var n := |r[ip]|;
    assert id !in r[ip][..n - 1] by {
      forall j | 0 <= j < n - 1
        ensures r[ip][j] != id
      {
        assert r[ip][j] != r[ip][n - 1];
      }
    }
    RegisterFixpoint(r, ip, id);
  }

  // ---------------------------------------------------------------------------
  // Properties of the duplicate query

  /** Two distinct identifiers under one IP are each reported as a duplicate. */
  lemma SharedIPIsDuplicate(m: Table, ip: string, a: string, b: string)
    requires a != b && a in Lookup(m, ip) && b in Lookup(m, ip)
    ensures Duplicate(m, ip, a) && Duplicate(m, ip, b)
  {
    var ja :| 0 <= ja < |m[ip]| && m[ip][ja] == a;
    var jb :| 0 <= jb < |m[ip]| && m[ip][jb] == b;
  }

  /** Under the invariant, a session registered under `ip` is a duplicate
      exactly when the list under `ip` has another member. */
  lemma DuplicateMeansShared(m: Table, ip: string, id: string)
    requires TableInv(m) && id in Lookup(m, ip)
    ensures Duplicate(m, ip, id) <==> |m[ip]| >= 2
  {
    if |m[ip]| >= 2 {
      if m[ip][0] == id {
        assert m[ip][1] != id;
      } else {
        assert m[ip][0] != id;
      }
    } else {
      assert m[ip] == [m[ip][0]];
    }
  }

  /** Two sessions registering the same IP one after the other are both
      reported as duplicates, whatever the table held before. */
  lemma TwoRegistrationsDuplicate(m: Table, ip: string, a: string, b: string)
    requires a != b
    ensures var r := Registered(Registered(m, ip, a), ip, b);
      Duplicate(r, ip, a) && Duplicate(r, ip, b)
  {
    var r1 := Registered(m, ip, a);
    var r := Registered(r1, ip, b);
    assert a in Lookup(r1, ip);
    RegisterKeepsOthers(r1, ip, b);
    WithoutMember(Lookup(r1, ip), b, a);
    WithoutMember(Lookup(r, ip), b, a);
    assert a in Lookup(r, ip);
    assert b in Lookup(r, ip);
    SharedIPIsDuplicate(r, ip, a, b);
  }
}
