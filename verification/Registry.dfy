/**
 Registration of names by hash with linear probing (cyber/common/global_data.cc).  Nodes, channels,
 services and tasks each have such a registry of their own; the hash function is arbitrary.
 */
module Registry {
  /** Ids are uint64_t. */
  const Ids: nat := 0x1_0000_0000_0000_0000

  /** The id probed after k collisions: ++id wraps. */
  function ProbeAt(h: nat, k: nat): (id: nat)
    ensures id < Ids
  {
    (h + k) % Ids
  }

  ghost predicate HeldByOther(m: map<nat, string>, id: nat, name: string) {
    id in m && m[id] != name
  }

  /** id is where probing for name stops: every id probed before it is held by another name. */
  ghost predicate Reaches(m: map<nat, string>, h: nat, name: string, id: nat) {
    exists k: nat | k < Ids :: ReachesIn(m, h, name, id, k)
  }

  ghost predicate ReachesIn(m: map<nat, string>, h: nat, name: string, id: nat, k: nat) {
    id == ProbeAt(h, k) && forall j: nat | j < k :: HeldByOther(m, ProbeAt(h, j), name)
  }

  /** Every id is where probing for its own name stops. */
  ghost predicate Consistent(m: map<nat, string>, hash: string -> nat) {
    forall id | id in m :: id < Ids && Reaches(m, hash(m[id]), m[id], id)
  }

  /** Probing for a name can stop at one id only. */
  lemma StopUnique(m: map<nat, string>, h: nat, name: string, a: nat, b: nat)
    requires Reaches(m, h, name, a) && !HeldByOther(m, a, name)
    requires Reaches(m, h, name, b) && !HeldByOther(m, b, name)
    ensures a == b
  {
    var k: nat :| k < Ids && ReachesIn(m, h, name, a, k);
    var l: nat :| l < Ids && ReachesIn(m, h, name, b, l);
    assert k < l ==> HeldByOther(m, ProbeAt(h, k), name);
    assert l < k ==> HeldByOther(m, ProbeAt(h, l), name);
  }

  /** Distinct ids carry distinct names. */
  lemma Injective(m: map<nat, string>, hash: string -> nat, a: nat, b: nat)
    requires Consistent(m, hash) && a in m && b in m && m[a] == m[b]
    ensures a == b
  {
    StopUnique(m, hash(m[a]), m[a], a, b);
  }

  lemma NextProbe(m: map<nat, string>, h: nat, name: string, id: nat, k: nat, stop: nat)
    requires ReachesIn(m, h, name, id, k) && HeldByOther(m, id, name) && k <= stop && !HeldByOther(m, ProbeAt(h, stop), name)
    ensures k < stop && ReachesIn(m, h, name, (id + 1) % Ids, k + 1)
  {
  }

  lemma {:induction false} Pigeonhole(s: set<nat>, n: nat)
    requires |s| < n
    ensures exists i: nat :: i < n && i !in s
  {
    if n - 1 in s {
      Pigeonhole(s - {n - 1}, n - 1);
      var i: nat :| i < n - 1 && i !in s - {n - 1};
      assert i !in s;
    }
  }

  /** Every id is probed sooner or later. */
  lemma ProbeReachesAll(h: nat, id: nat)
    requires id < Ids
    ensures exists k: nat :: k < Ids && ProbeAt(h, k) == id
  {
    var k := (id + Ids - h % Ids) % Ids;
    assert ProbeAt(h, k) == id;
  }

  /** Probing stops if and only if the name is registered or an id is free. */
  lemma ProbingStops(m: map<nat, string>, hash: string -> nat, name: string)
    requires Consistent(m, hash)
    ensures (exists k: nat :: k < Ids && !HeldByOther(m, ProbeAt(hash(name), k), name)) <==>
            name in m.Values || |m| < Ids
  {
    assert |m.Keys| == |m|;
    if name in m.Values || |m| < Ids {
      var id: nat;
      if name in m.Values {
        id :| id in m && m[id] == name;
      } else {
        Pigeonhole(m.Keys, Ids);
        id :| id < Ids && id !in m.Keys;
      }
      ProbeReachesAll(hash(name), id);
      var k: nat :| k < Ids && ProbeAt(hash(name), k) == id;
    }
    if k: nat :| k < Ids && !HeldByOther(m, ProbeAt(hash(name), k), name) {
      if ProbeAt(hash(name), k) !in m.Keys { RoomBelow(m.Keys, Ids, ProbeAt(hash(name), k)); }
    }
  }

  lemma {:induction false} RoomBelow(s: set<nat>, n: nat, id: nat)
    requires (forall i | i in s :: i < n) && id < n && id !in s
    ensures |s| < n
  {
    if n - 1 in s {
      RoomBelow(s - {n - 1}, n - 1, id);
    } else {
      AtMost(s, n - 1);
    }
  }

  lemma {:induction false} AtMost(s: set<nat>, n: nat)
    requires forall i | i in s :: i < n
    ensures |s| <= n
  {
    if n > 0 {
      AtMost(s - {n - 1}, n - 1);
      assert n - 1 in s ==> s == (s - {n - 1}) + {n - 1};
      assert n - 1 !in s ==> s == s - {n - 1};
    } else {
      assert s == {};
    }
  }

  /** Where probing stops does not depend on later registrations: an id that was free or the name's own
      can be given to the name without moving any other name. */
  lemma RegisterKeeps(m: map<nat, string>, hash: string -> nat, name: string, id: nat)
    requires Consistent(m, hash) && Reaches(m, hash(name), name, id) && !HeldByOther(m, id, name)
    ensures Consistent(m[id := name], hash)
    ensures forall other | other in m :: other in m[id := name] && m[id := name][other] == m[other]
  {
    var m' := m[id := name];
    forall other | other in m' ensures other < Ids && Reaches(m', hash(m'[other]), m'[other], other) {
      var n := m'[other];
      assert Reaches(m, hash(n), n, other);
      var k: nat :| k < Ids && ReachesIn(m, hash(n), n, other, k);
      forall j: nat | j < k ensures HeldByOther(m', ProbeAt(hash(n), j), n) {
        assert HeldByOther(m, ProbeAt(hash(n), j), n);
      }
      assert ReachesIn(m', hash(n), n, other, k);
    }
  }

  lemma FirstProbe(m: map<nat, string>, h: nat, name: string)
    ensures ReachesIn(m, h, name, h % Ids, 0)
  {
  }

  lemma Held(m: map<nat, string>, id: nat, name: string)
    ensures HeldByOther(m, id, name) <==> id in m && m[id] != name
  {
  }

  /** Giving the name the id where its probing stopped: the whole effect of a registration. */
  lemma Registers(m: map<nat, string>, hash: string -> nat, name: string, id: nat)
    requires Consistent(m, hash) && Reaches(m, hash(name), name, id) && !HeldByOther(m, id, name)
    ensures var m' := m[id := name];
      && Consistent(m', hash) && Reaches(m', hash(name), name, id)
      && (forall other | other in m :: m'[other] == m[other])
      && (id in m <==> name in m.Values)
  {
    RegisterKeeps(m, hash, name, id);
    assert m[id := name][id] == name;
    if name in m.Values {
      var own :| own in m && m[own] == name;
      StopUnique(m, hash(name), name, own, id);
    }
  }

  class Table {
    const hash: string -> nat
    var idMap: map<nat, string>

    ghost predicate Valid()
      reads this
    {
      Consistent(idMap, hash)
    }

    constructor (hash: string -> nat)
      ensures Valid() && this.hash == hash && idMap == map[]
    {
      this.hash := hash;
      idMap := map[];
    }

    /** Registers a name; a full table that does not know the name would be probed forever. */
    method Register(name: string) returns (id: nat)
      requires Valid() && (name in idMap.Values || |idMap| < Ids)
      modifies this
      ensures Valid() && idMap == old(idMap)[id := name]
      ensures forall other | other in old(idMap) :: idMap[other] == old(idMap)[other]
      ensures id in old(idMap) <==> name in old(idMap.Values)
      ensures Reaches(idMap, hash(name), name, id)
    {
      hide Consistent, ReachesIn, HeldByOther, ProbeAt;
      ghost var h := hash(name);
      ProbingStops(idMap, hash, name);
      ghost var stop: nat :| stop < Ids && !HeldByOther(idMap, ProbeAt(h, stop), name);
      id := hash(name) % Ids;
      ghost var k: nat := 0;
      FirstProbe(idMap, h, name);
      while id in idMap
        invariant idMap == old(idMap) && k <= stop && ReachesIn(idMap, h, name, id, k)
        decreases stop - k
      {
        Held(idMap, id, name);
        if idMap[id] == name {
          break;
        }
        NextProbe(idMap, h, name, id, k, stop);
        id := (id + 1) % Ids;
        k := k + 1;
      }
      Held(idMap, id, name);
      Registers(idMap, hash, name, id);
      idMap := idMap[id := name];
    }

    /** The name registered under an id, or the empty string; a name found is one whose probing leads here. */
    function GetById(id: nat): (name: string)
      reads this
      ensures Valid() && name != "" ==> Reaches(idMap, hash(name), name, id)
    {
      if id in idMap then idMap[id] else ""
    }

    /** Lookup inverts registration: of all ids, exactly the one where probing for a registered name stops,
        and which Register therefore returns, gives that name back. */
    lemma LookupInverts(name: string, id: nat)
      requires Valid() && name in idMap.Values && name != ""
      ensures GetById(id) == name <==> Reaches(idMap, hash(name), name, id) && !HeldByOther(idMap, id, name)
    {
      var own :| own in idMap && idMap[own] == name;
      if Reaches(idMap, hash(name), name, id) && !HeldByOther(idMap, id, name) {
        StopUnique(idMap, hash(name), name, own, id);
      }
    }

    /** Any run of registrations names injectively and idempotently, and lookup inverts it. */
    method RegisterAll(names: seq<string>) returns (ids: seq<nat>)
      requires Valid() && |idMap| + |names| <= Ids
      modifies this
      ensures Valid() && |ids| == |names|
      ensures forall i | 0 <= i < |names| :: GetById(ids[i]) == names[i] && Reaches(idMap, hash(names[i]), names[i], ids[i])
      ensures forall i, j | 0 <= i < |names| && 0 <= j < |names| :: ids[i] == ids[j] <==> names[i] == names[j]
    {
      ids := [];
      for k := 0 to |names|
        invariant Valid() && |ids| == k && |idMap| <= old(|idMap|) + k
        invariant forall i | 0 <= i < k :: ids[i] in idMap && idMap[ids[i]] == names[i]
      {
        var id := Register(names[k]);
        ids := ids + [id];
      }
      forall i, j | 0 <= i < |names| && 0 <= j < |names| ensures ids[i] == ids[j] <==> names[i] == names[j] {
        if names[i] == names[j] { Injective(idMap, hash, ids[i], ids[j]); }
      }
    }
  }
}
