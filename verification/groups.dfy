/** The process-wide group registry (gen_routine/group.go): which actors are in
    a group (`svrGrp`, group key -> actor key -> actor) and, mirrored, which
    groups an actor is in (`svrKey`, actor key -> set of group keys; the source
    stores `map[group]bool` whose values are always `true`). */
module Groups {
  import opened Base

  datatype Registry = Registry(svrGrp: map<Key, map<Key, SvrRef>>, svrKey: map<Key, set<Key>>)

  /** The registry created at startup. */
  const Empty: Registry := Registry(map[], map[])

  /** Actor key `k` is listed in group `g`. */
  predicate Member(r: Registry, g: Key, k: Key) {
    g in r.svrGrp && k in r.svrGrp[g]
  }

  /** Actor key `k` lists group `g`. */
  predicate Lists(r: Registry, k: Key, g: Key) {
    k in r.svrKey && g in r.svrKey[k]
  }

  /** The two maps describe the same membership relation. */
  ghost predicate Mirror(r: Registry) {
    && (forall g, k | Member(r, g, k) :: Lists(r, k, g))
    && (forall k, g | Lists(r, k, g) :: Member(r, g, k))
  }

  /** No group and no actor keeps an empty inner map. */
  ghost predicate NoEmptyEntries(r: Registry) {
    && (forall g | g in r.svrGrp :: r.svrGrp[g] != map[])
    && (forall k | k in r.svrKey :: r.svrKey[k] != {})
  }

  /** Every actor is stored under its own key. */
  ghost predicate KeysMatch(r: Registry) {
    forall g, k | Member(r, g, k) :: r.svrGrp[g][k].key == k
  }

  ghost predicate Valid(r: Registry) {
    Mirror(r) && NoEmptyEntries(r) && KeysMatch(r)
  }

  lemma EmptyIsValid()
    ensures Valid(Empty)
  {
  }

  /** `reg`: put actor `s` into group `g`, creating either inner map when it
      is missing. */
  function Reg(r: Registry, g: Key, s: SvrRef): (r': Registry)
    ensures Member(r', g, s.key) && r'.svrGrp[g][s.key] == s
    ensures Lists(r', s.key, g)
    ensures forall h, k :: Member(r', h, k) <==> Member(r, h, k) || (h == g && k == s.key)
    ensures forall k, h :: Lists(r', k, h) <==> Lists(r, k, h) || (h == g && k == s.key)
    ensures forall h, k | Member(r, h, k) && (h, k) != (g, s.key) ::
              Member(r', h, k) && r'.svrGrp[h][k] == r.svrGrp[h][k]
  {
    var sub := if g in r.svrGrp then r.svrGrp[g] else map[];
    var gs := if s.key in r.svrKey then r.svrKey[s.key] else {};
    Registry(r.svrGrp[g := sub[s.key := s]], r.svrKey[s.key := gs + {g}])
  }

  lemma RegKeepsValid(r: Registry, g: Key, s: SvrRef)
    requires Valid(r)
    ensures Valid(Reg(r, g, s))
  {
    var r' := Reg(r, g, s);
    forall h | h in r'.svrGrp
      ensures r'.svrGrp[h] != map[]
    {
      if h == g {
        assert s.key in r'.svrGrp[h];
      } else {
        assert r'.svrGrp[h] == r.svrGrp[h];
      }
    }
    forall k | k in r'.svrKey
      ensures r'.svrKey[k] != {}
    {
      if k == s.key {
        assert g in r'.svrKey[k];
      } else {
        assert r'.svrKey[k] == r.svrKey[k];
      }
    }
  }

  /** Registering twice is registering once. */
  lemma RegIdempotent(r: Registry, g: Key, s: SvrRef)
    ensures Reg(Reg(r, g, s), g, s) == Reg(r, g, s)
  {
    var once := Reg(r, g, s);
    assert once.svrGrp[g][s.key := s] == once.svrGrp[g];
    assert once.svrKey[s.key] + {g} == once.svrKey[s.key];
  }

  /** The actor side of `unReq`: drop `g` from the groups of actor key `k`,
      deleting the entry when no group is left. */
  function DropGroup(keys: map<Key, set<Key>>, k: Key, g: Key): (keys': map<Key, set<Key>>)
    ensures k in keys' ==> k in keys && keys'[k] == keys[k] - {g} && keys'[k] != {}
    ensures k in keys && keys[k] - {g} != {} ==> k in keys'
    ensures forall j | j != k :: (j in keys' <==> j in keys) && (j in keys ==> keys'[j] == keys[j])
  {
    if k in keys then
      var rest := keys[k] - {g};
      if |rest| == 0 then keys - {k} else keys[k := rest]
    else keys
  }

  /** The group side of `unReq`: drop actor key `k` from group `g`, deleting
      the group when it becomes empty; an unknown group is left alone. */
  function DropMember(grp: map<Key, map<Key, SvrRef>>, g: Key, k: Key): (grp': map<Key, map<Key, SvrRef>>)
    ensures g in grp' ==> g in grp && grp'[g] == grp[g] - {k} && grp'[g] != map[]
    ensures g in grp && (grp[g] - {k}) != map[] ==> g in grp'
    ensures forall h | h != g :: (h in grp' <==> h in grp) && (h in grp ==> grp'[h] == grp[h])
  {
    if g !in grp then grp
    else
      var rest := grp[g] - {k};
      if |rest| == 0 then grp - {g} else grp[g := rest]
  }

  /** `unReq`: take actor key `s.key` out of group `g`. The actor side is
      cleaned first; an unknown group then returns early. */
  function UnReq(r: Registry, g: Key, s: SvrRef): (r': Registry)
    ensures !Member(r', g, s.key) && !Lists(r', s.key, g)
    ensures forall h, k | (h, k) != (g, s.key) :: Member(r', h, k) <==> Member(r, h, k)
    ensures forall k, h | (h, k) != (g, s.key) :: Lists(r', k, h) <==> Lists(r, k, h)
    ensures forall h, k | Member(r', h, k) :: Member(r, h, k) && r'.svrGrp[h][k] == r.svrGrp[h][k]
  {
    var r' := Registry(DropMember(r.svrGrp, g, s.key), DropGroup(r.svrKey, s.key, g));
    DropMemberMembers(r, r', g, s.key);
    DropGroupLists(r, r', g, s.key);
    r'
  }

  /** The membership side of `unReq`. */
  lemma DropMemberMembers(r: Registry, r': Registry, g: Key, k: Key)
    requires r'.svrGrp == DropMember(r.svrGrp, g, k)
    ensures !Member(r', g, k)
    ensures forall h, j | (h, j) != (g, k) :: Member(r', h, j) <==> Member(r, h, j)
    ensures forall h, j | Member(r', h, j) :: Member(r, h, j) && r'.svrGrp[h][j] == r.svrGrp[h][j]
  {
  }

  /** The listing side of `unReq`. */
  lemma DropGroupLists(r: Registry, r': Registry, g: Key, k: Key)
    requires r'.svrKey == DropGroup(r.svrKey, k, g)
    ensures !Lists(r', k, g)
    ensures forall j, h | (h, j) != (g, k) :: Lists(r', j, h) <==> Lists(r, j, h)
  {
  }

  lemma UnReqKeepsValid(r: Registry, g: Key, s: SvrRef)
    requires Valid(r)
    ensures Valid(UnReq(r, g, s))
  {
    UnReqKeepsMirror(r, g, s);
    UnReqKeepsEntries(r, g, s);
  }

  lemma UnReqKeepsMirror(r: Registry, g: Key, s: SvrRef)
    requires Mirror(r)
    ensures Mirror(UnReq(r, g, s))
  {
  }

  lemma UnReqKeepsEntries(r: Registry, g: Key, s: SvrRef)
    requires NoEmptyEntries(r) && KeysMatch(r)
    ensures NoEmptyEntries(UnReq(r, g, s)) && KeysMatch(UnReq(r, g, s))
  {
  }

  /** Removing a membership that does not exist changes nothing, whether the
      group is unknown or the actor is simply not in it. */
  lemma UnReqNonMemberIsNoOp(r: Registry, g: Key, s: SvrRef)
    requires Valid(r) && !Member(r, g, s.key)
    ensures UnReq(r, g, s) == r
  {
    var k := s.key;
    assert !Lists(r, k, g);
    if k in r.svrKey {
      assert r.svrKey[k] - {g} == r.svrKey[k];
      assert r.svrKey[k := r.svrKey[k]] == r.svrKey;
    }
    if g in r.svrGrp {
      assert r.svrGrp[g] - {k} == r.svrGrp[g];
      assert r.svrGrp[g := r.svrGrp[g]] == r.svrGrp;
    }
  }

  /** The group map after `bye` has walked the groups `gs` of actor key `k`. */
  function Purged(grp: map<Key, map<Key, SvrRef>>, k: Key, gs: set<Key>): map<Key, map<Key, SvrRef>> {
    map g | g in grp && !(g in gs && grp[g].Keys <= {k}) :: if g in gs then grp[g] - {k} else grp[g]
  }

  /** `bye`: remove the actor key from every group it lists, then drop its
      own entry. */
  method Bye(r: Registry, s: SvrRef) returns (r': Registry)
    ensures s.key !in r'.svrKey
    ensures r'.svrGrp == Purged(r.svrGrp, s.key, if s.key in r.svrKey then r.svrKey[s.key] else {})
    ensures Valid(r) ==> Valid(r') && forall g :: !Member(r', g, s.key)
    ensures Valid(r) ==> forall g, k | k != s.key :: Member(r', g, k) <==> Member(r, g, k)
    ensures forall g, k | Member(r', g, k) :: r'.svrGrp[g][k] == r.svrGrp[g][k]
  {
    var k := s.key;
    var gs: set<Key> := if k in r.svrKey then r.svrKey[k] else {};
    var grp := r.svrGrp;
    var todo := gs;
    ghost var done: set<Key> := {};
    while todo != {}
      invariant todo <= gs && done == gs - todo
      invariant forall g :: g in grp <==> g in r.svrGrp && !(g in done && r.svrGrp[g].Keys <= {k})
      invariant forall g | g in grp :: grp[g] == if g in done then r.svrGrp[g] - {k} else r.svrGrp[g]
      decreases todo
    {
      var g :| g in todo;
      if g in grp {
        var rest := grp[g] - {k};
        if |rest| == 0 {
          grp := grp - {g};
        } else {
          grp := grp[g := rest];
        }
      }
      todo := todo - {g};
      done := done + {g};
    }
    assert done == gs;
    assert grp == Purged(r.svrGrp, k, gs);
    r' := Registry(grp, r.svrKey - {k});
    if Valid(r) {
      ByeKeepsValid(r, k);
    }
  }

  lemma ByeKeepsValid(r: Registry, k: Key)
    requires Valid(r)
    ensures var r' := Registry(Purged(r.svrGrp, k, if k in r.svrKey then r.svrKey[k] else {}), r.svrKey - {k});
      Valid(r') && (forall g :: !Member(r', g, k))
      && (forall g, j | j != k :: Member(r', g, j) <==> Member(r, g, j))
  {
    var gs := if k in r.svrKey then r.svrKey[k] else {};
    var r' := Registry(Purged(r.svrGrp, k, gs), r.svrKey - {k});
    forall g
      ensures !Member(r', g, k)
    {
      if g in r'.svrGrp && k in r.svrGrp[g] {
        assert Lists(r, k, g);
        assert r'.svrGrp[g] == r.svrGrp[g] - {k};
      }
    }
    forall g, j | Member(r', g, j)
      ensures j != k && Member(r, g, j)
    {
      assert !Member(r', g, k);
    }
    forall g, j | j != k && Member(r, g, j)
      ensures Member(r', g, j)
    {
      if g in gs {
        assert !(r.svrGrp[g].Keys <= {k});
      }
    }
    forall g | g in r'.svrGrp
      ensures r'.svrGrp[g] != map[]
    {
      if g in gs {
        var j :| j in r.svrGrp[g].Keys && j !in {k};
        assert j in r'.svrGrp[g];
      }
    }
    forall g, j | Member(r', g, j)
      ensures Lists(r', j, g)
    {
      assert Lists(r, j, g);
    }
    forall j, g | Lists(r', j, g)
      ensures Member(r', g, j)
    {
      assert Member(r, g, j);
    }
  }

  /** `allSvr`: the members of a group, in some order; nothing for an unknown
      group. */
  method AllSvr(r: Registry, g: Key) returns (a: seq<SvrRef>)
    ensures g !in r.svrGrp ==> a == []
    ensures g in r.svrGrp ==> forall v :: v in a <==> v in r.svrGrp[g].Values
    ensures Valid(r) ==> forall i, j | 0 <= i < j < |a| :: a[i] != a[j]
  {
    a := [];
    if g in r.svrGrp {
      var m := r.svrGrp[g];
      var keys := m.Keys;
      ghost var ks: seq<Key> := [];
      while keys != {}
        invariant keys <= m.Keys
        invariant |ks| == |a|
        invariant forall i | 0 <= i < |a| :: ks[i] in m && ks[i] !in keys && a[i] == m[ks[i]]
        invariant forall i, j | 0 <= i < j < |ks| :: ks[i] != ks[j]
        invariant forall j | j in m && j !in keys :: m[j] in a
        decreases keys
      {
        var k :| k in keys;
        a := a + [m[k]];
        ks := ks + [k];
        keys := keys - {k};
      }
      if Valid(r) {
        forall i, j | 0 <= i < j < |a|
          ensures a[i] != a[j]
        {
          assert Member(r, g, ks[i]) && Member(r, g, ks[j]);
        }
      }
    }
  }

  /** Membership is keyed by actor key alone: a second actor with the same key
      (say, from another manager) replaces the first in the group, and
      removing either removes whichever is listed. */
  lemma SameKeyOverwrites(r: Registry, g: Key, s1: SvrRef, s2: SvrRef)
    requires Valid(r) && s1.key == s2.key && s1 != s2
    ensures var r2 := Reg(Reg(r, g, s1), g, s2);
      && r2.svrGrp[g][s1.key] == s2
      && s1 !in r2.svrGrp[g].Values
      && !Member(UnReq(r2, g, s1), g, s2.key)
  {
    var r2 := Reg(Reg(r, g, s1), g, s2);
    forall k | k in r2.svrGrp[g]
      ensures r2.svrGrp[g][k] != s1
    {
      if k != s1.key {
        assert Member(r, g, k) && r.svrGrp[g][k].key == k;
      }
    }
  }
}
