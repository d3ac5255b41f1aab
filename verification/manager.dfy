/** The manager tree (gen_routine/mgr.go). Every manager owns one registry
    that holds BOTH its child managers (under their name) and its actors
    (under their key), two counters, a cancellation flag standing for its
    context, and the counter of its wait group. Pointers become identifiers
    into `Tree.mgrs`; the process-wide id counter `maxRId` lives in the tree. */
module Manager {
  import opened Base
  import opened Errors

  /** 2^64: the id counter is a uint64 and wraps around. */
  const U64Modulus: nat := 0x1_0000_0000_0000_0000

  /** A registry value: a child manager or an actor. */
  datatype Entry = IsMgr(id: nat) | IsSvr(svr: SvrRef)

  /** `path` lists the ancestors, root first; `wait` is the wait-group counter. */
  datatype Mgr = Mgr(name: string, parent: Option<nat>, path: seq<nat>, m: map<Key, Entry>,
                     countSvr: int, countMgr: int, cancelled: bool, wait: nat)

  /** `next` hands out fresh identities (manager ids and actor serials). */
  datatype Tree = Tree(mgrs: map<nat, Mgr>, maxRId: nat, next: nat)

  const RootId: nat := 0

  /** A manager with an empty registry and zero counters. */
  function Fresh(name: string, parent: Option<nat>, path: seq<nat>, cancelled: bool): Mgr {
    Mgr(name, parent, path, map[], 0, 0, cancelled, 0)
  }

  /** `initRootMgr`: the root manager `global` and a zero id counter. */
  function InitRoot(): (t: Tree)
    ensures RootId in t.mgrs && t.mgrs[RootId].parent.None? && t.maxRId == 0
    ensures Valid(t)
  {
    Tree(map[RootId := Fresh("global", None, [], false)], 0, RootId + 1)
  }

  /** Identities are below `next`, every parent and ancestor exists, and a
      child's path is its parent's path followed by the parent. */
  ghost predicate Valid(t: Tree) {
    && t.maxRId < U64Modulus
    && (forall id | id in t.mgrs :: id < t.next)
    && (forall id | id in t.mgrs && t.mgrs[id].parent.Some? ::
          var p := t.mgrs[id].parent.value;
          p in t.mgrs && t.mgrs[id].path == t.mgrs[p].path + [p])
    && (forall id | id in t.mgrs && t.mgrs[id].parent.None? :: t.mgrs[id].path == [])
  }

  /** The context of manager `id` is done: it or an ancestor was cancelled. */
  predicate Cancelled(t: Tree, id: nat)
    requires id in t.mgrs
  {
    t.mgrs[id].cancelled || exists i :: 0 <= i < |t.mgrs[id].path| && Ancestor(t, id, i)
  }

  predicate Ancestor(t: Tree, id: nat, i: nat)
    requires id in t.mgrs && i < |t.mgrs[id].path|
  {
    var a := t.mgrs[id].path[i];
    a in t.mgrs && t.mgrs[a].cancelled
  }

  // ------------------------------------------------------------- registry

  /** `reg` (`LoadOrStore`): the value already stored under `key`, or store
      `e` there. */
  function Reg(m: Mgr, key: Key, e: Entry): (r: (Entry, bool, Mgr))
    ensures r.1 <==> key in m.m
    ensures r.1 ==> r.0 == m.m[key] && r.2 == m
    ensures !r.1 ==> r.0 == e && key in r.2.m && r.2.m[key] == e
    ensures r.2.m.Keys == m.m.Keys + {key}
    ensures forall j | j in m.m :: r.2.m[j] == m.m[j]
    ensures r.2 == m.(m := r.2.m)
  {
    if key in m.m then (m.m[key], true, m) else (e, false, m.(m := m.m[key := e]))
  }

  /** `unreg`: delete `key`; a nil key does nothing. */
  function Unreg(m: Mgr, key: Option<Key>): (m': Mgr)
    ensures key.None? ==> m' == m
    ensures key.Some? ==> m'.m.Keys == m.m.Keys - {key.value}
    ensures forall j | j in m'.m :: m'.m[j] == m.m[j]
    ensures m' == m.(m := m'.m)
  {
    if key.Some? then m.(m := m.m - {key.value}) else m
  }

  /** `lookup` (`Load`): nil and false for an absent key. */
  function Lookup(m: Mgr, key: Key): (r: Option<Entry>)
    ensures r.None? <==> key !in m.m
    ensures r.Some? ==> r.value == m.m[key]
  {
    if key in m.m then Some(m.m[key]) else None
  }

  /** `svrTerminate`: one actor fewer, and its key leaves the registry. */
  function SvrTerminate(m: Mgr, svr: SvrRef): (m': Mgr)
    ensures m'.countSvr == m.countSvr - 1
    ensures m'.m.Keys == m.m.Keys - {svr.key}
    ensures forall j | j in m'.m :: m'.m[j] == m.m[j]
    ensures m' == m.(m := m'.m, countSvr := m.countSvr - 1)
  {
    Unreg(m.(countSvr := m.countSvr - 1), Some(svr.key))
  }

  /** Replace manager `id`. */
  function Put(t: Tree, id: nat, m: Mgr): Tree {
    t.(mgrs := t.mgrs[id := m])
  }

  /** Replacing a manager by one with the same parent and path keeps the
      tree well formed. */
  lemma PutKeepsValid(t: Tree, id: nat, m: Mgr)
    requires Valid(t) && id in t.mgrs
    requires m.parent == t.mgrs[id].parent && m.path == t.mgrs[id].path
    ensures Valid(Put(t, id, m))
  {
    var t' := Put(t, id, m);
    forall c | c in t'.mgrs && t'.mgrs[c].parent.Some?
      ensures t'.mgrs[c].parent.value in t'.mgrs
      ensures t'.mgrs[c].path == t'.mgrs[t'.mgrs[c].parent.value].path + [t'.mgrs[c].parent.value]
    {
      var q := t'.mgrs[c].parent.value;
      assert t'.mgrs[c].parent == t.mgrs[c].parent && t'.mgrs[c].path == t.mgrs[c].path;
      assert t'.mgrs[q].path == t.mgrs[q].path;
    }
  }

  // ------------------------------------------------------------ id counter

  /** `svrKey`: an explicit key is kept; a nil key becomes the next value of
      the uint64 counter. */
  function SvrKey(t: Tree, k: Option<Key>): (r: (Key, Tree))
    ensures k.Some? ==> r.0 == k.value && r.1 == t
    ensures k.None? ==> r.1 == t.(maxRId := (t.maxRId + 1) % U64Modulus) && r.0 == U64(r.1.maxRId)
    ensures k.None? && t.maxRId + 1 < U64Modulus ==> r.0.u == t.maxRId + 1
  {
    if k.Some? then (k.value, t)
    else
      var n := (t.maxRId + 1) % U64Modulus;
      (U64(n), t.(maxRId := n))
  }

  /** The keys that `n` nil-key spawns receive, in order. */
  function Generate(t: Tree, n: nat): (ks: seq<Key>)
    ensures |ks| == n
    decreases n
  {
    if n == 0 then [] else [SvrKey(t, None).0] + Generate(SvrKey(t, None).1, n - 1)
  }

  /** Before the counter wraps, generated ids are consecutive and strictly
      increasing, and all exceed the counter's starting value. */
  lemma {:induction false} GeneratedIdsIncrease(t: Tree, n: nat)
    requires t.maxRId + n < U64Modulus
    ensures var ks := Generate(t, n);
      forall i | 0 <= i < n :: ks[i] == U64(t.maxRId + 1 + i)
    decreases n
  {
    if n > 0 {
      var t' := SvrKey(t, None).1;
      assert t'.maxRId == t.maxRId + 1;
      GeneratedIdsIncrease(t', n - 1);
      assert Generate(t, n) == [U64(t.maxRId + 1)] + Generate(t', n - 1);
    }
  }

  /** At the top of the uint64 range the next generated id is 0. */
  lemma IdCounterWraps(t: Tree)
    requires t.maxRId == U64Modulus - 1
    ensures SvrKey(t, None).0 == U64(0)
  {
  }

  // -------------------------------------------------------- child managers

  datatype MgrOutcome =
    | Created(id: nat)
    | Existing(id: nat, err: Error)   // the name is taken by a manager
    | NotAManager                     // the name is taken by an actor: `old.(*Mgr)` panics

  /** `newMgr`: register a child named `name` under `parent`. */
  function NewMgr(t: Tree, parent: nat, name: string): (r: (Tree, MgrOutcome))
    requires parent in t.mgrs
    ensures Str(name) in t.mgrs[parent].m ==> r.0 == t
    ensures Str(name) in t.mgrs[parent].m && t.mgrs[parent].m[Str(name)].IsMgr? ==>
              r.1 == Existing(t.mgrs[parent].m[Str(name)].id, Plain(CodeAlreadyHad))
    ensures Str(name) in t.mgrs[parent].m && t.mgrs[parent].m[Str(name)].IsSvr? ==> r.1 == NotAManager
    ensures Str(name) !in t.mgrs[parent].m ==> r.1 == Created(t.next)
    ensures Valid(t) && Str(name) !in t.mgrs[parent].m ==>
              && r.0.next == t.next + 1 && r.0.maxRId == t.maxRId
              && r.0.mgrs.Keys == t.mgrs.Keys + {t.next}
              && var p' := r.0.mgrs[parent];
                 var c := r.0.mgrs[t.next];
              && p'.m == t.mgrs[parent].m[Str(name) := IsMgr(t.next)]
              && p'.countMgr == t.mgrs[parent].countMgr + 1
              && p'.countSvr == t.mgrs[parent].countSvr && p'.wait == t.mgrs[parent].wait
              && (forall d | d in t.mgrs && d != parent :: r.0.mgrs[d] == t.mgrs[d])
              && c.name == name && c.parent == Some(parent) && c.m == map[]
              && c.countSvr == 0 && c.countMgr == 0 && c.wait == 0
    ensures Valid(t) ==> Valid(r.0)
  {
    var p := t.mgrs[parent];
    var (actual, loaded, p1) := Reg(p, Str(name), IsMgr(t.next));
    if loaded then
      (t, if actual.IsMgr? then Existing(actual.id, Plain(CodeAlreadyHad)) else NotAManager)
    else
      var child := Fresh(name, Some(parent), p.path + [parent], false);
      var t1 := Tree(t.mgrs[parent := p1.(countMgr := p.countMgr + 1)][t.next := child], t.maxRId, t.next + 1);
      (t1, Created(t.next))
  }

  /** A child manager starts out cancelled exactly when its parent is. */
  lemma NewMgrInheritsCancellation(t: Tree, parent: nat, name: string)
    requires Valid(t) && parent in t.mgrs && Str(name) !in t.mgrs[parent].m
    ensures var (t', _) := NewMgr(t, parent, name);
      Cancelled(t', t.next) <==> Cancelled(t, parent)
  {
    var (t', _) := NewMgr(t, parent, name);
    var c := t.next;
    assert t'.mgrs[c] == Fresh(name, Some(parent), t.mgrs[parent].path + [parent], false);
    assert t'.mgrs[parent].cancelled == t.mgrs[parent].cancelled;
    ChildCancelledIffParent(t, t', parent, c);
  }

  /** A manager that is not cancelled itself, whose path is its parent's
      path followed by the parent, is cancelled exactly when the parent is,
      as long as the flags of the existing managers are the same. */
  lemma ChildCancelledIffParent(t: Tree, t': Tree, parent: nat, c: nat)
    requires parent in t.mgrs && c in t'.mgrs && !t'.mgrs[c].cancelled
    requires t'.mgrs[c].path == t.mgrs[parent].path + [parent]
    requires forall a | a in t.mgrs && a != c :: a in t'.mgrs && t'.mgrs[a].cancelled == t.mgrs[a].cancelled
    requires c !in t.mgrs && t'.mgrs.Keys == t.mgrs.Keys + {c}
    ensures Cancelled(t', c) <==> Cancelled(t, parent)
  {
    var pp := t.mgrs[parent].path;
    if Cancelled(t', c) {
      var i :| 0 <= i < |pp| + 1 && Ancestor(t', c, i);
      if i < |pp| {
        assert Ancestor(t, parent, i);
      }
    }
    if Cancelled(t, parent) {
      if !t.mgrs[parent].cancelled {
        var i :| 0 <= i < |pp| && Ancestor(t, parent, i);
        assert Ancestor(t', c, i);
      } else {
        assert Ancestor(t', c, |pp|);
      }
    }
  }

  // --------------------------------------------------------------- stopping

  /** First half of `stop`: cancel the manager's context. */
  function StopBegin(t: Tree, id: nat): (t': Tree)
    requires id in t.mgrs
    ensures t'.mgrs.Keys == t.mgrs.Keys && t'.mgrs[id] == t.mgrs[id].(cancelled := true)
    ensures t'.maxRId == t.maxRId && t'.next == t.next
    ensures forall d | d in t.mgrs && d != id :: t'.mgrs[d] == t.mgrs[d]
  {
    Put(t, id, t.mgrs[id].(cancelled := true))
  }

  /** Cancelling a manager cancels every manager below it. */
  lemma StopBeginCancelsDescendants(t: Tree, id: nat, d: nat)
    requires id in t.mgrs && d in t.mgrs
    requires d == id || id in t.mgrs[d].path
    ensures Cancelled(StopBegin(t, id), d)
  {
    var t' := StopBegin(t, id);
    if d != id {
      var i :| 0 <= i < |t.mgrs[d].path| && t.mgrs[d].path[i] == id;
      assert Ancestor(t', d, i);
    }
  }

  datatype StopOutcome =
    | StillWaiting          // `wait.Wait()` blocks: some actor has not signalled completion
    | NilParent             // the root has no parent: `mgr.parent.countMgr` panics
    | Stopped(tree: Tree)   // `stop` returned nil

  /** Second half of `stop`: once the wait group is at zero, one child fewer
      in the parent and the name leaves the parent's registry. */
  function StopFinish(t: Tree, id: nat): (r: StopOutcome)
    requires id in t.mgrs
    requires t.mgrs[id].parent.Some? ==> t.mgrs[id].parent.value in t.mgrs
    ensures t.mgrs[id].wait > 0 <==> r.StillWaiting?
    ensures t.mgrs[id].wait == 0 && t.mgrs[id].parent.None? <==> r.NilParent?
    ensures r.Stopped? ==>
              var p := t.mgrs[id].parent.value;
              && r.tree.mgrs.Keys == t.mgrs.Keys
              && var p' := r.tree.mgrs[p];
              && r.tree.maxRId == t.maxRId && r.tree.next == t.next
              && p' == t.mgrs[p].(m := p'.m, countMgr := t.mgrs[p].countMgr - 1)
              && p'.m.Keys == t.mgrs[p].m.Keys - {Str(t.mgrs[id].name)}
              && forall d | d in t.mgrs && d != p :: r.tree.mgrs[d] == t.mgrs[d]
  {
    var m := t.mgrs[id];
    if m.wait > 0 then StillWaiting
    else if m.parent.None? then NilParent
    else
      var p := t.mgrs[m.parent.value];
      Stopped(Put(t, m.parent.value, Unreg(p.(countMgr := p.countMgr - 1), Some(Str(m.name)))))
  }

  /** A manager shares one registry between child managers and actors:
      once a child named `name` exists, the actor key `Str(name)` is taken. */
  lemma ChildNameTakesActorKey(t: Tree, parent: nat, name: string, s: SvrRef)
    requires Valid(t) && parent in t.mgrs && Str(name) !in t.mgrs[parent].m && s.key == Str(name)
    ensures var (t', _) := NewMgr(t, parent, name);
      var (actual, loaded, _) := Reg(t'.mgrs[parent], s.key, IsSvr(s));
      loaded && actual == IsMgr(t.next)
  {
  }
}
