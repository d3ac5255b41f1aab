/** The public operations of gen_routine (routine.go) together with the
    actor-spawning glue of mgr.go (`newSvr`, `svrTerminate`), as steps of a
    state machine over a world of managers, actors and Call reply channels.

    Goroutines become explicit steps: the caller's side of an operation is
    one function, and each turn of an actor's receive loop (`ActorStep`), its
    noticing cancellation (`ObserveCancel`) and its final clean-up
    (`Finalize`) are others, which may interleave in any order. A send to a
    full mailbox is reported as not sent and leaves the world as it was:
    the sender would wait there until the actor makes room. */
module Runtime {
  import opened Base
  import opened Errors
  import opened Manager
  import opened Actor

  /** A Call's reply channel, seen from its caller: still waiting, answered,
      or given up after a timeout (nobody will ever receive on it). */
  datatype Slot = Waiting | Answered(ret: Value, err: Option<Error>) | Abandoned

  /** An actor: its identity and the state of its receive loop. */
  datatype Svr = Svr(ref: SvrRef, state: ActorState)

  /** `svrs` is indexed by serial; `chans` holds every reply channel made so
      far and `nextChan` names the next one. */
  datatype World = World(tree: Tree, svrs: map<nat, Svr>, chans: map<nat, Slot>, nextChan: nat)

  /** `BeforeMain`'s manager half: the root manager and nothing else. */
  function Boot(): (w: World)
    ensures Wf(w) && w.svrs == map[] && RootId in w.tree.mgrs
  {
    var w := World(InitRoot(), map[], map[], 0);
    assert LiveOf(w.svrs, RootId) == {};
    w
  }

  // ----------------------------------------------------------- well-formed

  /** An actor that has not yet called `wait.Done()`: its loop is running,
      or stuck sending a reply. */
  predicate Live(st: Status) {
    st.Running? || st.Blocked?
  }

  /** The serials of manager `id`'s actors that have not signalled its wait
      group. */
  function LiveOf(svrs: map<nat, Svr>, id: nat): set<nat> {
    set s | s in svrs && svrs[s].ref.owner == id && Live(svrs[s].state.status)
  }

  /** Identities are consistent, every owner exists, every mailbox is within
      its capacity. */
  ghost predicate Shaped(w: World) {
    && Valid(w.tree)
    && (forall s | s in w.svrs ::
          && s < w.tree.next && w.svrs[s].ref.serial == s
          && w.svrs[s].ref.owner in w.tree.mgrs
          && |w.svrs[s].state.mailbox| <= ReceiveChanLen)
    && (forall c | c in w.chans :: c < w.nextChan)
  }

  /** Every manager's wait-group counter is the number of its live actors. */
  ghost predicate Counted(w: World) {
    forall id | id in w.tree.mgrs :: w.tree.mgrs[id].wait == |LiveOf(w.svrs, id)|
  }

  ghost predicate Wf(w: World) {
    Shaped(w) && Counted(w)
  }

  /** Replacing one actor changes the live set of its owner by that actor
      only, and no other manager's. */
  lemma LiveOfUpdate(svrs: map<nat, Svr>, s: nat, x: Svr, id: nat)
    ensures LiveOf(svrs[s := x], id) ==
            (LiveOf(svrs, id) - {s}) + (if x.ref.owner == id && Live(x.state.status) then {s} else {})
  {
  }

  /** Replacing actor `s` by `x` of the same owner moves the owner's live
      count by the change in `s`'s liveness, and no other manager's. */
  lemma LiveCountAfterUpdate(svrs: map<nat, Svr>, s: nat, x: Svr, id: nat)
    requires s in svrs ==> svrs[s].ref.owner == x.ref.owner
    ensures |LiveOf(svrs[s := x], id)| ==
            |LiveOf(svrs, id)| + (if id != x.ref.owner then 0
                                  else (if Live(x.state.status) then 1 else 0) - (if s in LiveOf(svrs, id) then 1 else 0))
  {
    LiveOfUpdate(svrs, s, x, id);
    var before := LiveOf(svrs, id);
    var removed := before - {s};
    var added: set<nat> := if x.ref.owner == id && Live(x.state.status) then {s} else {};
    assert |removed| == |before| - (if s in before then 1 else 0);
    assert |removed + added| == |removed| + |added|;
    assert id != x.ref.owner ==> s !in before;
  }

  /** Replacing actor `s` by `x` keeps the counters exact, provided the
      owner's counter moved with `s`'s liveness and no other counter moved. */
  lemma CountedAfterUpdate(w: World, w': World, s: nat, x: Svr)
    requires Counted(w)
    requires w'.svrs == w.svrs[s := x]
    requires w'.tree.mgrs.Keys == w.tree.mgrs.Keys
    requires s in w.svrs ==> w.svrs[s].ref.owner == x.ref.owner
    requires forall id | id in w.tree.mgrs && id != x.ref.owner :: w'.tree.mgrs[id].wait == w.tree.mgrs[id].wait
    requires x.ref.owner in w.tree.mgrs ==>
               w'.tree.mgrs[x.ref.owner].wait ==
               w.tree.mgrs[x.ref.owner].wait - (if s in LiveOf(w.svrs, x.ref.owner) then 1 else 0)
                                             + (if Live(x.state.status) then 1 else 0)
    ensures Counted(w')
  {
    forall id | id in w'.tree.mgrs
      ensures w'.tree.mgrs[id].wait == |LiveOf(w'.svrs, id)|
    {
      LiveCountAfterUpdate(w.svrs, s, x, id);
    }
  }

  // ------------------------------------------------------------- spawning

  datatype SvrOutcome =
    | Started(svr: SvrRef)
    | AlreadyHad(holder: SvrRef, err: Error)   // the key is taken by an actor
    | NotAnActor                            // the key is taken by a child manager: `old.(*Svr)` panics
    | InitFailed(err: Error)                // `Init` failed or panicked

  /** `wait.Done()` on manager `id`. A wait-group counter never goes below
      zero (Go panics there); in a well-formed world it is positive here. */
  function Done(t: Tree, id: nat): (t': Tree)
    requires id in t.mgrs
    ensures t'.mgrs.Keys == t.mgrs.Keys
    ensures t.mgrs[id].wait > 0 ==> t'.mgrs[id] == t.mgrs[id].(wait := t.mgrs[id].wait - 1)
    ensures forall d | d in t.mgrs && d != id :: t'.mgrs[d] == t.mgrs[d]
  {
    var m := t.mgrs[id];
    Put(t, id, m.(wait := if m.wait == 0 then 0 else m.wait - 1))
  }

  /** `newSvr` on manager `mgr` with key `k` (nil: generate one), for a
      behavior whose `Init` does `init`. The key is registered before the
      loop starts; a failed `Init` ends the loop at once (the wait group goes
      up and back down) and `newSvr` removes the key again. */
  function NewSvr(w: World, mgr: nat, k: Option<Key>, init: InitOutcome): (r: (World, SvrOutcome))
    requires mgr in w.tree.mgrs
    ensures var (key, t1) := SvrKey(w.tree, k);
      var m := w.tree.mgrs[mgr];
      && r.0.tree.maxRId == t1.maxRId
      && r.0.chans == w.chans && r.0.nextChan == w.nextChan
      && (r.1.Started? <==> key !in m.m && init.InitOk?)
      && (r.1.InitFailed? <==> key !in m.m && !init.InitOk?)
      && (key in m.m ==> r.0 == w.(tree := t1))
      && (key in m.m && m.m[key].IsSvr? ==> r.1 == AlreadyHad(m.m[key].svr, Plain(CodeAlreadyHad)))
      && (key in m.m && m.m[key].IsMgr? ==> r.1 == NotAnActor)
      && (r.1.InitFailed? ==> Some(r.1.err) == BehaviorInit(init))
  {
    var (key, t1) := SvrKey(w.tree, k);
    var m := t1.mgrs[mgr];
    var ref := SvrRef(t1.next, key, mgr);
    var (actual, loaded, m1) := Reg(m, key, IsSvr(ref));
    if loaded then
      (w.(tree := t1), if actual.IsSvr? then AlreadyHad(actual.svr, Plain(CodeAlreadyHad)) else NotAnActor)
    else
      var t2 := t1.(next := t1.next + 1);
      match BehaviorInit(init)
      case Some(reason) =>
        var svr := Svr(ref, ActorState([], Exited(reason)));
        (World(Put(t2, mgr, Unreg(m1, Some(key))), w.svrs[ref.serial := svr], w.chans, w.nextChan),
         InitFailed(reason))
      case None =>
        var svr := Svr(ref, ActorState([], Running));
        (World(Put(t2, mgr, m1.(countSvr := m1.countSvr + 1, wait := m1.wait + 1)),
               w.svrs[ref.serial := svr], w.chans, w.nextChan),
         Started(ref))
  }

  /** A started actor is registered under its key, counted, and running with
      an empty mailbox; a failed start leaves the registry and the count as
      they were but keeps the exited actor around until it finalizes. */
  lemma NewSvrEffect(w: World, mgr: nat, k: Option<Key>, init: InitOutcome)
    requires Wf(w) && mgr in w.tree.mgrs
    ensures var (w', o) := NewSvr(w, mgr, k, init);
      var key := SvrKey(w.tree, k).0;
      var m := w.tree.mgrs[mgr];
      && (o.Started? ==>
            && o.svr == SvrRef(w.tree.next, key, mgr)
            && w.tree.next !in w.svrs
            && mgr in w'.tree.mgrs
            && Lookup(w'.tree.mgrs[mgr], key) == Some(IsSvr(o.svr))
            && w'.tree.mgrs[mgr].countSvr == m.countSvr + 1
            && w'.svrs == w.svrs[w.tree.next := Svr(o.svr, ActorState([], Running))])
      && (o.InitFailed? ==>
            && mgr in w'.tree.mgrs
            && w'.tree.mgrs[mgr].m == m.m
            && w'.tree.mgrs[mgr].countSvr == m.countSvr
            && w'.svrs == w.svrs[w.tree.next := Svr(SvrRef(w.tree.next, key, mgr), ActorState([], Exited(o.err)))])
  {
    assert w.tree.next !in w.svrs;
  }

  lemma NewSvrKeepsWf(w: World, mgr: nat, k: Option<Key>, init: InitOutcome)
    requires Wf(w) && mgr in w.tree.mgrs
    ensures Wf(NewSvr(w, mgr, k, init).0)
  {
    var (w', o) := NewSvr(w, mgr, k, init);
    var t1 := SvrKey(w.tree, k).1;
    if o.Started? || o.InitFailed? {
      SpawnKeepsWf(w, w', mgr, t1);
    } else {
      assert forall id | id in w'.tree.mgrs :: w'.tree.mgrs[id] == w.tree.mgrs[id];
    }
  }

  /** Adding the actor with the next serial to manager `mgr`, with the wait
      counter moved by its liveness, keeps the world well formed. */
  lemma SpawnKeepsWf(w: World, w': World, mgr: nat, t1: Tree)
    requires Wf(w) && mgr in w.tree.mgrs
    requires t1 == w.tree.(maxRId := t1.maxRId) && t1.maxRId < U64Modulus
    requires var s := t1.next;
      && s in w'.svrs && w'.svrs == w.svrs[s := w'.svrs[s]] && mgr in w'.tree.mgrs
      && w'.svrs[s].ref.serial == s && w'.svrs[s].ref.owner == mgr
      && w'.svrs[s].state.mailbox == []
      && w'.tree == Put(t1.(next := s + 1), mgr, w'.tree.mgrs[mgr])
      && w'.tree.mgrs[mgr].parent == w.tree.mgrs[mgr].parent
      && w'.tree.mgrs[mgr].path == w.tree.mgrs[mgr].path
      && w'.tree.mgrs[mgr].wait == w.tree.mgrs[mgr].wait + (if Live(w'.svrs[s].state.status) then 1 else 0)
    requires w'.chans == w.chans && w'.nextChan == w.nextChan
    ensures Wf(w')
  {
    var s := t1.next;
    assert s !in w.svrs;
    var t2 := t1.(next := s + 1);
    BumpKeepsValid(w.tree, t2);
    PutKeepsValid(t2, mgr, w'.tree.mgrs[mgr]);
    assert s !in LiveOf(w.svrs, mgr);
    CountedAfterUpdate(w, w', s, w'.svrs[s]);
  }

  /** Moving the id counters on keeps a tree valid. */
  lemma BumpKeepsValid(t: Tree, t': Tree)
    requires Valid(t) && t'.mgrs == t.mgrs && t'.next >= t.next && t'.maxRId < U64Modulus
    ensures Valid(t')
  {
  }

  /** `unreg` after a failed start and `svrTerminate` both delete the key; if
      another actor took the key in between, the late `svrTerminate` deletes
      that actor's registration, and the actor count no longer matches the
      running actors. */
  lemma FailedInitEvictsSuccessor(w: World, mgr: nat, key: Key, e: Error)
    requires Wf(w) && mgr in w.tree.mgrs && key !in w.tree.mgrs[mgr].m
    ensures var (w1, o1) := NewSvr(w, mgr, Some(key), InitErr(e));
      var (w2, o2) := NewSvr(w1, mgr, Some(key), InitOk);
      var w3 := Finalize(w2, w.tree.next);
      && o1.InitFailed? && o2.Started? && o2.svr.key == key
      && mgr in w3.tree.mgrs && key !in w3.tree.mgrs[mgr].m
      && o2.svr.serial in w3.svrs && w3.svrs[o2.svr.serial].state.status.Running?
      && w3.tree.mgrs[mgr].countSvr == w.tree.mgrs[mgr].countSvr
  {
    var (w1, o1) := NewSvr(w, mgr, Some(key), InitErr(e));
    NewSvrEffect(w, mgr, Some(key), InitErr(e));
    NewSvrKeepsWf(w, mgr, Some(key), InitErr(e));
    var (w2, o2) := NewSvr(w1, mgr, Some(key), InitOk);
    NewSvrEffect(w1, mgr, Some(key), InitOk);
    assert w2.svrs[w.tree.next].state.status.Exited?;
  }

  /** An explicit uint64 key and a generated id share one key space: the id
      the counter hands out next is refused when a caller already used it. */
  lemma GeneratedIdCollides(w: World, mgr: nat)
    requires mgr in w.tree.mgrs
    requires U64((w.tree.maxRId + 1) % U64Modulus) in w.tree.mgrs[mgr].m
    ensures !NewSvr(w, mgr, None, InitOk).1.Started?
  {
  }

  // ------------------------------------------------------------- sending

  /** The mailbox of actor `serial` has room. */
  predicate HasRoom(w: World, serial: nat)
    requires serial in w.svrs
  {
    |w.svrs[serial].state.mailbox| < ReceiveChanLen
  }

  /** Append `msg` to actor `serial`'s mailbox. */
  function Enqueue(w: World, serial: nat, msg: Msg): (w': World)
    requires serial in w.svrs
    ensures w'.svrs.Keys == w.svrs.Keys
    ensures w'.svrs[serial].state.mailbox == w.svrs[serial].state.mailbox + [msg]
    ensures w'.svrs[serial].state.status == w.svrs[serial].state.status
    ensures w'.svrs[serial].ref == w.svrs[serial].ref
    ensures forall s | s in w.svrs && s != serial :: w'.svrs[s] == w.svrs[s]
    ensures w'.tree == w.tree && w'.chans == w.chans && w'.nextChan == w.nextChan
  {
    var a := w.svrs[serial];
    w.(svrs := w.svrs[serial := a.(state := a.state.(mailbox := a.state.mailbox + [msg]))])
  }

  /** `Cast`: queue `msg` if the mailbox has room, whatever the actor's state
      (a message to an exited actor is never handled). */
  function Cast(w: World, serial: nat, msg: Msg): (r: (World, bool))
    requires serial in w.svrs
    ensures r.1 <==> HasRoom(w, serial)
    ensures r.1 ==> r.0 == Enqueue(w, serial, msg)
    ensures !r.1 ==> r.0 == w
  {
    if HasRoom(w, serial) then (Enqueue(w, serial, msg), true) else (w, false)
  }

  /** `StopSvr`: a Stop envelope through the mailbox. */
  function StopSvr(w: World, serial: nat, reason: Option<Error>): (r: (World, bool))
    requires serial in w.svrs
    ensures r.1 <==> HasRoom(w, serial)
    ensures r.1 ==> serial in r.0.svrs && r.0.svrs[serial].state.mailbox == w.svrs[serial].state.mailbox + [MsgStop(reason)]
  {
    Cast(w, serial, MsgStop(reason))
  }

  lemma EnqueueKeepsWf(w: World, serial: nat, msg: Msg)
    requires Wf(w) && serial in w.svrs && HasRoom(w, serial)
    ensures Wf(Enqueue(w, serial, msg))
  {
    var w' := Enqueue(w, serial, msg);
    CountedAfterUpdate(w, w', serial, w'.svrs[serial]);
  }

  /** `call`'s sending half: a fresh reply channel and a Call envelope. */
  function Call(w: World, serial: nat, msg: Msg): (r: (World, Option<nat>))
    requires serial in w.svrs
    ensures r.1.Some? <==> HasRoom(w, serial)
    ensures r.1.None? ==> r.0 == w
    ensures r.1.Some? ==>
              && r.0.chans == w.chans[r.1.value := Waiting]
              && r.0.nextChan > r.1.value
              && serial in r.0.svrs
              && r.0.svrs[serial].state.mailbox == w.svrs[serial].state.mailbox + [MsgCall(msg, r.1.value)]
  {
    if !HasRoom(w, serial) then (w, None)
    else
      var ch := w.nextChan;
      var w1 := Enqueue(w, serial, MsgCall(msg, ch));
      (w1.(chans := w.chans[ch := Waiting], nextChan := ch + 1), Some(ch))
  }

  /** `call`'s timeout branch: the caller gives up and gets a Timeout
      error; its channel is never read again. */
  function CallTimeout(w: World, ch: nat): (r: (World, Value, Option<Error>))
    requires ch in w.chans && w.chans[ch].Waiting?
    ensures r.1 == Nil && r.2 == Some(Plain(CodeTimeout))
    ensures r.0 == w.(chans := w.chans[ch := Abandoned])
  {
    (w.(chans := w.chans[ch := Abandoned]), Nil, Some(Plain(CodeTimeout)))
  }

  /** `call`'s receiving branch: the pair the actor sent, once it has. */
  function CallResult(w: World, ch: nat): (r: Option<(Value, Option<Error>)>)
    ensures r.Some? <==> ch in w.chans && w.chans[ch].Answered?
    ensures r.Some? ==> r.value == (w.chans[ch].ret, w.chans[ch].err)
  {
    if ch in w.chans && w.chans[ch].Answered? then Some((w.chans[ch].ret, w.chans[ch].err)) else None
  }

  /** In a well-formed world a Call's channel is fresh, and the Call keeps
      the world well formed. */
  lemma CallKeepsWf(w: World, serial: nat, msg: Msg)
    requires Wf(w) && serial in w.svrs
    ensures var (w', ch) := Call(w, serial, msg);
      Wf(w') && (ch.Some? ==> ch.value !in w.chans)
  {
    if HasRoom(w, serial) {
      var ch := w.nextChan;
      var w1 := Enqueue(w, serial, MsgCall(msg, ch));
      EnqueueKeepsWf(w, serial, MsgCall(msg, ch));
      ChansKeepWf(w1, w1.(chans := w.chans[ch := Waiting], nextChan := ch + 1));
    }
  }

  /** Well-formedness constrains the channels only by their numbering. */
  lemma ChansKeepWf(w: World, w': World)
    requires Wf(w) && w'.tree == w.tree && w'.svrs == w.svrs
    requires forall c | c in w'.chans :: c < w'.nextChan
    ensures Wf(w')
  {
  }

  lemma CallTimeoutKeepsWf(w: World, ch: nat)
    requires Wf(w) && ch in w.chans && w.chans[ch].Waiting?
    ensures Wf(CallTimeout(w, ch).0)
  {
  }

  // ------------------------------------------------------------- the actor

  /** The channels whose caller is still waiting. */
  function WaitingChans(chans: map<nat, Slot>): set<nat> {
    set c | c in chans && chans[c].Waiting?
  }

  /** The channels a sequence of replies goes to. */
  function Tos(rs: seq<Reply>): set<nat> {
    set i | 0 <= i < |rs| :: rs[i].to
  }

  /** Hand replies to their callers, in order. */
  function Deliver(chans: map<nat, Slot>, rs: seq<Reply>): (chans': map<nat, Slot>)
    ensures chans'.Keys == chans.Keys + Tos(rs)
    ensures forall c | c in chans && c !in Tos(rs) :: chans'[c] == chans[c]
    ensures |rs| > 0 ==> chans'[rs[|rs| - 1].to] == Answered(rs[|rs| - 1].ret, rs[|rs| - 1].err)
  {
    if rs == [] then chans
    else
      var last := rs[|rs| - 1];
      var init := rs[..|rs| - 1];
      var before := Deliver(chans, init);
      assert Tos(rs) == Tos(init) + {last.to} by {
        forall c | c in Tos(rs) ensures c in Tos(init) + {last.to} {
          var i :| 0 <= i < |rs| && rs[i].to == c;
          if i < |rs| - 1 { assert init[i].to == c; }
        }
        forall c | c in Tos(init) ensures c in Tos(rs) {
          var i :| 0 <= i < |init| && init[i].to == c;
          assert rs[i].to == c;
        }
      }
      before[last.to := Answered(last.ret, last.err)]
  }

  /** One turn of actor `serial`'s receive loop with behavior `b`: handle the
      next message, answer the callers still waiting, and signal the wait
      group if the loop ended. */
  function ActorStep(w: World, serial: nat, b: Behavior): (w': World)
    requires serial in w.svrs && w.svrs[serial].ref.owner in w.tree.mgrs
    ensures w'.svrs.Keys == w.svrs.Keys && w'.svrs[serial].ref == w.svrs[serial].ref
    ensures forall s | s in w.svrs && s != serial :: w'.svrs[s] == w.svrs[s]
    ensures w'.svrs[serial].state == Step(w.svrs[serial].state, b, WaitingChans(w.chans)).state
    ensures w'.chans == Deliver(w.chans, Step(w.svrs[serial].state, b, WaitingChans(w.chans)).delivered)
    ensures w'.nextChan == w.nextChan
  {
    var a := w.svrs[serial];
    var st := Step(a.state, b, WaitingChans(w.chans));
    var w1 := w.(svrs := w.svrs[serial := a.(state := st.state)], chans := Deliver(w.chans, st.delivered));
    if a.state.status.Running? && st.state.status.Exited? then w1.(tree := Done(w.tree, a.ref.owner)) else w1
  }

  /** Replacing an actor by a state of its own loop that is no more alive
      and has no longer a mailbox keeps the world well formed, when the wait
      group is signalled exactly if the actor stopped being live. */
  lemma LoopTurnKeepsWf(w: World, w': World, serial: nat, x: Svr)
    requires Wf(w) && serial in w.svrs
    requires w'.svrs == w.svrs[serial := x] && x.ref == w.svrs[serial].ref
    requires |x.state.mailbox| <= |w.svrs[serial].state.mailbox|
    requires w'.chans.Keys == w.chans.Keys && w'.nextChan == w.nextChan
    requires Live(x.state.status) ==> Live(w.svrs[serial].state.status)
    requires Live(w.svrs[serial].state.status) && !Live(x.state.status) ==> w'.tree == Done(w.tree, x.ref.owner)
    requires Live(w.svrs[serial].state.status) == Live(x.state.status) ==> w'.tree == w.tree
    ensures Wf(w')
  {
    var o := x.ref.owner;
    if Live(w.svrs[serial].state.status) && !Live(x.state.status) {
      assert serial in LiveOf(w.svrs, o);
      PutKeepsValid(w.tree, o, w'.tree.mgrs[o]);
    }
    CountedAfterUpdate(w, w', serial, x);
  }

  lemma ActorStepKeepsWf(w: World, serial: nat, b: Behavior)
    requires Wf(w) && serial in w.svrs
    ensures Wf(ActorStep(w, serial, b))
  {
    var a := w.svrs[serial];
    var st := Step(a.state, b, WaitingChans(w.chans));
    var w' := ActorStep(w, serial, b);
    if a.state.status.Running? && a.state.mailbox != [] {
      StepSpec(a.state, b, WaitingChans(w.chans));
      TosWithin(st.delivered, WaitingChans(w.chans));
    }
    LoopTurnKeepsWf(w, w', serial, w'.svrs[serial]);
  }

  /** Replies sent only to channels of `live` go to no other channel. */
  lemma TosWithin(rs: seq<Reply>, live: set<nat>)
    requires forall i | 0 <= i < |rs| :: rs[i].to in live
    ensures Tos(rs) <= live
  {
  }

  /** The `ctx.Done()` branch: a running actor whose manager (or an ancestor)
      was stopped leaves its loop with a CtxDone reason. */
  function ObserveCancel(w: World, serial: nat): (w': World)
    requires serial in w.svrs && w.svrs[serial].ref.owner in w.tree.mgrs
    ensures var a := w.svrs[serial];
      && (a.state.status.Running? && Cancelled(w.tree, a.ref.owner) ==>
            && w'.svrs == w.svrs[serial := a.(state := a.state.(status := Exited(Plain(CodeCtxDone))))]
            && w'.tree == Done(w.tree, a.ref.owner))
      && (!a.state.status.Running? || !Cancelled(w.tree, a.ref.owner) ==> w' == w)
  {
    var a := w.svrs[serial];
    if a.state.status.Running? && Cancelled(w.tree, a.ref.owner) then
      w.(svrs := w.svrs[serial := a.(state := Cancel(a.state))], tree := Done(w.tree, a.ref.owner))
    else w
  }

  lemma ObserveCancelKeepsWf(w: World, serial: nat)
    requires Wf(w) && serial in w.svrs
    ensures Wf(ObserveCancel(w, serial))
  {
    var a := w.svrs[serial];
    var w' := ObserveCancel(w, serial);
    if a.state.status.Running? && Cancelled(w.tree, a.ref.owner) {
      LoopTurnKeepsWf(w, w', serial, w'.svrs[serial]);
    }
  }

  /** The loop's deferred clean-up after `wait.Done()`: `Terminate` runs
      (a panic in it is recovered and does not stop what follows), then
      `svrTerminate` counts the actor out and deletes its key. */
  function Finalize(w: World, serial: nat): (w': World)
    requires serial in w.svrs && w.svrs[serial].ref.owner in w.tree.mgrs
    ensures var a := w.svrs[serial];
      && (a.state.status.Exited? ==>
            && w'.svrs == w.svrs[serial := a.(state := a.state.(status := Finalized(a.state.status.reason)))]
            && w'.tree == Put(w.tree, a.ref.owner, SvrTerminate(w.tree.mgrs[a.ref.owner], a.ref))
            && w'.chans == w.chans)
      && (!a.state.status.Exited? ==> w' == w)
  {
    var a := w.svrs[serial];
    match a.state.status
    case Exited(reason) =>
      var m := w.tree.mgrs[a.ref.owner];
      w.(svrs := w.svrs[serial := a.(state := a.state.(status := Finalized(reason)))],
         tree := Put(w.tree, a.ref.owner, SvrTerminate(m, a.ref)))
    case _ => w
  }

  lemma FinalizeKeepsWf(w: World, serial: nat)
    requires Wf(w) && serial in w.svrs
    ensures Wf(Finalize(w, serial))
  {
    var a := w.svrs[serial];
    var w' := Finalize(w, serial);
    if a.state.status.Exited? {
      var o := a.ref.owner;
      var x := w'.svrs[serial];
      PutKeepsValid(w.tree, o, w'.tree.mgrs[o]);
      ReplaceKeepsShaped(w, w', serial, x);
      assert serial !in LiveOf(w.svrs, o);
      CountedAfterUpdate(w, w', serial, x);
    }
  }

  /** Replacing an actor by a state with the same identity and no longer a
      mailbox, in a valid tree with the same managers, keeps the world's
      shape. */
  lemma ReplaceKeepsShaped(w: World, w': World, serial: nat, x: Svr)
    requires Shaped(w) && serial in w.svrs
    requires w'.svrs == w.svrs[serial := x] && x.ref == w.svrs[serial].ref
    requires |x.state.mailbox| <= |w.svrs[serial].state.mailbox|
    requires Valid(w'.tree) && w'.tree.next == w.tree.next && w'.tree.mgrs.Keys == w.tree.mgrs.Keys
    requires w'.chans.Keys == w.chans.Keys && w'.nextChan == w.nextChan
    ensures Shaped(w')
  {
  }

  /** A start whose `Init` failed is still finalized like any other exit, so
      the actor count drops below what it was before the start. */
  lemma FailedInitUndercounts(w: World, mgr: nat, k: Option<Key>, e: Error)
    requires Wf(w) && mgr in w.tree.mgrs && SvrKey(w.tree, k).0 !in w.tree.mgrs[mgr].m
    ensures var (w1, o) := NewSvr(w, mgr, k, InitErr(e));
      var w2 := Finalize(w1, w.tree.next);
      o.InitFailed? && mgr in w2.tree.mgrs && w2.tree.mgrs[mgr].countSvr == w.tree.mgrs[mgr].countSvr - 1
  {
    NewSvrEffect(w, mgr, k, InitErr(e));
    NewSvrKeepsWf(w, mgr, k, InitErr(e));
  }

  // ------------------------------------------------------------ calls

  /** A Call to an idle running actor reaches its caller with exactly the
      pair the handled message produced. */
  lemma CallRoundTrip(w: World, serial: nat, msg: Msg, b: Behavior)
    requires Wf(w) && serial in w.svrs
    requires w.svrs[serial].state == ActorState([], Running)
    requires !msg.MsgCall?
    ensures var (w1, ch) := Call(w, serial, msg);
      && ch.Some?
      && var w2 := ActorStep(w1, serial, b);
      CallResult(w2, ch.value) == Some((Handle(msg, b).ret, Handle(msg, b).err))
  {
    var (w1, ch) := Call(w, serial, msg);
    var c := ch.value;
    assert w1.svrs[serial].state == ActorState([MsgCall(msg, c)], Running);
    assert c in WaitingChans(w1.chans);
    StepAnswersCall(msg, c, b, WaitingChans(w1.chans));
  }

  /** The reply channel is unbuffered: once the caller timed out, the actor
      handling the Call blocks forever on its reply and never signals its
      wait group. */
  lemma TimeoutStrandsActor(w: World, serial: nat, msg: Msg, b: Behavior)
    requires Wf(w) && serial in w.svrs
    requires w.svrs[serial].state == ActorState([], Running)
    requires !msg.MsgCall?
    ensures var (w1, ch) := Call(w, serial, msg);
      && ch.Some?
      && var w2 := CallTimeout(w1, ch.value).0;
      && var w3 := ActorStep(w2, serial, b);
      && w3.svrs[serial].state.status == Blocked(ch.value)
      && serial in LiveOf(w3.svrs, w.svrs[serial].ref.owner)
      && CallResult(w3, ch.value).None?
  {
    var (w1, ch) := Call(w, serial, msg);
    var c := ch.value;
    var w2 := CallTimeout(w1, c).0;
    assert w2.svrs[serial].state == ActorState([MsgCall(msg, c)], Running);
    assert c !in WaitingChans(w2.chans);
    StepAnswersCall(msg, c, b, WaitingChans(w2.chans));
  }

  // ------------------------------------------------------------ managers

  /** `NewMgr` within the world. */
  function WorldNewMgr(w: World, parent: nat, name: string): (r: (World, MgrOutcome))
    requires parent in w.tree.mgrs
    ensures r.0.svrs == w.svrs && r.0.chans == w.chans
    ensures r.0.tree == NewMgr(w.tree, parent, name).0 && r.1 == NewMgr(w.tree, parent, name).1
  {
    var (t, o) := NewMgr(w.tree, parent, name);
    (w.(tree := t), o)
  }

  lemma WorldNewMgrKeepsWf(w: World, parent: nat, name: string)
    requires Wf(w) && parent in w.tree.mgrs
    ensures Wf(WorldNewMgr(w, parent, name).0)
  {
    var w' := WorldNewMgr(w, parent, name).0;
    if Str(name) !in w.tree.mgrs[parent].m {
      assert LiveOf(w.svrs, w.tree.next) == {};
      forall id | id in w'.tree.mgrs
        ensures w'.tree.mgrs[id].wait == |LiveOf(w'.svrs, id)|
      {
        if id != w.tree.next && id != parent {
          assert w'.tree.mgrs[id] == w.tree.mgrs[id];
        }
      }
    }
  }

  /** `StopMgr`'s first half within the world. */
  function WorldStopBegin(w: World, id: nat): (w': World)
    requires id in w.tree.mgrs
    ensures w' == w.(tree := StopBegin(w.tree, id))
    ensures Cancelled(w'.tree, id)
  {
    w.(tree := StopBegin(w.tree, id))
  }

  lemma WorldStopBeginKeepsWf(w: World, id: nat)
    requires Wf(w) && id in w.tree.mgrs
    ensures Wf(WorldStopBegin(w, id))
  {
    var w' := WorldStopBegin(w, id);
    PutKeepsValid(w.tree, id, w'.tree.mgrs[id]);
    assert w'.tree == Put(w.tree, id, w'.tree.mgrs[id]);
  }

  /** `stop` returns only once no actor of the manager is live: one stuck on
      a reply keeps it waiting. An actor that left its loop but has not yet
      run `Terminate` does not hold it up, because the wait group is
      signalled first. */
  lemma StopWaitsForLiveActors(w: World, id: nat)
    requires Wf(w) && id in w.tree.mgrs
    ensures StopFinish(w.tree, id).StillWaiting? <==> LiveOf(w.svrs, id) != {}
  {
  }

  /** The wait group is signalled before `Terminate`: a manager can finish
      stopping while one of its actors' keys is still registered. */
  lemma StopBeforeTerminate(w: World, id: nat, serial: nat)
    requires Wf(w) && id in w.tree.mgrs && w.tree.mgrs[id].parent.Some?
    requires LiveOf(w.svrs, id) == {}
    requires serial in w.svrs && w.svrs[serial].ref.owner == id && w.svrs[serial].state.status.Exited?
    requires w.svrs[serial].ref.key in w.tree.mgrs[id].m
    ensures var r := StopFinish(w.tree, id);
      r.Stopped? && w.svrs[serial].ref.key in r.tree.mgrs[id].m
  {
    assert w.tree.mgrs[id].parent.value != id by {
      var p := w.tree.mgrs[id].parent.value;
      assert |w.tree.mgrs[id].path| == |w.tree.mgrs[p].path| + 1;
    }
  }

  // ------------------------------------------------------------ exec

  datatype ArgCheck = Args(values: seq<Value>) | BadArgs(err: Error)

  /** `execIn`: the argument count must equal the target's parameter count. */
  function ExecIn(f: Func, args: seq<Value>): (r: ArgCheck)
    ensures r.Args? <==> f.arity == |args|
    ensures r.Args? ==> r.values == args
    ensures r.BadArgs? ==>
              && r.err.code == CodeReflectParamsLen && r.err.last.None? && r.err.panicValue.None?
              && StartsWith(r.err.param, "expected : " + IntToDec(f.arity))
              && EndsWith(r.err.param, ", actual : " + IntToDec(|args|))
              && |r.err.param| == |"expected : " + IntToDec(f.arity)| + |", actual : " + IntToDec(|args|)|
  {
    if f.arity != |args| then
      var text := "expected : " + IntToDec(f.arity) + ", actual : " + IntToDec(|args|);
      assert text[..|"expected : " + IntToDec(f.arity)|] == "expected : " + IntToDec(f.arity);
      BadArgs(Error(CodeReflectParamsLen, text, None, None))
    else Args(args)
  }

  datatype ExecStart =
    | Rejected(err: Error)   // the argument check failed; nothing was sent
    | Queued(ch: nat)        // the Exec is in the mailbox; `ch` is its Call channel
    | Sent                   // the asynchronous Exec is in the mailbox
    | Full                   // the mailbox is full: the caller waits

  /** `SyncExec`'s sending half: check the arguments, then Call with a
      synchronous Exec. */
  function SyncExec(w: World, serial: nat, f: Func, args: seq<Value>): (r: (World, ExecStart))
    requires serial in w.svrs
    ensures r.1.Rejected? <==> f.arity != |args|
    ensures r.1.Rejected? ==> r.1.err.code == CodeReflectParamsLen && r.1.err == ExecIn(f, args).err
    ensures !r.1.Rejected? ==> (r.1.Full? <==> !HasRoom(w, serial))
    ensures r.1.Rejected? || r.1.Full? ==> r.0 == w
    ensures r.1.Queued? ==>
              && r.0.chans == w.chans[r.1.ch := Waiting]
              && serial in r.0.svrs
              && r.0.svrs[serial].state.mailbox == w.svrs[serial].state.mailbox + [MsgCall(MsgExec(f, args, true), r.1.ch)]
  {
    match ExecIn(f, args)
    case BadArgs(e) => (w, Rejected(e))
    case Args(vs) =>
      var (w1, ch) := Call(w, serial, MsgExec(f, vs, true));
      if ch.Some? then (w1, Queued(ch.value)) else (w1, Full)
  }

  datatype SyncResult = Values(values: seq<Value>) | CallerPanics

  /** `SyncExec`'s receiving half: the pair the call returned is asserted to
      be a result list. A timeout or a crash brings a nil result, and the
      assertion panics in the caller; the call's error is discarded. */
  function SyncExecFinish(ret: Value, err: Option<Error>): (r: SyncResult)
    ensures r.Values? <==> ret.List?
    ensures r.Values? ==> r.values == ret.items
  {
    if ret.List? then Values(ret.items) else CallerPanics
  }

  /** Whatever the handled Exec did, the caller never sees an error: a
      target that returned gives its values, one that panicked panics the
      caller too, and so does a timeout. */
  lemma SyncExecOutcomes(f: Func, args: seq<Value>, ch: nat, b: Behavior)
    ensures var h := Handle(MsgCall(MsgExec(f, args, true), ch), b);
      && (b.invoke(f, args).Results? ==> SyncExecFinish(h.ret, h.err) == Values(b.invoke(f, args).values))
      && (b.invoke(f, args).InvokePanicked? ==> SyncExecFinish(h.ret, h.err) == CallerPanics)
    ensures SyncExecFinish(Nil, Some(Plain(CodeTimeout))) == CallerPanics
  {
    CallHandlesInner(MsgExec(f, args, true), ch, b);
  }

  /** `ASyncExec`: check the arguments, then Cast an asynchronous Exec. */
  function ASyncExec(w: World, serial: nat, f: Func, args: seq<Value>): (r: (World, ExecStart))
    requires serial in w.svrs
    ensures r.1.Rejected? <==> f.arity != |args|
    ensures r.1.Rejected? ==> r.1.err.code == CodeReflectParamsLen && r.1.err == ExecIn(f, args).err
    ensures !r.1.Rejected? ==> (r.1.Full? <==> !HasRoom(w, serial))
    ensures r.1.Rejected? || r.1.Full? ==> r.0 == w
    ensures r.1.Sent? ==> r.0 == Enqueue(w, serial, MsgExec(f, args, false))
    ensures !r.1.Queued?
  {
    match ExecIn(f, args)
    case BadArgs(e) => (w, Rejected(e))
    case Args(vs) =>
      var (w1, sent) := Cast(w, serial, MsgExec(f, vs, false));
      (w1, if sent then Sent else Full)
  }
}
