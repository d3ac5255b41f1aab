/** One actor's message handling (gen_routine/svr.go): the reserved envelopes
    Stop, Call and Exec, forwarding to the user behavior, recovery of panics
    as Crash errors, and the rule that ends the receive loop. The behavior is
    a parameter: what `HandleMsg` returns for a payload, and what an Exec
    target returns for its arguments, each possibly a panic. */
module Actor {
  import opened Base
  import opened Errors

  /** Capacity of the mailbox channel. */
  const ReceiveChanLen: nat := 64

  /** An Exec target: a function value with its declared parameter count. */
  datatype Func = Func(name: string, arity: nat)

  /** A mailbox entry. `replyTo` names the one-shot reply channel of a Call. */
  datatype Msg =
    | MsgStop(reason: Option<Error>)
    | MsgCall(msg: Msg, replyTo: nat)
    | MsgExec(f: Func, args: seq<Value>, isSync: bool)
    | User(payload: Value)

  /** What a user callback did: returned a pair, or panicked. */
  datatype Outcome = Returned(ret: Value, err: Option<Error>) | Panicked(payload: string, stack: string)

  /** What calling an Exec target did: its result list, or a panic. */
  datatype Invocation = Results(values: seq<Value>) | InvokePanicked(payload: string, stack: string)

  datatype Behavior = Behavior(onMsg: Value -> Outcome, invoke: (Func, seq<Value>) -> Invocation)

  /** What the behavior's `Init` did. */
  datatype InitOutcome = InitOk | InitErr(err: Error) | InitPanic(payload: string, stack: string)

  /** One value written to a Call's reply channel. */
  datatype Reply = Reply(to: nat, ret: Value, err: Option<Error>)

  /** The pair `handle` returns and the replies it wrote, in order. */
  datatype Handled = Handled(ret: Value, err: Option<Error>, replies: seq<Reply>)

  /** `behaviorInit`: the one value sent to the starter. Nil on success; an
      `Init` error is wrapped as RoutineInitFail with the error as its cause;
      a panic becomes a Crash error. */
  function BehaviorInit(o: InitOutcome): (reason: Option<Error>)
    ensures reason.None? <==> o.InitOk?
    ensures o.InitErr? ==> reason.value.code == CodeRoutineInitFail && reason.value.last == Some(o.err)
    ensures o.InitPanic? ==> reason.value.code == CodeCrash && reason.value.panicValue == Some(o.payload)
    ensures reason.Some? ==> reason.value.code != CodeOk
  {
    match o
    case InitOk => None
    case InitErr(e) => Some(Error(CodeRoutineInitFail, "", None, Some(e)))
    case InitPanic(p, st) => Some(CrashError(p, st))
  }

  /** `handleExec`: invoke the target; an asynchronous Exec yields nil, nil
      and a synchronous one yields the result list. A panic in the target is
      recovered by `handle` and becomes a Crash error. */
  function HandleExec(f: Func, args: seq<Value>, isSync: bool, b: Behavior): (h: Handled)
    ensures h.replies == []
    ensures b.invoke(f, args).Results? ==> h.err.None?
    ensures b.invoke(f, args).Results? && !isSync ==> h.ret == Nil
    ensures b.invoke(f, args).Results? && isSync ==> h.ret == List(b.invoke(f, args).values)
    ensures b.invoke(f, args).InvokePanicked? ==> h.ret == Nil && h.err.Some? && h.err.value.code == CodeCrash
  {
    match b.invoke(f, args)
    case Results(vs) => if isSync then Handled(List(vs), None, []) else Handled(Nil, None, [])
    case InvokePanicked(p, st) => Handled(Nil, Some(CrashError(p, st)), [])
  }

  /** How deeply Call envelopes are nested. */
  function CallDepth(m: Msg): nat {
    if m.MsgCall? then 1 + CallDepth(m.msg) else 0
  }

  /** `handle`: Stop returns its reason untouched, Call handles the inner
      message and writes its pair to the reply channel, Exec invokes, and
      anything else goes to the behavior. */
  function Handle(m: Msg, b: Behavior): (h: Handled)
    ensures |h.replies| == CallDepth(m)
    ensures m.MsgCall? ==> h.replies[|h.replies| - 1] == Reply(m.replyTo, h.ret, h.err)
    ensures m.User? && b.onMsg(m.payload).Returned? ==>
              h.ret == b.onMsg(m.payload).ret && h.err == b.onMsg(m.payload).err
    ensures m.User? && b.onMsg(m.payload).Panicked? ==>
              h.ret == Nil && h.err == Some(CrashError(b.onMsg(m.payload).payload, b.onMsg(m.payload).stack))
    ensures m.MsgExec? ==> h == HandleExec(m.f, m.args, m.isSync, b)
  {
    match m
    case MsgCall(inner, ch) =>
      var r := Handle(inner, b);
      Handled(r.ret, r.err, r.replies + [Reply(ch, r.ret, r.err)])
    case MsgStop(reason) => Handled(Nil, reason, [])
    case MsgExec(f, args, isSync) => HandleExec(f, args, isSync, b)
    case User(v) =>
      match b.onMsg(v)
      case Returned(ret, err) => Handled(ret, err, [])
      case Panicked(p, st) => Handled(Nil, Some(CrashError(p, st)), [])
  }

  /** An asynchronous Exec whose target panics ends the actor's loop with a
      Crash error and replies to nobody; one whose target returns leaves the
      loop running. */
  lemma AsyncExecOutcomes(f: Func, args: seq<Value>, b: Behavior)
    ensures var h := Handle(MsgExec(f, args, false), b);
      && h.ret == Nil && h.replies == []
      && (b.invoke(f, args).InvokePanicked? ==> EndsLoop(h.err) && h.err.value.code == CodeCrash)
      && (b.invoke(f, args).Results? ==> !EndsLoop(h.err))
  {
  }

  /** A Call returns the pair of the message it wraps, and writes the inner
      message's replies before its own. */
  lemma CallHandlesInner(inner: Msg, ch: nat, b: Behavior)
    ensures var h := Handle(MsgCall(inner, ch), b);
      && h.ret == Handle(inner, b).ret && h.err == Handle(inner, b).err
      && h.replies == Handle(inner, b).replies + [Reply(ch, h.ret, h.err)]
  {
  }

  /** Handling a Stop does not consult the behavior. */
  lemma StopIgnoresBehavior(reason: Option<Error>, b1: Behavior, b2: Behavior)
    ensures Handle(MsgStop(reason), b1) == Handle(MsgStop(reason), b2)
    ensures Handle(MsgStop(reason), b1) == Handled(Nil, reason, [])
  {
  }

  /** A Call writes exactly one reply to its own channel, carrying the pair
      the call returns. */
  lemma {:induction false} CallRepliesOnce(inner: Msg, ch: nat, b: Behavior)
    requires !inner.MsgCall?
    ensures var h := Handle(MsgCall(inner, ch), b);
      h.replies == [Reply(ch, h.ret, h.err)] && h.ret == Handle(inner, b).ret && h.err == Handle(inner, b).err
  {
    assert Handle(inner, b).replies == [];
  }

  /** The loop stops at a handled message whose error is non-nil with a code
      other than Ok. */
  predicate EndsLoop(err: Option<Error>) {
    err.Some? && err.value.code != CodeOk
  }

  // --------------------------------------------------------- actor states

  /** `Exited` is reached when the loop has ended (the wait group is already
      signalled); `Finalized` once `Terminate` and `svrTerminate` have run.
      `Blocked` means stuck forever sending a reply nobody receives. */
  datatype Status = Running | Blocked(chan: nat) | Exited(reason: Error) | Finalized(reason: Error)

  datatype ActorState = ActorState(mailbox: seq<Msg>, status: Status)

  datatype StepResult = StepResult(state: ActorState, delivered: seq<Reply>)

  /** Index of the first reply whose channel has no waiting receiver, or the
      number of replies when every receiver waits. */
  function FirstDead(rs: seq<Reply>, live: set<nat>): (k: nat)
    ensures k <= |rs|
    ensures forall i | 0 <= i < k :: rs[i].to in live
    ensures k < |rs| ==> rs[k].to !in live
  {
    if rs == [] then 0
    else if rs[0].to !in live then 0
    else 1 + FirstDead(rs[1..], live)
  }

  /** One turn of the receive loop that takes the next mailbox entry. `live`
      holds the reply channels whose caller is still waiting; a reply to any
      other channel blocks the actor for good (the channel is unbuffered). */
  function Step(s: ActorState, b: Behavior, live: set<nat>): (r: StepResult)
    ensures !s.status.Running? || s.mailbox == [] ==> r == StepResult(s, [])
    ensures s.status.Running? && s.mailbox != [] ==> r.state.mailbox == s.mailbox[1..]
  {
    if !s.status.Running? || s.mailbox == [] then StepResult(s, [])
    else
      var h := Handle(s.mailbox[0], b);
      var rest := s.mailbox[1..];
      var k := FirstDead(h.replies, live);
      if k < |h.replies| then StepResult(ActorState(rest, Blocked(h.replies[k].to)), h.replies[..k])
      else if EndsLoop(h.err) then StepResult(ActorState(rest, Exited(h.err.value)), h.replies)
      else StepResult(ActorState(rest, Running), h.replies)
  }

  /** A turn delivers the handled message's replies in order until one meets
      a channel with no receiver, where the actor blocks; otherwise it exits
      exactly when the handled error ends the loop, with that error. */
  lemma StepSpec(s: ActorState, b: Behavior, live: set<nat>)
    requires s.status.Running? && s.mailbox != []
    ensures var r := Step(s, b, live);
      var h := Handle(s.mailbox[0], b);
      && (forall i | 0 <= i < |r.delivered| :: r.delivered[i].to in live)
      && StartsWith(h.replies, r.delivered)
      && (r.delivered == h.replies <==> !r.state.status.Blocked?)
      && (r.state.status.Exited? <==> r.delivered == h.replies && EndsLoop(h.err))
      && (r.state.status.Exited? ==> Some(r.state.status.reason) == h.err)
      && !r.state.status.Finalized?
  {
  }

  /** A running actor whose mailbox holds one Call of a plain message
      answers the caller if it still waits, and otherwise blocks on the
      reply for good. */
  lemma StepAnswersCall(msg: Msg, c: nat, b: Behavior, live: set<nat>)
    requires !msg.MsgCall?
    ensures var h := Handle(msg, b);
      var st := Step(ActorState([MsgCall(msg, c)], Running), b, live);
      && st.state.mailbox == []
      && (c in live ==> st.delivered == [Reply(c, h.ret, h.err)])
      && (c !in live ==> st.delivered == [] && st.state.status == Blocked(c))
  {
    CallRepliesOnce(msg, c, b);
    var h := Handle(MsgCall(msg, c), b);
    if c in live {
      assert FirstDead(h.replies, live) == 1;
    } else {
      assert FirstDead(h.replies, live) == 0;
    }
  }

  /** The `ctx.Done()` branch of the loop's select. */
  function Cancel(s: ActorState): (s': ActorState)
    ensures s.status.Running? ==> s' == ActorState(s.mailbox, Exited(Plain(CodeCtxDone)))
    ensures !s.status.Running? ==> s' == s
  {
    if s.status.Running? then s.(status := Exited(Plain(CodeCtxDone))) else s
  }

  datatype Run = Run(state: ActorState, handled: seq<Msg>, delivered: seq<Reply>)

  /** Up to `n` turns of the loop, with no cancellation. */
  function RunN(s: ActorState, b: Behavior, live: set<nat>, n: nat): (r: Run)
    ensures |r.handled| <= n && |r.handled| <= |s.mailbox|
    ensures |r.state.mailbox| == |s.mailbox| - |r.handled|
    ensures !s.status.Running? ==> r == Run(s, [], [])
    decreases n
  {
    if n == 0 || !s.status.Running? || s.mailbox == [] then Run(s, [], [])
    else
      var st := Step(s, b, live);
      var m := s.mailbox[0];
      assert st.state.mailbox == s.mailbox[1..];
      if !st.state.status.Running? then Run(st.state, [m], st.delivered)
      else
        var rest := RunN(st.state, b, live, n - 1);
        Run(rest.state, [m] + rest.handled, st.delivered + rest.delivered)
  }

  /** The loop handles a prefix of its mailbox, in order, and leaves the
      rest queued. */
  lemma {:induction false} RunHandlesPrefix(s: ActorState, b: Behavior, live: set<nat>, n: nat)
    ensures var r := RunN(s, b, live, n);
      r.handled == s.mailbox[..|r.handled|] && r.state.mailbox == s.mailbox[|r.handled|..]
    decreases n
  {
    if n > 0 && s.status.Running? && s.mailbox != [] {
      RunUnfolds(s, b, live, n);
      var st := Step(s, b, live);
      if st.state.status.Running? {
        RunHandlesPrefix(st.state, b, live, n - 1);
        var rest := RunN(st.state, b, live, n - 1);
        ConsSlices(s.mailbox, st.state.mailbox, |rest.handled|);
      }
    }
  }

  /** Slicing a sequence after its head is slicing its tail. */
  lemma ConsSlices<T>(xs: seq<T>, ys: seq<T>, k: nat)
    requires xs != [] && ys == xs[1..] && k <= |ys|
    ensures xs[..1 + k] == [xs[0]] + ys[..k] && xs[1 + k..] == ys[k..]
  {
  }

  /** Every message but the last leaves the loop running. */
  predicate ContinuesBeforeLast(ms: seq<Msg>, b: Behavior) {
    forall j | 0 <= j < |ms| - 1 :: !EndsLoop(Handle(ms[j], b).err)
  }

  /** Every message handled before the last one left the loop running. */
  lemma {:induction false} RunContinuesBeforeLast(s: ActorState, b: Behavior, live: set<nat>, n: nat)
    requires s.status.Running?
    ensures ContinuesBeforeLast(RunN(s, b, live, n).handled, b)
    decreases n
  {
    if n > 0 && s.mailbox != [] {
      var st := Step(s, b, live);
      var m := s.mailbox[0];
      if st.state.status.Running? {
        StepSpec(s, b, live);
        assert !EndsLoop(Handle(m, b).err);
        RunContinuesBeforeLast(st.state, b, live, n - 1);
        var rest := RunN(st.state, b, live, n - 1).handled;
        var hs := RunN(s, b, live, n).handled;
        assert hs == [m] + rest;
        forall j | 0 <= j < |hs| - 1
          ensures !EndsLoop(Handle(hs[j], b).err)
        {
          if j > 0 {
            assert hs[j] == rest[j - 1];
          }
        }
      }
    }
  }

  /** The loop exits with exactly the error of the last message it handled;
      it is still running only when the turns or the mailbox ran out, and
      then the last message left it running. */
  lemma RunStopsAtLast(s: ActorState, b: Behavior, live: set<nat>, n: nat)
    requires s.status.Running?
    ensures var r := RunN(s, b, live, n);
      && (r.state.status.Exited? ==>
           |r.handled| > 0 && Some(r.state.status.reason) == Handle(r.handled[|r.handled| - 1], b).err)
      && (r.state.status.Running? ==>
           (|r.handled| == n || r.state.mailbox == []) &&
           (|r.handled| > 0 ==> !EndsLoop(Handle(r.handled[|r.handled| - 1], b).err)))
      && !r.state.status.Finalized?
  {
    RunExitsWithLastError(s, b, live, n);
    RunStillRunning(s, b, live, n);
    RunLastContinues(s, b, live, n);
  }

  /** A run that exited did so with its last message's error, and no run
      finalizes. */
  predicate ExitedOnLast(r: Run, b: Behavior) {
    && (r.state.status.Exited? ==>
         |r.handled| > 0 && Some(r.state.status.reason) == Handle(r.handled[|r.handled| - 1], b).err)
    && !r.state.status.Finalized?
  }

  /** A run still going has used up its `n` turns or its mailbox. */
  predicate OutOfWork(r: Run, n: nat) {
    r.state.status.Running? ==> |r.handled| == n || r.state.mailbox == []
  }

  /** A run still going was left running by its last message. */
  predicate LastLeftRunning(r: Run, b: Behavior) {
    r.state.status.Running? && |r.handled| > 0 ==> !EndsLoop(Handle(r.handled[|r.handled| - 1], b).err)
  }

  /** The exit half of `RunStopsAtLast`. */
  lemma {:induction false} RunExitsWithLastError(s: ActorState, b: Behavior, live: set<nat>, n: nat)
    requires s.status.Running?
    ensures ExitedOnLast(RunN(s, b, live, n), b)
    decreases n
  {
    if n > 0 && s.mailbox != [] {
      var st := Step(s, b, live);
      var r := RunN(s, b, live, n);
      RunUnfolds(s, b, live, n);
      if st.state.status.Running? {
        RunExitsWithLastError(st.state, b, live, n - 1);
        var rest := RunN(st.state, b, live, n - 1);
        if |rest.handled| > 0 {
          assert r.handled[|r.handled| - 1] == rest.handled[|rest.handled| - 1];
        }
      } else {
        StepSpec(s, b, live);
      }
    }
  }

  /** One turn of `RunN` taken off the front. */
  lemma RunUnfolds(s: ActorState, b: Behavior, live: set<nat>, n: nat)
    requires n > 0 && s.status.Running? && s.mailbox != []
    ensures var st := Step(s, b, live);
      var r := RunN(s, b, live, n);
      if st.state.status.Running? then
        var rest := RunN(st.state, b, live, n - 1);
        r == Run(rest.state, [s.mailbox[0]] + rest.handled, st.delivered + rest.delivered)
      else r == Run(st.state, [s.mailbox[0]], st.delivered)
  {
  }

  /** A run that is still going has used up its turns or its mailbox. */
  lemma {:induction false} RunStillRunning(s: ActorState, b: Behavior, live: set<nat>, n: nat)
    requires s.status.Running?
    ensures OutOfWork(RunN(s, b, live, n), n)
    decreases n
  {
    if n > 0 && s.mailbox != [] {
      RunUnfolds(s, b, live, n);
      var st := Step(s, b, live);
      if st.state.status.Running? {
        RunStillRunning(st.state, b, live, n - 1);
      }
    }
  }

  /** A run that is still going was left running by its last message. */
  lemma {:induction false} RunLastContinues(s: ActorState, b: Behavior, live: set<nat>, n: nat)
    requires s.status.Running?
    ensures LastLeftRunning(RunN(s, b, live, n), b)
    decreases n
  {
    if n > 0 && s.mailbox != [] {
      RunUnfolds(s, b, live, n);
      var st := Step(s, b, live);
      if st.state.status.Running? {
        RunLastContinues(st.state, b, live, n - 1);
        var r := RunN(s, b, live, n);
        var rest := RunN(st.state, b, live, n - 1);
        if |rest.handled| > 0 {
          LastOfConcat([s.mailbox[0]], rest.handled);
        } else {
          StepKeepsRunning(s, b, live);
        }
      }
    }
  }

  /** The last element of a concatenation with a non-empty tail is the
      tail's last. */
  lemma LastOfConcat<T>(xs: seq<T>, ys: seq<T>)
    requires ys != []
    ensures (xs + ys)[|xs + ys| - 1] == ys[|ys| - 1]
  {
  }

  /** A step that leaves the actor running handled a message whose error
      does not end the loop. */
  lemma StepKeepsRunning(s: ActorState, b: Behavior, live: set<nat>)
    requires s.status.Running? && s.mailbox != []
    requires Step(s, b, live).state.status.Running?
    ensures !EndsLoop(Handle(s.mailbox[0], b).err)
  {
    StepSpec(s, b, live);
  }

  /** Messages are handled in mailbox order: two entries sent one after the
      other are handled in that order, with nothing in between. */
  lemma {:induction false} FifoOrder(s: ActorState, b: Behavior, live: set<nat>, n: nat, m1: Msg, m2: Msg)
    requires s.status.Running?
    ensures var s2 := s.(mailbox := s.mailbox + [m1, m2]);
      var r := RunN(s2, b, live, n);
      |r.handled| > |s.mailbox| + 1 ==> r.handled[|s.mailbox|] == m1 && r.handled[|s.mailbox| + 1] == m2
  {
    var s2 := s.(mailbox := s.mailbox + [m1, m2]);
    var r := RunN(s2, b, live, n);
    RunHandlesPrefix(s2, b, live, n);
    if |r.handled| > |s.mailbox| + 1 {
      assert r.handled[|s.mailbox|] == s2.mailbox[|s.mailbox|];
      assert r.handled[|s.mailbox| + 1] == s2.mailbox[|s.mailbox| + 1];
    }
  }

  /** A stuck actor never handles anything again and never notices
      cancellation, so its manager's wait group never reaches zero. */
  lemma BlockedIsForever(s: ActorState, b: Behavior, live: set<nat>, n: nat)
    requires s.status.Blocked?
    ensures RunN(s, b, live, n).state == s && Cancel(s) == s
  {
  }

  // ------------------------------------------------------------ terminating

  /** What the behavior's `Terminate` did. */
  datatype TerminateOutcome = TerminateReturned | TerminatePanicked(payload: string, stack: string)

  /** The result of `svr.stop`: nil, or the Crash error of a recovered panic.
      The loop discards it; `svrTerminate` runs in both cases. */
  function StopResult(o: TerminateOutcome): (ret: Option<Error>)
    ensures ret.None? <==> o.TerminateReturned?
    ensures o.TerminatePanicked? ==> ret.value.code == CodeCrash && ret.value.panicValue == Some(o.payload)
  {
    match o
    case TerminateReturned => None
    case TerminatePanicked(p, st) => Some(CrashError(p, st))
  }
}
