/** The async wakeup of src/unix/async.c and the command queue in front of it
    (UVJobs.swift, UVFIFOQueue.swift), as a state machine.

    A step is one atomic operation: a locked enqueue or dequeue, one access to a `pending` or
    `busy` flag, the wakeup write, or one queue operation of the loop thread.  Flags are sequentially
    consistent.  `posted` says that a wakeup was written and the poll has not consumed it yet. */
module Async {
  import opened Basics

  type Command = nat
  type Handle = nat
  type Thread = nat

  datatype Phase = Open | Spinning | Closed

  /** One uv_async_t with its command queue; enqueued and executed are histories. */
  datatype HandleState = HandleState(
    pending: bool, busy: int, phase: Phase, callback: bool,
    queue: seq<Command>, enqueued: seq<Command>, executed: seq<Command>)

  /** Where a thread is in add(command:) and uv_async_send. */
  datatype Pc =
    | Idle
    | Sending(h: Handle)   // enqueued, about to read pending
    | Seen(h: Handle)      // read pending as 0, about to add to busy
    | Entered(h: Handle)   // busy, about to exchange pending
    | Writing(h: Handle)   // the exchange returned 0, about to write the wakeup
    | Leaving(h: Handle)   // about to subtract from busy

  datatype LoopPc =
    | Polling
    | Woken                // the poll returned and the wakeup is consumed
    | Walking              // between two handles of the local queue
    | Calling(h: Handle)   // in the callback of h, draining its command queue

  datatype State = State(
    handles: seq<HandleState>,
    senders: seq<Pc>,
    posted: bool,
    loopPc: LoopPc,
    spin: Option<Handle>,    // the loop thread is in uv__async_spin for this handle
    list: seq<Handle>,       // loop->async_handles
    walk: seq<Handle>)       // the local queue of uv__async_io

  datatype Step =
    | Enqueue(t: Thread, to: Handle, c: Command)
    | Send(t: Thread, to: Handle)
    | Check(t: Thread)
    | Enter(t: Thread)
    | Exchange(t: Thread)
    | Write(t: Thread)
    | Leave(t: Thread)
    | Poll
    | StartWalk
    | Visit
    | Drain
    | Start(callback: bool)
    | BeginClose(to: Handle)
    | EndClose

  // ----- steps

  predicate At(s: State, t: Thread) {
    t < |s.senders| && (s.senders[t] == Idle || s.senders[t].h < |s.handles|)
  }

  predicate Enabled(s: State, step: Step) {
    match step
    case Enqueue(t, h, _) => At(s, t) && s.senders[t] == Idle && h < |s.handles|
    case Send(t, h) => At(s, t) && s.senders[t] == Idle && h < |s.handles|
    case Check(t) => At(s, t) && s.senders[t].Sending?
    case Enter(t) => At(s, t) && s.senders[t].Seen?
    case Exchange(t) => At(s, t) && s.senders[t].Entered?
    case Write(t) => At(s, t) && s.senders[t].Writing?
    case Leave(t) => At(s, t) && s.senders[t].Leaving?
    case Poll => s.spin == None && s.loopPc == Polling && s.posted
    case StartWalk => s.spin == None && s.loopPc == Woken
    case Visit => s.spin == None && s.loopPc == Walking && (s.walk != [] ==> s.walk[0] < |s.handles|)
    case Drain => s.spin == None && s.loopPc.Calling? && s.loopPc.h < |s.handles|
    case Start(_) => s.spin == None
    case BeginClose(h) => s.spin == None && h < |s.handles| && s.handles[h].phase == Open
    case EndClose => s.spin.Some? && s.spin.value < |s.handles| && s.handles[s.spin.value].busy == 0
  }

  function Set(s: State, h: Handle, x: HandleState): State
    requires h < |s.handles|
  {
    s.(handles := s.handles[h := x])
  }

  function Move(s: State, t: Thread, pc: Pc): State
    requires t < |s.senders|
  {
    s.(senders := s.senders[t := pc])
  }

  function Do(s: State, step: Step): State
    requires Enabled(s, step)
  {
    match step
    case Enqueue(t, h, c) =>
      var x := s.handles[h];
      Set(Move(s, t, Sending(h)), h, x.(queue := x.queue + [c], enqueued := x.enqueued + [c]))
    case Send(t, h) => Move(s, t, Sending(h))
    case Check(t) =>
      var h := s.senders[t].h;
      Move(s, t, if s.handles[h].pending then Idle else Seen(h))
    case Enter(t) =>
      var h := s.senders[t].h;
      Set(Move(s, t, Entered(h)), h, s.handles[h].(busy := s.handles[h].busy + 1))
    case Exchange(t) =>
      var h := s.senders[t].h;
      Set(Move(s, t, if s.handles[h].pending then Leaving(h) else Writing(h)), h, s.handles[h].(pending := true))
    case Write(t) => Move(s, t, Leaving(s.senders[t].h)).(posted := true)
    case Leave(t) =>
      var h := s.senders[t].h;
      Set(Move(s, t, Idle), h, s.handles[h].(busy := s.handles[h].busy - 1))
    case Poll => s.(posted := false, loopPc := Woken)
    case StartWalk => s.(loopPc := Walking, walk := s.list, list := [])
    case Visit =>
      if s.walk == [] then s.(loopPc := Polling)
      else
        var h := s.walk[0];
        var x := s.handles[h];
        Set(s, h, x.(pending := false)).(
          walk := s.walk[1..], list := s.list + [h],
          loopPc := if x.pending && x.callback then Calling(h) else Walking)
    case Drain =>
      var h := s.loopPc.h;
      var x := s.handles[h];
      if x.queue == [] then s.(loopPc := Walking)
      else Set(s, h, x.(queue := x.queue[1..], executed := x.executed + [x.queue[0]]))
    case Start(callback) =>
      s.(handles := s.handles + [HandleState(false, 0, Open, callback, [], [], [])], list := s.list + [|s.handles|])
    case BeginClose(h) => Set(s, h, s.handles[h].(pending := true, phase := Spinning)).(spin := Some(h))
    case EndClose =>
      var h := s.spin.value;
      Set(s, h, s.handles[h].(phase := Closed)).(spin := None, list := Without(s.list, h), walk := Without(s.walk, h))
  }

  predicate Initial(s: State) {
    && s.handles == [] && s.list == [] && s.walk == [] && !s.posted && s.spin == None && s.loopPc == Polling
    && forall t :: 0 <= t < |s.senders| ==> s.senders[t] == Idle
  }

  function Run(s: State, steps: seq<Step>): Option<State>
    decreases |steps|
  {
    if steps == [] then Some(s)
    else if Enabled(s, steps[0]) then Run(Do(s, steps[0]), steps[1..]) else None
  }

  ghost predicate Reachable(s: State) {
    exists s0, steps :: Initial(s0) && Run(s0, steps) == Some(s)
  }

  // ----- the invariant

  /** Inside the region that busy protects. */
  predicate Inside(pc: Pc, h: Handle) {
    pc == Entered(h) || pc == Writing(h) || pc == Leaving(h)
  }

  function One(b: bool): (r: int) { if b then 1 else 0 }

  function Count(pcs: seq<Pc>, h: Handle): (r: nat) {
    if pcs == [] then 0 else One(Inside(pcs[0], h)) + Count(pcs[1..], h)
  }

  lemma {:induction false} CountUpdate(pcs: seq<Pc>, t: Thread, x: Pc, h: Handle)
    requires t < |pcs|
    ensures Count(pcs[t := x], h) == Count(pcs, h) - One(Inside(pcs[t], h)) + One(Inside(x, h))
  {
    if t == 0 {
      assert pcs[t := x][1..] == pcs[1..];
    } else {
      assert pcs[t := x][1..] == pcs[1..][t - 1 := x];
      CountUpdate(pcs[1..], t - 1, x, h);
    }
  }

  lemma {:induction false} CountHas(pcs: seq<Pc>, t: Thread, h: Handle)
    requires t < |pcs| && Inside(pcs[t], h)
    ensures Count(pcs, h) >= 1
  {
    if t > 0 {
      CountHas(pcs[1..], t - 1, h);
    }
  }

  lemma {:induction false} CountSome(pcs: seq<Pc>, h: Handle) returns (t: Thread)
    requires Count(pcs, h) >= 1
    ensures t < |pcs| && Inside(pcs[t], h)
  {
    if Inside(pcs[0], h) {
      t := 0;
    } else {
      t := CountSome(pcs[1..], h);
      t := t + 1;
    }
  }

  lemma {:induction false} CountNone(pcs: seq<Pc>, h: Handle)
    requires forall t :: 0 <= t < |pcs| ==> !Inside(pcs[t], h)
    ensures Count(pcs, h) == 0
  {
    if pcs != [] {
      CountNone(pcs[1..], h);
    }
  }

  /** On the way to the exchange that sets the flag of h. */
  predicate Coming(pc: Pc, h: Handle) {
    pc == Sending(h) || pc == Seen(h) || pc == Entered(h)
  }

  predicate SomeComing(pcs: seq<Pc>, h: Handle) {
    exists t :: 0 <= t < |pcs| && Coming(pcs[t], h)
  }

  predicate SomeWriting(pcs: seq<Pc>, h: Handle) {
    exists t :: 0 <= t < |pcs| && pcs[t] == Writing(h)
  }

  lemma Moved(pcs: seq<Pc>, t: Thread, x: Pc, h: Handle)
    requires t < |pcs|
    ensures Coming(x, h) ==> SomeComing(pcs[t := x], h)
    ensures SomeComing(pcs, h) && !Coming(pcs[t], h) ==> SomeComing(pcs[t := x], h)
    ensures x == Writing(h) ==> SomeWriting(pcs[t := x], h)
    ensures SomeWriting(pcs, h) && pcs[t] != Writing(h) ==> SomeWriting(pcs[t := x], h)
    ensures SomeWriting(pcs[t := x], h) ==> x == Writing(h) || SomeWriting(pcs, h)
    ensures Count(pcs[t := x], h) == Count(pcs, h) - One(Inside(pcs[t], h)) + One(Inside(x, h))
  {
    var pcs' := pcs[t := x];
    CountUpdate(pcs, t, x, h);
    assert pcs'[t] == x;
    if SomeComing(pcs, h) && !Coming(pcs[t], h) {
      var u :| 0 <= u < |pcs| && Coming(pcs[u], h);
      assert pcs'[u] == pcs[u];
    }
    if SomeWriting(pcs, h) && pcs[t] != Writing(h) {
      var u :| 0 <= u < |pcs| && pcs[u] == Writing(h);
      assert pcs'[u] == pcs[u];
    }
  }

  /** Commands leave in the order they came. */
  predicate Fifo(s: State, h: Handle)
    requires h < |s.handles|
  {
    s.handles[h].enqueued == s.handles[h].executed + s.handles[h].queue
  }

  /** A queued command will be seen. */
  predicate Noticed(s: State, h: Handle)
    requires h < |s.handles|
  {
    var x := s.handles[h];
    x.phase == Open && x.callback && x.queue != [] ==> x.pending || SomeComing(s.senders, h) || s.loopPc == Calling(h)
  }

  /** A set flag will be seen. */
  predicate WakeupDue(s: State, h: Handle)
    requires h < |s.handles|
  {
    var x := s.handles[h];
    x.phase == Open && x.pending ==> s.posted || SomeWriting(s.senders, h) || s.loopPc == Woken || h in s.walk
  }

  predicate HandleOk(s: State, h: Handle)
    requires h < |s.handles|
  {
    var x := s.handles[h];
    && Fifo(s, h) && Noticed(s, h) && WakeupDue(s, h)
    && x.busy == Count(s.senders, h)
    && (x.phase != Open ==> x.pending)
    && (x.phase == Closed ==> !SomeWriting(s.senders, h))
    && (x.phase == Spinning <==> s.spin == Some(h))
    && (x.phase != Closed <==> h in s.list || h in s.walk)
  }

  /** The lists of the loop and where it is. */
  predicate Lists(s: State) {
    && (s.loopPc.Calling? ==> s.loopPc.h < |s.handles|)
    && (s.loopPc == Polling || s.loopPc == Woken ==> s.walk == [])
    && (s.spin.Some? ==> s.spin.value < |s.handles|)
    && (forall h :: h in s.walk ==> h < |s.handles| && h !in s.list)
    && (forall h :: h in s.list ==> h < |s.handles|)
    && NoDup(s.walk) && NoDup(s.list)
  }

  predicate Shape(s: State) {
    Lists(s) && forall t :: 0 <= t < |s.senders| ==> At(s, t)
  }

  predicate Inv(s: State) {
    Shape(s) && forall h :: 0 <= h < |s.handles| ==> HandleOk(s, h)
  }

  lemma InitInv(s: State)
    requires Initial(s)
    ensures Inv(s)
  {}

  /** The moves of a sender before the exchange. */
  lemma EarlyStep(s: State, step: Step, g: Handle)
    requires Inv(s) && Enabled(s, step) && g < |s.handles|
    requires step.Enqueue? || step.Send? || step.Check? || step.Enter?
    ensures HandleOk(Do(s, step), g)
  {
    assert HandleOk(s, g);
    Moved(s.senders, step.t, Do(s, step).senders[step.t], g);
  }

  lemma ExchangeStep(s: State, t: Thread, g: Handle)
    requires Inv(s) && Enabled(s, Exchange(t)) && g < |s.handles|
    ensures HandleOk(Do(s, Exchange(t)), g)
  {
    assert HandleOk(s, g);
    Moved(s.senders, t, Do(s, Exchange(t)).senders[t], g);
  }

  lemma LateStep(s: State, step: Step, g: Handle)
    requires Inv(s) && Enabled(s, step) && g < |s.handles|
    requires step.Write? || step.Leave?
    ensures HandleOk(Do(s, step), g)
  {
    assert HandleOk(s, g);
    Moved(s.senders, step.t, Do(s, step).senders[step.t], g);
  }

  lemma StartStep(s: State, callback: bool, g: Handle)
    requires Inv(s) && Enabled(s, Start(callback)) && g <= |s.handles|
    ensures HandleOk(Do(s, Start(callback)), g)
  {
    if g < |s.handles| {
      assert HandleOk(s, g);
    } else {
      forall t | 0 <= t < |s.senders|
        ensures !Inside(s.senders[t], g)
      {
        assert At(s, t);
      }
      CountNone(s.senders, g);
    }
  }

  lemma VisitStep(s: State, g: Handle)
    requires Inv(s) && Enabled(s, Visit) && g < |s.handles|
    ensures HandleOk(Do(s, Visit), g)
  {
    assert HandleOk(s, g);
    if s.walk != [] {
      assert s.walk == [s.walk[0]] + s.walk[1..];
      assert HandleOk(s, s.walk[0]);
    }
  }

  lemma DrainStep(s: State, g: Handle)
    requires Inv(s) && Enabled(s, Drain) && g < |s.handles|
    ensures HandleOk(Do(s, Drain), g)
  {
    assert HandleOk(s, g);
  }

  lemma CloseStep(s: State, step: Step, g: Handle)
    requires Inv(s) && Enabled(s, step) && g < |s.handles| && (step.BeginClose? || step.EndClose?)
    ensures HandleOk(Do(s, step), g)
  {
    assert HandleOk(s, g);
    if step.EndClose? {
      WithoutFacts(s.list, s.spin.value);
      WithoutFacts(s.walk, s.spin.value);
      if SomeWriting(s.senders, g) {
        var t :| 0 <= t < |s.senders| && s.senders[t] == Writing(g);
        CountHas(s.senders, t, g);
      }
    }
  }

  lemma StepHandle(s: State, step: Step, g: Handle)
    requires Inv(s) && Enabled(s, step) && g < |Do(s, step).handles|
    ensures HandleOk(Do(s, step), g)
  {
    match step
    case Poll => assert HandleOk(s, g);
    case StartWalk => assert HandleOk(s, g);
    case Visit => VisitStep(s, g);
    case Drain => DrainStep(s, g);
    case Start(callback) => StartStep(s, callback, g);
    case BeginClose(_) => CloseStep(s, step, g);
    case EndClose => CloseStep(s, step, g);
    case Exchange(t) => ExchangeStep(s, t, g);
    case Write(_) => LateStep(s, step, g);
    case Leave(_) => LateStep(s, step, g);
    case _ => EarlyStep(s, step, g);
  }

  lemma VisitLists(s: State)
    requires Lists(s) && Enabled(s, Visit)
    ensures Lists(Do(s, Visit))
  {
    if s.walk != [] {
      NoDupTail(s.walk);
      NoDupSnoc(s.list, s.walk[0]);
    }
  }

  lemma StartLists(s: State, callback: bool)
    requires Lists(s) && Enabled(s, Start(callback))
    ensures Lists(Do(s, Start(callback)))
  {
    NoDupSnoc(s.list, |s.handles|);
  }

  lemma CloseLists(s: State)
    requires Lists(s) && Enabled(s, EndClose)
    ensures Lists(Do(s, EndClose))
  {
    WithoutFacts(s.list, s.spin.value);
    WithoutFacts(s.walk, s.spin.value);
  }

  lemma StepLists(s: State, step: Step)
    requires Lists(s) && Enabled(s, step)
    ensures Lists(Do(s, step))
  {
    match step
    case Visit => VisitLists(s);
    case Start(callback) => StartLists(s, callback);
    case EndClose => CloseLists(s);
    case _ =>
  }

  lemma StepShape(s: State, step: Step)
    requires Inv(s) && Enabled(s, step)
    ensures Shape(Do(s, step))
  {
    StepLists(s, step);
    forall t | 0 <= t < |Do(s, step).senders|
      ensures At(Do(s, step), t)
    {
      StepSender(s, step, t);
    }
  }

  lemma StepSender(s: State, step: Step, t: Thread)
    requires Shape(s) && Enabled(s, step) && t < |Do(s, step).senders|
    ensures At(Do(s, step), t)
  {
    assert At(s, t);
  }

  lemma StepKeeps(s: State, step: Step)
    requires Inv(s) && Enabled(s, step)
    ensures Inv(Do(s, step))
  {
    StepShape(s, step);
    forall g | 0 <= g < |Do(s, step).handles|
      ensures HandleOk(Do(s, step), g)
    {
      StepHandle(s, step, g);
    }
  }

  lemma {:induction false} RunKeeps(s: State, steps: seq<Step>)
    requires Inv(s) && Run(s, steps).Some?
    ensures Inv(Run(s, steps).value)
    decreases |steps|
  {
    if steps != [] {
      StepKeeps(s, steps[0]);
      RunKeeps(Do(s, steps[0]), steps[1..]);
    }
  }

  lemma ReachableInv(s: State)
    requires Reachable(s)
    ensures Inv(s)
  {
    var s0, steps :| Initial(s0) && Run(s0, steps) == Some(s);
    InitInv(s0);
    RunKeeps(s0, steps);
  }

  // ----- what the protocol is for

  /** Commands run in the order they were added; while the handle is open, a command that has not run
      has the flag set, a sender that will set it, or the callback at work; and a set flag has a
      wakeup posted or about to be, or the walk still ahead. */
  lemma NothingLost(s: State, h: Handle)
    requires Reachable(s) && h < |s.handles|
    ensures s.handles[h].executed + s.handles[h].queue == s.handles[h].enqueued
    ensures Noticed(s, h) && WakeupDue(s, h)
  {
    ReachableInv(s);
    assert HandleOk(s, h);
  }

  /** The loop may block in its poll, with every sender gone, only when every open handle with a
      callback has run all its commands. */
  lemma SleepOnlyWhenDone(s: State, h: Handle)
    requires Reachable(s) && s.loopPc == Polling && !s.posted
    requires forall t :: 0 <= t < |s.senders| ==> s.senders[t] == Idle
    requires h < |s.handles| && s.handles[h].phase == Open && s.handles[h].callback
    ensures s.handles[h].executed == s.handles[h].enqueued
  {
    ReachableInv(s);
    assert HandleOk(s, h);
  }

  /** After uv__async_spin has returned for a handle, no sender is in its wakeup write, ever again. */
  lemma NoWriteAfterClose(s: State, steps: seq<Step>, h: Handle)
    requires Reachable(s) && h < |s.handles| && s.handles[h].phase == Closed && Run(s, steps).Some?
    ensures h < |Run(s, steps).value.handles| && Run(s, steps).value.handles[h].phase == Closed
    ensures !SomeWriting(Run(s, steps).value.senders, h)
  {
    ReachableInv(s);
    RunKeeps(s, steps);
    StaysClosed(s, steps, h);
    assert HandleOk(Run(s, steps).value, h);
  }

  lemma {:induction false} StaysClosed(s: State, steps: seq<Step>, h: Handle)
    requires Inv(s) && h < |s.handles| && s.handles[h].phase == Closed && Run(s, steps).Some?
    ensures h < |Run(s, steps).value.handles| && Run(s, steps).value.handles[h].phase == Closed
    decreases |steps|
  {
    if steps != [] {
      assert HandleOk(s, h);
      StepKeeps(s, steps[0]);
      StaysClosed(Do(s, steps[0]), steps[1..], h);
    }
  }

  /** While the spin waits, some sender is inside the region it waits for. */
  lemma SpinWaitsForASender(s: State)
    requires Reachable(s) && s.spin.Some? && !Enabled(s, EndClose)
    ensures exists t :: 0 <= t < |s.senders| && Inside(s.senders[t], s.spin.value)
  {
    ReachableInv(s);
    assert HandleOk(s, s.spin.value);
    var t := CountSome(s.senders, s.spin.value);
  }

  // ----- progress: the loop alone runs everything that was added

  predicate SendersGone(s: State) {
    forall t :: 0 <= t < |s.senders| ==> s.senders[t] == Idle
  }

  function NextOfLoop(s: State): Step {
    if s.loopPc == Polling then Poll
    else if s.loopPc == Woken then StartWalk
    else if s.loopPc == Walking then Visit else Drain
  }

  function Rank(s: State): nat
    requires s.loopPc.Calling? ==> s.loopPc.h < |s.handles|
  {
    if s.loopPc.Calling? then 2 + |s.handles[s.loopPc.h].queue| else if s.loopPc == Walking then 1 else 0
  }

  /** Same handles with the same commands added. */
  predicate SameAdded(s: State, s': State) {
    && |s'.handles| == |s.handles|
    && forall h :: 0 <= h < |s.handles| ==>
         && s'.handles[h].enqueued == s.handles[h].enqueued && s'.handles[h].phase == s.handles[h].phase
         && s'.handles[h].callback == s.handles[h].callback
  }

  lemma SameAddedOn(s: State, t: State, u: State)
    requires SameAdded(s, t) && SameAdded(t, u)
    ensures SameAdded(s, u)
  {}

  /** The loop sleeps and every open handle with a callback has run all its commands. */
  predicate AllRun(s: State) {
    && s.loopPc == Polling
    && forall h :: 0 <= h < |s.handles| && s.handles[h].phase == Open && s.handles[h].callback ==>
         s.handles[h].executed == s.handles[h].enqueued
  }

  predicate LoopSteps(steps: seq<Step>) {
    forall i :: 0 <= i < |steps| ==> steps[i] in {Poll, StartWalk, Visit, Drain}
  }

  /** One step of the loop on its way to its poll. */
  lemma LoopMoves(s: State)
    requires Inv(s) && s.spin == None && SendersGone(s) && (s.loopPc == Polling ==> s.posted)
    ensures var step := NextOfLoop(s);
            && Enabled(s, step) && step in {Poll, StartWalk, Visit, Drain}
            && var t := Do(s, step); SameAdded(s, t) && t.senders == s.senders && t.spin == None
  {
    assert s.walk != [] ==> s.walk[0] in s.walk;
  }

  lemma {:induction false} LoopFinishes(s: State) returns (steps: seq<Step>)
    requires Inv(s) && s.spin == None && SendersGone(s)
    ensures LoopSteps(steps) && Run(s, steps).Some?
    ensures SameAdded(s, Run(s, steps).value) && AllRun(Run(s, steps).value)
    decreases One(s.posted), One(s.loopPc == Woken), |s.walk|, Rank(s)
  {
    if s.loopPc == Polling && !s.posted {
      steps := [];
      forall h | 0 <= h < |s.handles| && s.handles[h].phase == Open && s.handles[h].callback
        ensures s.handles[h].executed == s.handles[h].enqueued
      {
        assert HandleOk(s, h);
      }
    } else {
      var step := NextOfLoop(s);
      LoopMoves(s);
      StepKeeps(s, step);
      var rest := LoopFinishes(Do(s, step));
      steps := [step] + rest;
      assert steps[1..] == rest;
      SameAddedOn(s, Do(s, step), Run(Do(s, step), rest).value);
      hide SameAdded;
    }
  }

  /** From any reachable state in which no sender is at work and no close spins, the steps of the
      loop alone end in its poll with everything added to an open handle run, in order. */
  lemma EverythingAddedRuns(s: State)
    requires Reachable(s) && s.spin == None && SendersGone(s)
    ensures exists steps :: LoopSteps(steps) && Run(s, steps).Some?
                            && SameAdded(s, Run(s, steps).value) && AllRun(Run(s, steps).value)
  {
    ReachableInv(s);
    var steps := LoopFinishes(s);
  }

  // ----- a callback needs a send

  /** The callback of h is entered in this step. */
  predicate Enters(s: State, step: Step, h: Handle)
    requires Enabled(s, step)
  {
    Do(s, step).loopPc == Calling(h) && s.loopPc != Calling(h)
  }

  /** A sender finds the flag of h clear, and sets it. */
  predicate Raises(s: State, step: Step, h: Handle)
    requires Enabled(s, step)
  {
    step.Exchange? && s.senders[step.t].h == h && !s.handles[h].pending
  }

  function Entries(s: State, steps: seq<Step>, h: Handle): nat
    requires Run(s, steps).Some?
    decreases |steps|
  {
    if steps == [] then 0 else One(Enters(s, steps[0], h)) + Entries(Do(s, steps[0]), steps[1..], h)
  }

  function Sends(s: State, steps: seq<Step>, h: Handle): nat
    requires Run(s, steps).Some?
    decreases |steps|
  {
    if steps == [] then 0 else One(Raises(s, steps[0], h)) + Sends(Do(s, steps[0]), steps[1..], h)
  }

  /** The flag of an open handle is set. */
  predicate Due(s: State, h: Handle) {
    h < |s.handles| && s.handles[h].phase == Open && s.handles[h].pending
  }

  predicate CallsBack(s: State, h: Handle) {
    h < |s.handles| && s.handles[h].phase == Open && s.handles[h].callback
  }

  predicate Balanced(s: State, step: Step, h: Handle)
    requires Enabled(s, step)
  {
    var entries, sends := One(Enters(s, step, h)) + One(Due(Do(s, step), h)), One(Raises(s, step, h)) + One(Due(s, h));
    entries <= sends && (CallsBack(Do(s, step), h) || h >= |Do(s, step).handles| ==> entries == sends)
  }

  lemma ExchangeEntry(s: State, t: Thread, h: Handle)
    requires Inv(s) && Enabled(s, Exchange(t))
    ensures Balanced(s, Exchange(t), h)
  {
    assert At(s, t);
    assert HandleOk(s, s.senders[t].h);
  }

  lemma VisitEntry(s: State, h: Handle)
    requires Inv(s) && Enabled(s, Visit)
    ensures Balanced(s, Visit, h)
  {
    if s.walk != [] {
      assert s.walk[0] in s.walk && HandleOk(s, s.walk[0]);
    }
  }

  lemma OtherEntry(s: State, step: Step, h: Handle)
    requires Enabled(s, step) && !step.Exchange? && !step.Visit?
    ensures Balanced(s, step, h)
  {}

  lemma EntryStep(s: State, step: Step, h: Handle)
    requires Inv(s) && Enabled(s, step)
    ensures Balanced(s, step, h)
  {
    match step
    case Exchange(t) => ExchangeEntry(s, t, h);
    case Visit => VisitEntry(s, h);
    case _ => OtherEntry(s, step, h);
  }

  /** What is closed or has no callback stays so. */
  lemma CallsBackBefore(s: State, step: Step, h: Handle)
    requires Inv(s) && Enabled(s, step) && h < |s.handles| && CallsBack(Do(s, step), h)
    ensures CallsBack(s, h)
  {
    assert HandleOk(s, h);
  }

  lemma {:induction false} StaysCalling(s: State, steps: seq<Step>, h: Handle)
    requires Inv(s) && Run(s, steps).Some? && h < |s.handles| && CallsBack(Run(s, steps).value, h)
    ensures CallsBack(s, h)
    decreases |steps|
  {
    if steps != [] {
      StepKeeps(s, steps[0]);
      StaysCalling(Do(s, steps[0]), steps[1..], h);
      CallsBackBefore(s, steps[0], h);
    }
  }

  lemma {:induction false} RunEntries(s: State, steps: seq<Step>, h: Handle)
    requires Inv(s) && Run(s, steps).Some?
    ensures var t := Run(s, steps).value;
            && Entries(s, steps, h) + One(Due(t, h)) <= Sends(s, steps, h) + One(Due(s, h))
            && (CallsBack(t, h) ==> Entries(s, steps, h) + One(Due(t, h)) == Sends(s, steps, h) + One(Due(s, h)))
    decreases |steps|
  {
    if steps != [] {
      StepKeeps(s, steps[0]);
      EntryStep(s, steps[0], h);
      RunEntries(Do(s, steps[0]), steps[1..], h);
      if CallsBack(Run(s, steps).value, h) && h < |Do(s, steps[0]).handles| {
        StaysCalling(Do(s, steps[0]), steps[1..], h);
      }
    }
  }

  /** In every run the callback of a handle is entered at most as often as a send has found its flag clear; for an
      open handle with a callback it is exactly as often, but for a flag that is still set.  So a handle to which
      nothing was sent is never called back. */
  lemma OneCallbackPerSend(s0: State, steps: seq<Step>, h: Handle)
    requires Initial(s0) && Run(s0, steps).Some?
    ensures Entries(s0, steps, h) <= Sends(s0, steps, h)
    ensures var t := Run(s0, steps).value;
            h < |t.handles| && t.handles[h].phase == Open && t.handles[h].callback ==>
              Entries(s0, steps, h) + One(t.handles[h].pending) == Sends(s0, steps, h)
  {
    InitInv(s0);
    RunEntries(s0, steps, h);
  }

  /** Between two entries of a callback there is a send that found the flag clear. */
  lemma SendBetweenEntries(s: State, step: Step, steps: seq<Step>, h: Handle)
    requires Reachable(s) && Enabled(s, step) && Enters(s, step, h)
    requires Run(Do(s, step), steps).Some? && Entries(Do(s, step), steps, h) >= 1
    ensures Sends(Do(s, step), steps, h) >= 1
  {
    ReachableInv(s);
    StepKeeps(s, step);
    RunEntries(Do(s, step), steps, h);
  }

  /** A send that finds the flag set ends there: it neither enters the busy region nor writes. */
  lemma SendCoalesces(s: State, t: Thread)
    requires Enabled(s, Check(t)) && s.handles[s.senders[t].h].pending
    ensures Do(s, Check(t)) == s.(senders := s.senders[t := Idle])
  {}

  // ----- the order of the handles

  predicate Rearranges(step: Step) {
    step.Start? || step.EndClose?
  }

  predicate NoneRearranges(steps: seq<Step>) {
    forall i :: 0 <= i < |steps| ==> !Rearranges(steps[i])
  }

  /** Visited handles go behind those visited before, so walks keep the order of the handles; a new handle is the
      last of the list. */
  lemma {:induction false} WalksKeepOrder(s: State, steps: seq<Step>)
    requires Inv(s) && Run(s, steps).Some? && NoneRearranges(steps)
    ensures Run(s, steps).value.list + Run(s, steps).value.walk == s.list + s.walk
    decreases |steps|
  {
    if steps != [] {
      var t := Do(s, steps[0]);
      assert !Rearranges(steps[0]);
      StepKeeps(s, steps[0]);
      assert t.list + t.walk == s.list + s.walk;
      WalksKeepOrder(t, steps[1..]);
    }
  }

  lemma NewHandleIsLast(s: State, callback: bool)
    requires Enabled(s, Start(callback))
    ensures var t := Do(s, Start(callback));
            t.list == s.list + [|t.handles| - 1] && t.walk == s.walk && !t.handles[|t.handles| - 1].pending
  {}
}
