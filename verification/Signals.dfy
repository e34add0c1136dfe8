/** Signal watchers of src/unix/signal.c, over all loops, as a state machine.

    A step is what runs with the signal lock held, one system call, or one piece of uv__signal_event.  The
    tree of watchers is the set of handles with a signum; uv__signal_compare puts the handles of one signum
    together, those not flagged one-shot first. */
module Signals {
  import opened Basics

  type Signum = int

  datatype Disposition = Default | Persistent | OneShot

  /** One uv_signal_t; signum is 0 while it is stopped. */
  datatype Watcher = Watcher(signum: Signum, oneShot: bool, loop: nat, caught: int, dispatched: int,
                             closing: bool, closed: bool)

  datatype Msg = Msg(handle: nat, signum: Signum)

  /** The signal pipe of a loop, the messages uv__signal_event has read from it, and the one whose callback
      may be running. */
  datatype LoopState = LoopState(pipe: seq<Msg>, buffer: seq<Msg>, current: Option<Msg>)

  datatype State = State(
    watchers: seq<Watcher>,
    loops: seq<LoopState>,
    action: map<Signum, Disposition>,   // sigaction, Default where absent
    handlers: seq<Signum>,              // handler invocations that have not taken the lock
    called: seq<Msg>)                   // calls of signal callbacks, in order

  datatype Step =
    | Init(loop: nat)
    | Start(h: nat, signum: Signum, oneShot: bool, valid: bool)
    | Stop(h: nat)
    | Close(h: nat)
    | FinishClose(h: nat)
    | Deliver(signum: Signum)
    | Handler(full: set<nat>)
    | Read(l: nat, n: nat)
    | Dispatch(l: nat)
    | Dispatched(l: nat)

  // ----- parts of the steps

  function ActionOf(s: State, n: Signum): Disposition {
    if n in s.action then s.action[n] else Default
  }

  predicate Watches(s: State, h: nat, n: Signum) {
    h < |s.watchers| && s.watchers[h].signum == n
  }

  /** Whether uv__signal_first_handle finds a watcher, and whether the one it finds is one-shot. */
  predicate Watched(s: State, n: Signum) {
    exists h :: 0 <= h < |s.watchers| && Watches(s, h, n)
  }

  predicate FirstIsOneShot(s: State, n: Signum) {
    forall h :: 0 <= h < |s.watchers| && Watches(s, h, n) ==> s.watchers[h].oneShot
  }

  /** uv__signal_stop */
  function StopWatcher(s: State, h: nat): State
    requires h < |s.watchers|
  {
    var w := s.watchers[h];
    if w.signum == 0 then s
    else
      var s1 := s.(watchers := s.watchers[h := w.(signum := 0)]);
      if !Watched(s1, w.signum) then s1.(action := s.action[w.signum := Default])
      else if FirstIsOneShot(s1, w.signum) && !w.oneShot then s1.(action := s.action[w.signum := OneShot])
      else s1
  }

  /** uv__signal_start for a stopped watcher; valid is whether sigaction accepts the signum.  A watcher of
      another signum is stopped first, which is a step of its own. */
  function StartWatcher(s: State, h: nat, n: Signum, oneShot: bool, valid: bool): State
    requires h < |s.watchers|
  {
    var w := s.watchers[h];
    if n == 0 || w.signum == n then s
    else
      var register := !Watched(s, n) || (!oneShot && FirstIsOneShot(s, n));
      if register && !valid then s
      else
        s.(watchers := s.watchers[h := w.(signum := n, oneShot := w.oneShot || oneShot)],
           action := if register then s.action[n := if oneShot then OneShot else Persistent] else s.action)
  }

  /** uv__signal_handler for the watchers from h on; the writes for those in full fail. */
  function Notify(s: State, n: Signum, h: nat, full: set<nat>): (r: State)
    requires h <= |s.watchers| && forall i :: 0 <= i < |s.watchers| ==> s.watchers[i].loop < |s.loops|
    ensures |r.watchers| == |s.watchers| && |r.loops| == |s.loops|
    decreases |s.watchers| - h
  {
    if h == |s.watchers| then s
    else Notify(if Watches(s, h, n) && h !in full then Send(s, h) else s, n, h + 1, full)
  }

  /** One message. */
  function Send(s: State, h: nat): (r: State)
    requires h < |s.watchers| && s.watchers[h].loop < |s.loops|
  {
    var w := s.watchers[h];
    var q := s.loops[w.loop];
    s.(watchers := s.watchers[h := w.(caught := w.caught + 1)],
       loops := s.loops[w.loop := q.(pipe := q.pipe + [Msg(h, w.signum)])])
  }

  // ----- steps

  predicate LoopsOk(s: State) {
    forall i :: 0 <= i < |s.watchers| ==> s.watchers[i].loop < |s.loops|
  }

  predicate Enabled(s: State, step: Step) {
    match step
    case Init(l) => l < |s.loops|
    case Start(h, n, _, _) =>
      h < |s.watchers| && !s.watchers[h].closing && (s.watchers[h].signum == 0 || s.watchers[h].signum == n)
    case Stop(h) => h < |s.watchers| && !s.watchers[h].closing
    case Close(h) => h < |s.watchers| && !s.watchers[h].closing
    case FinishClose(h) => h < |s.watchers| && s.watchers[h].closing && !s.watchers[h].closed
    case Deliver(n) => ActionOf(s, n) != Default
    case Handler(_) => s.handlers != [] && LoopsOk(s)
    case Read(l, n) =>
      l < |s.loops| && s.loops[l].buffer == [] && s.loops[l].current == None && 1 <= n <= 32 && n <= |s.loops[l].pipe|
    case Dispatch(l) =>
      l < |s.loops| && s.loops[l].current == None && s.loops[l].buffer != [] && s.loops[l].buffer[0].handle < |s.watchers|
    case Dispatched(l) =>
      l < |s.loops| && s.loops[l].current.Some? && s.loops[l].current.value.handle < |s.watchers|
  }

  function Do(s: State, step: Step): State
    requires Enabled(s, step)
  {
    match step
    case Init(l) => s.(watchers := s.watchers + [Watcher(0, false, l, 0, 0, false, false)])
    case Start(h, n, oneShot, valid) => StartWatcher(s, h, n, oneShot, valid)
    case Stop(h) => StopWatcher(s, h)
    case Close(h) =>
      var s1 := StopWatcher(s, h);
      s1.(watchers := s1.watchers[h := s1.watchers[h].(closing := true)])
    case FinishClose(h) =>
      // back into the closing queue while caught signals are in the pipe
      if s.watchers[h].caught > s.watchers[h].dispatched then s
      else s.(watchers := s.watchers[h := s.watchers[h].(closed := true)])
    case Deliver(n) =>
      s.(handlers := s.handlers + [n], action := if ActionOf(s, n) == OneShot then s.action[n := Default] else s.action)
    case Handler(full) => Notify(s, s.handlers[0], 0, full).(handlers := s.handlers[1..])
    case Read(l, n) =>
      var q := s.loops[l];
      s.(loops := s.loops[l := q.(pipe := q.pipe[n..], buffer := q.pipe[..n])])
    case Dispatch(l) =>
      var q := s.loops[l];
      var m := q.buffer[0];
      s.(loops := s.loops[l := q.(buffer := q.buffer[1..], current := Some(m))],
         called := if m.signum == s.watchers[m.handle].signum then s.called + [m] else s.called)
    case Dispatched(l) =>
      var h := s.loops[l].current.value.handle;
      var s1 := s.(loops := s.loops[l := s.loops[l].(current := None)],
                   watchers := s.watchers[h := s.watchers[h].(dispatched := s.watchers[h].dispatched + 1)]);
      if s.watchers[h].oneShot then StopWatcher(s1, h) else s1
  }

  predicate Initial(s: State) {
    && s.watchers == [] && s.action == map[] && s.handlers == [] && s.called == []
    && forall l :: 0 <= l < |s.loops| ==> s.loops[l] == LoopState([], [], None)
  }

  function Run(s: State, steps: seq<Step>): Option<State>
    decreases |steps|
  {
    if steps == [] then Some(s)
    else if Enabled(s, steps[0]) then Run(Do(s, steps[0]), steps[1..]) else None
  }

  ghost predicate Reachable(s: State) {
    exists s0, steps :: Initial(s0) && Run(s0, steps) == Some(s)
  }

  // ----- the invariant

  function Count(q: seq<Msg>, h: nat): (n: nat) {
    if q == [] then 0 else (if q[0].handle == h then 1 else 0) + Count(q[1..], h)
  }

  lemma {:induction false} CountAppend(q: seq<Msg>, r: seq<Msg>, h: nat)
    ensures Count(q + r, h) == Count(q, h) + Count(r, h)
  {
    if q == [] {
      assert q + r == r;
    } else {
      assert (q + r)[1..] == q[1..] + r;
      CountAppend(q[1..], r, h);
    }
  }

  function InLoop(q: LoopState, h: nat): (n: nat) {
    Count(q.pipe, h) + Count(q.buffer, h) + if q.current.Some? && q.current.value.handle == h then 1 else 0
  }

  /** A message names a watcher of the loop it was sent to, and a signum. */
  predicate MsgOk(s: State, l: nat, m: Msg) {
    m.handle < |s.watchers| && s.watchers[m.handle].loop == l && m.signum != 0
  }

  predicate LoopOk(s: State, l: nat)
    requires l < |s.loops|
  {
    var q := s.loops[l];
    && (forall i :: 0 <= i < |q.pipe| ==> MsgOk(s, l, q.pipe[i]))
    && (forall i :: 0 <= i < |q.buffer| ==> MsgOk(s, l, q.buffer[i]))
    && (q.current.Some? ==> MsgOk(s, l, q.current.value))
  }

  /** Caught minus dispatched signals are the messages on their way; a closing watcher is stopped, and a
      closed one has no message left. */
  predicate WatcherOk(s: State, h: nat)
    requires h < |s.watchers|
  {
    var w := s.watchers[h];
    && w.loop < |s.loops| && w.caught - w.dispatched == InLoop(s.loops[w.loop], h)
    && (w.closing ==> w.signum == 0) && (w.closed ==> w.closing && w.caught == w.dispatched)
  }

  /** No watcher: default disposition.  One that is not one-shot: the persistent handler. */
  predicate ActionOk(s: State, n: Signum) {
    && (!Watched(s, n) ==> ActionOf(s, n) == Default)
    && (Watched(s, n) && !FirstIsOneShot(s, n) ==> ActionOf(s, n) == Persistent)
  }

  ghost predicate Inv(s: State) {
    && (forall h :: 0 <= h < |s.watchers| ==> WatcherOk(s, h))
    && (forall l :: 0 <= l < |s.loops| ==> LoopOk(s, l))
    && (forall n :: n != 0 ==> ActionOk(s, n))
    && 0 !in s.action && 0 !in s.handlers
  }

  // ----- every step keeps it

  lemma InitialInv(s: State)
    requires Initial(s)
    ensures Inv(s)
  {}

  /** Watchers of signum n are the same in both states, flags included. */
  predicate SameWatchers(s: State, s': State, n: Signum) {
    |s.watchers| == |s'.watchers| &&
    forall h :: 0 <= h < |s.watchers| ==>
      && (Watches(s, h, n) <==> Watches(s', h, n))
      && (Watches(s, h, n) ==> s.watchers[h].oneShot == s'.watchers[h].oneShot)
  }

  lemma SameAction(s: State, s': State, n: Signum)
    requires ActionOk(s, n) && SameWatchers(s, s', n) && ActionOf(s', n) == ActionOf(s, n)
    ensures ActionOk(s', n)
  {}

  lemma StopKeeps(s: State, h: nat)
    requires Inv(s) && h < |s.watchers|
    ensures Inv(StopWatcher(s, h)) && StopWatcher(s, h).watchers == s.watchers[h := s.watchers[h].(signum := 0)]
    ensures StopWatcher(s, h).loops == s.loops && StopWatcher(s, h).handlers == s.handlers
  {
    var s' := StopWatcher(s, h);
    forall g | 0 <= g < |s.watchers|
      ensures WatcherOk(s', g)
    {
      assert WatcherOk(s, g);
    }
    forall l | 0 <= l < |s.loops|
      ensures LoopOk(s', l)
    {
      assert LoopOk(s, l);
    }
    forall n | n != 0
      ensures ActionOk(s', n)
    {
      StopAction(s, h, n);
    }
  }

  lemma SameTree(s: State, s': State, n: Signum)
    requires s.watchers == s'.watchers
    ensures Watched(s, n) <==> Watched(s', n)
    ensures FirstIsOneShot(s, n) <==> FirstIsOneShot(s', n)
  {
    forall h | 0 <= h < |s.watchers|
      ensures Watches(s, h, n) <==> Watches(s', h, n)
    {}
  }

  lemma StopAction(s: State, h: nat, n: Signum)
    requires ActionOk(s, n) && h < |s.watchers| && n != 0
    ensures ActionOk(StopWatcher(s, h), n)
  {
    var s' := StopWatcher(s, h);
    var w := s.watchers[h];
    if w.signum != n {
      assert s' == s || s'.watchers == s.watchers[h := w.(signum := 0)];
      SameAction(s, s', n);
    } else {
      assert Watches(s, h, n);
      var s1 := s.(watchers := s.watchers[h := w.(signum := 0)]);
      SameTree(s1, s', n);
    }
  }

  lemma StartKeeps(s: State, h: nat, n: Signum, oneShot: bool, valid: bool)
    requires Inv(s) && Enabled(s, Start(h, n, oneShot, valid))
    ensures Inv(StartWatcher(s, h, n, oneShot, valid))
  {
    var s' := StartWatcher(s, h, n, oneShot, valid);
    forall g | 0 <= g < |s.watchers|
      ensures WatcherOk(s', g)
    {
      assert WatcherOk(s, g);
    }
    forall l | 0 <= l < |s.loops|
      ensures LoopOk(s', l)
    {
      assert LoopOk(s, l);
    }
    forall m | m != 0
      ensures ActionOk(s', m)
    {
      StartAction(s, h, n, oneShot, valid, m);
    }
  }

  lemma StartAction(s: State, h: nat, n: Signum, oneShot: bool, valid: bool, m: Signum)
    requires ActionOk(s, m) && Enabled(s, Start(h, n, oneShot, valid)) && m != 0
    ensures ActionOk(StartWatcher(s, h, n, oneShot, valid), m)
  {
    var s' := StartWatcher(s, h, n, oneShot, valid);
    if s' != s {
      if m != n {
        SameAction(s, s', m);
      } else {
        assert Watches(s', h, n);
        forall g | 0 <= g < |s.watchers| && g != h
          ensures Watches(s, g, n) <==> Watches(s', g, n)
        {}
      }
    }
  }

  lemma SendKeeps(s: State, h: nat)
    requires Inv(s) && h < |s.watchers| && s.watchers[h].signum != 0 && s.watchers[h].loop < |s.loops|
    ensures Inv(Send(s, h))
  {
    var s' := Send(s, h);
    var w := s.watchers[h];
    var m := Msg(h, w.signum);
    forall g | 0 <= g < |s.watchers|
      ensures WatcherOk(s', g)
    {
      assert WatcherOk(s, g);
      CountAppend(s.loops[w.loop].pipe, [m], g);
    }
    forall l | 0 <= l < |s.loops|
      ensures LoopOk(s', l)
    {
      assert LoopOk(s, l);
    }
    forall n | n != 0
      ensures ActionOk(s', n)
    {
      SameAction(s, s', n);
    }
  }

  lemma {:induction false} NotifyKeeps(s: State, n: Signum, h: nat, full: set<nat>)
    requires Inv(s) && h <= |s.watchers| && n != 0
    requires forall i :: 0 <= i < |s.watchers| ==> s.watchers[i].loop < |s.loops|
    ensures Inv(Notify(s, n, h, full))
    decreases |s.watchers| - h
  {
    if h < |s.watchers| {
      if Watches(s, h, n) && h !in full {
        SendKeeps(s, h);
        NotifyKeeps(Send(s, h), n, h + 1, full);
      } else {
        NotifyKeeps(s, n, h + 1, full);
      }
    }
  }

  /** Steps that only move messages of one loop. */
  lemma MoveKeeps(s: State, l: nat, q: LoopState, called: seq<Msg>)
    requires Inv(s) && l < |s.loops|
    requires forall h :: InLoop(q, h) == InLoop(s.loops[l], h)
    requires LoopOk(s.(loops := s.loops[l := q]), l)
    ensures Inv(s.(loops := s.loops[l := q], called := called))
  {
    var s' := s.(loops := s.loops[l := q], called := called);
    forall g | 0 <= g < |s.watchers|
      ensures WatcherOk(s', g)
    {
      assert WatcherOk(s, g);
    }
    forall k | 0 <= k < |s.loops|
      ensures LoopOk(s', k)
    {
      assert LoopOk(s, k);
    }
    forall n | n != 0
      ensures ActionOk(s', n)
    {
      SameAction(s, s', n);
    }
  }

  lemma ReadKeeps(s: State, l: nat, n: nat)
    requires Inv(s) && Enabled(s, Read(l, n))
    ensures Inv(Do(s, Read(l, n)))
  {
    var q := s.loops[l];
    assert LoopOk(s, l);
    assert q.pipe == q.pipe[..n] + q.pipe[n..];
    forall h
      ensures Count(q.pipe, h) == Count(q.pipe[..n], h) + Count(q.pipe[n..], h)
    {
      CountAppend(q.pipe[..n], q.pipe[n..], h);
    }
    MoveKeeps(s, l, q.(pipe := q.pipe[n..], buffer := q.pipe[..n]), s.called);
  }

  lemma DispatchKeeps(s: State, l: nat)
    requires Inv(s) && Enabled(s, Dispatch(l))
    ensures Inv(Do(s, Dispatch(l)))
  {
    var q := s.loops[l];
    assert LoopOk(s, l);
    MoveKeeps(s, l, q.(buffer := q.buffer[1..], current := Some(q.buffer[0])), Do(s, Dispatch(l)).called);
  }

  lemma DispatchedKeeps(s: State, l: nat)
    requires Inv(s) && Enabled(s, Dispatched(l))
    ensures Inv(Do(s, Dispatched(l)))
  {
    var q := s.loops[l];
    var h := q.current.value.handle;
    assert LoopOk(s, l);
    var s1 := s.(loops := s.loops[l := q.(current := None)],
                 watchers := s.watchers[h := s.watchers[h].(dispatched := s.watchers[h].dispatched + 1)]);
    forall g | 0 <= g < |s.watchers|
      ensures WatcherOk(s1, g)
    {
      assert WatcherOk(s, g);
    }
    forall k | 0 <= k < |s.loops|
      ensures LoopOk(s1, k)
    {
      assert LoopOk(s, k);
    }
    forall n | n != 0
      ensures ActionOk(s1, n)
    {
      SameAction(s, s1, n);
    }
    StopKeeps(s1, h);
  }

  /** Steps that change one watcher's closing fields, or add one that is stopped. */
  lemma CloseKeeps(s: State, step: Step)
    requires Inv(s) && Enabled(s, step) && (step.Close? || step.FinishClose?)
    ensures Inv(Do(s, step))
  {
    if step.Close? {
      StopKeeps(s, step.h);
    }
    var s0 := if step.Close? then StopWatcher(s, step.h) else s;
    var s' := Do(s, step);
    forall g | 0 <= g < |s'.watchers|
      ensures WatcherOk(s', g)
    {
      assert WatcherOk(s0, g);
    }
    forall k | 0 <= k < |s.loops|
      ensures LoopOk(s', k)
    {
      assert LoopOk(s0, k);
    }
    forall n | n != 0
      ensures ActionOk(s', n)
    {
      SameAction(s0, s', n);
    }
  }

  lemma {:induction false} NoneOf(q: seq<Msg>, h: nat)
    requires forall i :: 0 <= i < |q| ==> q[i].handle != h
    ensures Count(q, h) == 0
  {
    if q != [] {
      NoneOf(q[1..], h);
    }
  }

  lemma InitKeeps(s: State, l: nat)
    requires Inv(s) && l < |s.loops|
    ensures Inv(Do(s, Init(l)))
  {
    var s' := Do(s, Init(l));
    forall g | 0 <= g < |s'.watchers|
      ensures WatcherOk(s', g)
    {
      if g < |s.watchers| {
        assert WatcherOk(s, g);
      } else {
        assert LoopOk(s, l);
        NoneOf(s.loops[l].pipe, g);
        NoneOf(s.loops[l].buffer, g);
      }
    }
    forall k | 0 <= k < |s.loops|
      ensures LoopOk(s', k)
    {
      assert LoopOk(s, k);
    }
    forall n | n != 0
      ensures ActionOk(s', n)
    {
      assert forall h :: 0 <= h < |s.watchers| ==> (Watches(s, h, n) <==> Watches(s', h, n));
      assert ActionOk(s, n);
    }
  }

  lemma DeliverKeeps(s: State, n: Signum)
    requires Inv(s) && Enabled(s, Deliver(n))
    ensures Inv(Do(s, Deliver(n)))
  {
    var s' := Do(s, Deliver(n));
    forall g | 0 <= g < |s.watchers|
      ensures WatcherOk(s', g)
    {
      assert WatcherOk(s, g);
    }
    forall k | 0 <= k < |s.loops|
      ensures LoopOk(s', k)
    {
      assert LoopOk(s, k);
    }
    forall m | m != 0
      ensures ActionOk(s', m)
    {
      assert ActionOk(s, m) && SameWatchers(s, s', m);
      if m != n || ActionOf(s, n) != OneShot {
        SameAction(s, s', m);
      }
    }
  }

  lemma HandlerKeeps(s: State, full: set<nat>)
    requires Inv(s) && Enabled(s, Handler(full))
    ensures Inv(Do(s, Handler(full)))
  {
    NotifyKeeps(s, s.handlers[0], 0, full);
    var r := Notify(s, s.handlers[0], 0, full);
    var s' := Do(s, Handler(full));
    NotifyHandlers(s, s.handlers[0], 0, full);
    forall g | 0 <= g < |r.watchers|
      ensures WatcherOk(s', g)
    {
      assert WatcherOk(r, g);
    }
    forall k | 0 <= k < |r.loops|
      ensures LoopOk(s', k)
    {
      assert LoopOk(r, k);
    }
    forall m | m != 0
      ensures ActionOk(s', m)
    {
      SameAction(r, s', m);
    }
  }

  lemma {:induction false} NotifyHandlers(s: State, n: Signum, h: nat, full: set<nat>)
    requires h <= |s.watchers| && LoopsOk(s)
    ensures Notify(s, n, h, full).handlers == s.handlers && Notify(s, n, h, full).action == s.action
    ensures Notify(s, n, h, full).called == s.called
    decreases |s.watchers| - h
  {
    if h < |s.watchers| {
      NotifyHandlers(if Watches(s, h, n) && h !in full then Send(s, h) else s, n, h + 1, full);
    }
  }

  lemma StepKeeps(s: State, step: Step)
    requires Inv(s) && Enabled(s, step)
    ensures Inv(Do(s, step))
  {
    match step
    case Init(l) => InitKeeps(s, l);
    case Start(h, n, oneShot, valid) => StartKeeps(s, h, n, oneShot, valid);
    case Stop(h) => StopKeeps(s, h);
    case Close(_) => CloseKeeps(s, step);
    case FinishClose(_) => CloseKeeps(s, step);
    case Deliver(n) => DeliverKeeps(s, n);
    case Handler(full) => HandlerKeeps(s, full);
    case Read(l, n) => ReadKeeps(s, l, n);
    case Dispatch(l) => DispatchKeeps(s, l);
    case Dispatched(l) => DispatchedKeeps(s, l);
  }

  lemma {:induction false} RunKeeps(s: State, steps: seq<Step>)
    requires Inv(s) && Run(s, steps).Some?
    ensures Inv(Run(s, steps).value)
    decreases |steps|
  {
    if steps != [] {
      StepKeeps(s, steps[0]);
      RunKeeps(Do(s, steps[0]), steps[1..]);
    }
  }

  lemma ReachableInv(s: State)
    requires Reachable(s)
    ensures Inv(s)
  {
    var s0, steps :| Initial(s0) && Run(s0, steps) == Some(s);
    InitialInv(s0);
    RunKeeps(s0, steps);
  }

  // ----- what holds in every run

  lemma {:induction false} Counted(q: seq<Msg>, i: nat)
    requires i < |q|
    ensures Count(q, q[i].handle) >= 1
  {
    if i > 0 {
      Counted(q[1..], i - 1);
    }
  }

  /** No signal is lost or made up between the handler and the callbacks: the signals caught and not yet
      dispatched are the messages of the watcher in its pipe, in the buffer, or being dispatched. */
  lemma Conservation(s: State, h: nat)
    requires Reachable(s) && h < |s.watchers|
    ensures s.watchers[h].loop < |s.loops|
    ensures s.watchers[h].caught == s.watchers[h].dispatched + InLoop(s.loops[s.watchers[h].loop], h)
  {
    ReachableInv(s);
    assert WatcherOk(s, h);
  }

  /** Each run of the handler sends one message to every watcher of the signum but those whose pipe is full,
      and none to others. */
  lemma HandlerNotifies(s: State, full: set<nat>, h: nat)
    requires Reachable(s) && Enabled(s, Handler(full)) && h < |s.watchers|
    ensures var s' := Do(s, Handler(full));
            h < |s'.watchers| && s'.watchers[h].caught
              == s.watchers[h].caught + if s.watchers[h].signum == s.handlers[0] && h !in full then 1 else 0
  {
    NotifyCounts(s, s.handlers[0], 0, full, h);
  }

  lemma {:induction false} NotifyCounts(s: State, n: Signum, h: nat, full: set<nat>, g: nat)
    requires h <= |s.watchers| && LoopsOk(s) && g < |s.watchers|
    ensures Notify(s, n, h, full).watchers[g].caught
              == s.watchers[g].caught + if g >= h && Watches(s, g, n) && g !in full then 1 else 0
    decreases |s.watchers| - h
  {
    if h < |s.watchers| {
      NotifyCounts(if Watches(s, h, n) && h !in full then Send(s, h) else s, n, h + 1, full, g);
    }
  }

  /** After the close callback no message names the watcher in any loop, now or later. */
  lemma NoMessageAfterClose(s: State, steps: seq<Step>, h: nat, l: nat)
    requires Reachable(s) && h < |s.watchers| && s.watchers[h].closed && Run(s, steps).Some?
    requires l < |Run(s, steps).value.loops|
    ensures InLoop(Run(s, steps).value.loops[l], h) == 0
  {
    ReachableInv(s);
    RunKeeps(s, steps);
    StaysClosed(s, steps, h);
    var s' := Run(s, steps).value;
    var q := s'.loops[l];
    assert WatcherOk(s', h) && LoopOk(s', l);
    if l != s'.watchers[h].loop {
      NoneOf(q.pipe, h);
      NoneOf(q.buffer, h);
    }
  }

  /** uv_close stops the watcher and marks it; its callback runs, once, as soon as no caught signal is left
      undispatched, and not before. */
  lemma CloseFinishes(s: State, h: nat)
    requires Reachable(s) && h < |s.watchers| && !s.watchers[h].closed
    ensures !s.watchers[h].closing ==>
              Enabled(s, Close(h)) && Do(s, Close(h)).watchers[h] == s.watchers[h].(signum := 0, closing := true)
    ensures s.watchers[h].closing ==>
              && Enabled(s, FinishClose(h))
              && (Do(s, FinishClose(h)).watchers[h].closed <==> s.watchers[h].caught == s.watchers[h].dispatched)
  {
    ReachableInv(s);
    assert WatcherOk(s, h);
    StopKeeps(s, h);
  }

  lemma StepClosed(s: State, step: Step, h: nat)
    requires Inv(s) && Enabled(s, step) && h < |s.watchers| && s.watchers[h].closed
    ensures h < |Do(s, step).watchers| && Do(s, step).watchers[h].closed
  {
    assert WatcherOk(s, h);
    match step
    case Handler(full) => NotifyClosed(s, s.handlers[0], 0, full, h);
    case Stop(g) => StopKeeps(s, g);
    case Close(g) => StopKeeps(s, g);
    case Dispatched(l) =>
    case _ =>
  }

  lemma {:induction false} NotifyClosed(s: State, n: Signum, h: nat, full: set<nat>, g: nat)
    requires h <= |s.watchers| && LoopsOk(s) && g < |s.watchers| && s.watchers[g].closed
    ensures Notify(s, n, h, full).watchers[g].closed
    decreases |s.watchers| - h
  {
    if h < |s.watchers| {
      NotifyClosed(if Watches(s, h, n) && h !in full then Send(s, h) else s, n, h + 1, full, g);
    }
  }

  lemma {:induction false} StaysClosed(s: State, steps: seq<Step>, h: nat)
    requires Inv(s) && h < |s.watchers| && s.watchers[h].closed && Run(s, steps).Some?
    ensures h < |Run(s, steps).value.watchers| && Run(s, steps).value.watchers[h].closed
    decreases |steps|
  {
    if steps != [] {
      StepKeeps(s, steps[0]);
      StepClosed(s, steps[0], h);
      StaysClosed(Do(s, steps[0]), steps[1..], h);
    }
  }

  /** The assertion of uv__signal_event: a callback never runs for a watcher that is closing. */
  lemma NoCallbackWhileClosing(s: State, step: Step)
    requires Reachable(s) && Enabled(s, step) && Do(s, step).called != s.called
    ensures step.Dispatch? && !s.watchers[s.loops[step.l].buffer[0].handle].closing
  {
    ReachableInv(s);
    if step.Handler? {
      NotifyHandlers(s, s.handlers[0], 0, step.full);
    } else {
      assert LoopOk(s, step.l) && WatcherOk(s, s.loops[step.l].buffer[0].handle);
    }
  }

  // ----- which signals call back

  /** Throughout the run watcher h watches n. */
  predicate KeepsWatching(s: State, steps: seq<Step>, h: nat, n: Signum)
    requires Run(s, steps).Some?
    decreases |steps|
  {
    Watches(s, h, n) && (steps != [] ==> KeepsWatching(Do(s, steps[0]), steps[1..], h, n))
  }

  /** The messages of h that are waiting in its loop are for n. */
  predicate OnlyFor(s: State, h: nat, n: Signum) {
    h < |s.watchers| && s.watchers[h].loop < |s.loops| &&
    var q := s.loops[s.watchers[h].loop];
    && (forall i :: 0 <= i < |q.pipe| && q.pipe[i].handle == h ==> q.pipe[i].signum == n)
    && (forall i :: 0 <= i < |q.buffer| && q.buffer[i].handle == h ==> q.buffer[i].signum == n)
  }

  /** The messages of h that have been taken up. */
  function TakenUp(s: State, h: nat): int
    requires h < |s.watchers| && s.watchers[h].loop < |s.loops|
  {
    var q := s.loops[s.watchers[h].loop];
    s.watchers[h].dispatched + if q.current.Some? && q.current.value.handle == h then 1 else 0
  }

  predicate SameLoop(s: State, s': State, h: nat) {
    h < |s.watchers| && h < |s'.watchers| && s'.watchers[h].loop == s.watchers[h].loop
  }

  /** Callbacks keep up with the messages taken up. */
  predicate KeepsUp(s: State, s': State, h: nat, n: Signum) {
    && SameLoop(s, s', h) && OnlyFor(s, h, n) && OnlyFor(s', h, n)
    && Count(s'.called, h) - Count(s.called, h) == TakenUp(s', h) - TakenUp(s, h)
  }

  lemma {:induction false} NotifyOnly(s: State, m: Signum, g: nat, full: set<nat>, h: nat, n: Signum)
    requires g <= |s.watchers| && LoopsOk(s) && OnlyFor(s, h, n) && Watches(s, h, n)
    ensures var s' := Notify(s, m, g, full);
            SameLoop(s, s', h) && OnlyFor(s', h, n) && TakenUp(s', h) == TakenUp(s, h)
    decreases |s.watchers| - g
  {
    if g < |s.watchers| {
      NotifyOnly(if Watches(s, g, m) && g !in full then Send(s, g) else s, m, g + 1, full, h, n);
    }
  }

  lemma HandlerKeepsUp(s: State, full: set<nat>, h: nat, n: Signum)
    requires Enabled(s, Handler(full)) && OnlyFor(s, h, n) && Watches(s, h, n)
    ensures KeepsUp(s, Do(s, Handler(full)), h, n)
  {
    NotifyOnly(s, s.handlers[0], 0, full, h, n);
    NotifyHandlers(s, s.handlers[0], 0, full);
  }

  lemma DispatchKeepsUp(s: State, l: nat, h: nat, n: Signum)
    requires Inv(s) && Enabled(s, Dispatch(l)) && OnlyFor(s, h, n) && Watches(s, h, n)
    ensures KeepsUp(s, Do(s, Dispatch(l)), h, n)
  {
    var m := s.loops[l].buffer[0];
    assert LoopOk(s, l) && MsgOk(s, l, m);
    CountAppend(s.called, [m], h);
  }

  lemma DispatchedKeepsUp(s: State, l: nat, h: nat, n: Signum)
    requires Inv(s) && Enabled(s, Dispatched(l)) && OnlyFor(s, h, n)
    ensures KeepsUp(s, Do(s, Dispatched(l)), h, n)
  {
    assert LoopOk(s, l);
  }

  lemma StepKeepsUp(s: State, step: Step, h: nat, n: Signum)
    requires Inv(s) && Enabled(s, step) && OnlyFor(s, h, n) && Watches(s, h, n)
    ensures KeepsUp(s, Do(s, step), h, n)
  {
    hide Notify, WatcherOk, LoopOk, MsgOk, Count;
    match step
    case Handler(full) => HandlerKeepsUp(s, full, h, n);
    case Dispatch(l) => DispatchKeepsUp(s, l, h, n);
    case Dispatched(l) => DispatchedKeepsUp(s, l, h, n);
    case _ =>
  }

  lemma {:induction false} RunKeepsUp(s: State, steps: seq<Step>, h: nat, n: Signum)
    requires Inv(s) && Run(s, steps).Some? && KeepsWatching(s, steps, h, n) && OnlyFor(s, h, n)
    ensures KeepsUp(s, Run(s, steps).value, h, n)
    decreases |steps|
  {
    if steps != [] {
      StepKeeps(s, steps[0]);
      StepKeepsUp(s, steps[0], h, n);
      hide Do, Enabled, Inv, OnlyFor, TakenUp;
      RunKeepsUp(Do(s, steps[0]), steps[1..], h, n);
    }
  }

  /** While a watcher keeps watching a signum every signal that is caught for it calls back, once its message is
      taken up: caught are those called back and those that wait in the pipe and the buffer. */
  lemma CaughtAreCalled(s: State, steps: seq<Step>, h: nat, n: Signum)
    requires Reachable(s) && Run(s, steps).Some? && KeepsWatching(s, steps, h, n)
    requires s.watchers[h].caught == s.watchers[h].dispatched
    ensures var t := Run(s, steps).value;
            && h < |t.watchers| && t.watchers[h].loop < |t.loops|
            && var q := t.loops[t.watchers[h].loop];
               t.watchers[h].caught - s.watchers[h].caught
                 == (Count(t.called, h) - Count(s.called, h)) + Count(q.pipe, h) + Count(q.buffer, h)
  {
    ReachableInv(s);
    RunKeeps(s, steps);
    assert WatcherOk(s, h);
    NoneWaiting(s, h, n);
    RunKeepsUp(s, steps, h, n);
    assert WatcherOk(Run(s, steps).value, h);
  }

  lemma NoneWaiting(s: State, h: nat, n: Signum)
    requires h < |s.watchers| && s.watchers[h].loop < |s.loops| && InLoop(s.loops[s.watchers[h].loop], h) == 0
    ensures OnlyFor(s, h, n)
  {
    var q := s.loops[s.watchers[h].loop];
    forall i | 0 <= i < |q.pipe|
      ensures q.pipe[i].handle != h
    {
      Counted(q.pipe, i);
    }
    forall i | 0 <= i < |q.buffer|
      ensures q.buffer[i].handle != h
    {
      Counted(q.buffer, i);
    }
  }

  /** A message whose watcher does not watch its signum any more calls nobody back, and others their watcher. */
  lemma CalledIff(s: State, l: nat)
    requires Enabled(s, Dispatch(l))
    ensures var m := s.loops[l].buffer[0];
            Do(s, Dispatch(l)).called == s.called + if Watches(s, m.handle, m.signum) then [m] else []
  {}

  /** A signum without a watcher has the default disposition; one with a watcher that is not flagged
      one-shot has the persistent handler. */
  lemma Dispositions(s: State, n: Signum)
    requires Reachable(s) && n != 0
    ensures (forall h :: 0 <= h < |s.watchers| ==> s.watchers[h].signum != n) ==> ActionOf(s, n) == Default
    ensures (exists h :: 0 <= h < |s.watchers| && s.watchers[h].signum == n && !s.watchers[h].oneShot) ==>
              ActionOf(s, n) == Persistent
  {
    ReachableInv(s);
    assert ActionOk(s, n);
    if exists h :: 0 <= h < |s.watchers| && s.watchers[h].signum == n && !s.watchers[h].oneShot {
      var h :| 0 <= h < |s.watchers| && s.watchers[h].signum == n && !s.watchers[h].oneShot;
      assert Watches(s, h, n);
    }
  }

  lemma {:induction false} NotifyFlags(s: State, n: Signum, h: nat, full: set<nat>, g: nat)
    requires h <= |s.watchers| && LoopsOk(s) && g < |s.watchers|
    ensures Notify(s, n, h, full).watchers[g].oneShot == s.watchers[g].oneShot
    decreases |s.watchers| - h
  {
    if h < |s.watchers| {
      NotifyFlags(if Watches(s, h, n) && h !in full then Send(s, h) else s, n, h + 1, full, g);
    }
  }

  // ----- the one-shot flag

  /** The step starts watcher h with uv_signal_start_oneshot, and the start takes effect. */
  predicate StartsOneShot(s: State, step: Step, h: nat)
    requires Enabled(s, step)
  {
    step.Start? && step.h == h && step.oneShot && Do(s, step).watchers[h].signum != s.watchers[h].signum
  }

  predicate EverOneShot(s: State, steps: seq<Step>, h: nat)
    requires Run(s, steps).Some?
    decreases |steps|
  {
    steps != [] && (StartsOneShot(s, steps[0], h) || EverOneShot(Do(s, steps[0]), steps[1..], h))
  }

  predicate Flagged(s: State, h: nat) {
    h < |s.watchers| && s.watchers[h].oneShot
  }

  lemma StepFlags(s: State, step: Step, h: nat)
    requires Inv(s) && Enabled(s, step)
    ensures Flagged(Do(s, step), h) <==> Flagged(s, h) || StartsOneShot(s, step, h)
  {
    match step
    case Handler(full) =>
      if h < |s.watchers| {
        NotifyFlags(s, s.handlers[0], 0, full, h);
      }
    case Start(g, n, oneShot, valid) => assert WatcherOk(s, g);
    case _ =>
  }

  lemma {:induction false} RunFlags(s: State, steps: seq<Step>, h: nat)
    requires Inv(s) && Run(s, steps).Some?
    ensures Flagged(Run(s, steps).value, h) <==> Flagged(s, h) || EverOneShot(s, steps, h)
    decreases |steps|
  {
    if steps != [] {
      StepKeeps(s, steps[0]);
      StepFlags(s, steps[0], h);
      RunFlags(Do(s, steps[0]), steps[1..], h);
    }
  }

  /** In every run a dispatched message stops its watcher exactly if some start of the watcher, however long
      ago, was a one-shot start: the flag is never cleared. */
  lemma OneShotForever(s0: State, steps: seq<Step>, h: nat, l: nat)
    requires Initial(s0) && Run(s0, steps).Some?
    requires Enabled(Run(s0, steps).value, Dispatched(l)) && Run(s0, steps).value.loops[l].current.value.handle == h
    ensures var t := Run(s0, steps).value;
            && (t.watchers[h].oneShot <==> EverOneShot(s0, steps, h))
            && Do(t, Dispatched(l)).watchers[h].signum == if EverOneShot(s0, steps, h) then 0 else t.watchers[h].signum
  {
    InitialInv(s0);
    RunFlags(s0, steps, h);
  }

  lemma {:induction false} RunAppend(s: State, a: seq<Step>, b: seq<Step>)
    requires Run(s, a).Some?
    ensures Run(s, a + b) == Run(Run(s, a).value, b)
    decreases |a|
  {
    if a == [] {
      assert a + b == b;
    } else {
      assert (a + b)[0] == a[0] && (a + b)[1..] == a[1..] + b;
      RunAppend(Do(s, a[0]), a[1..], b);
    }
  }

  lemma RunOne(s: State, step: Step)
    requires Enabled(s, step)
    ensures Run(s, [step]) == Some(Do(s, step))
  {
    assert Run(Do(s, step), [step][1..]) == Some(Do(s, step));
  }

  lemma RunTwo(s: State, a: Step, b: Step)
    requires Enabled(s, a) && Enabled(Do(s, a), b)
    ensures Run(s, [a, b]) == Some(Do(Do(s, a), b))
  {
    RunOne(s, a);
    RunOne(Do(s, a), b);
    RunAppend(s, [a], [b]);
    assert [a, b] == [a] + [b];
  }

  const SIGINT: Signum := 2
  const EMPTY := LoopState([], [], None)
  const MESSAGE := [Deliver(SIGINT), Handler({})] + [Read(0, 1), Dispatch(0)]

  /** The signal is caught. */
  lemma OneCaught(s: State, w: Watcher)
    requires s.watchers == [w] && s.loops == [EMPTY] && s.handlers == [] && w.signum == SIGINT && w.loop == 0
    requires ActionOf(s, SIGINT) != Default
    ensures Run(s, [Deliver(SIGINT), Handler({})]) == Some(s.(
              watchers := [w.(caught := w.caught + 1)], loops := [LoopState([Msg(0, SIGINT)], [], None)],
              action := if ActionOf(s, SIGINT) == OneShot then s.action[SIGINT := Default] else s.action))
  {
    var s1 := Do(s, Deliver(SIGINT));
    var sent := Send(s1, 0);
    assert EMPTY.pipe + [Msg(0, SIGINT)] == [Msg(0, SIGINT)];
    assert sent.loops == [LoopState([Msg(0, SIGINT)], [], None)];
    assert Notify(sent, SIGINT, 1, {}) == sent;
    assert s1.handlers == [SIGINT] && s1.handlers[1..] == [];
    RunTwo(s, Deliver(SIGINT), Handler({}));
    assert sent.watchers == [w.(caught := w.caught + 1)];
    assert Do(s1, Handler({})) == sent.(handlers := []);
  }

  /** Its message is read. */
  lemma OneRead(s: State)
    requires s.loops == [LoopState([Msg(0, SIGINT)], [], None)] && s.watchers != []
    ensures Run(s, [Read(0, 1), Dispatch(0)]) == Some(s.(
              loops := [LoopState([], [], Some(Msg(0, SIGINT)))],
              called := if s.watchers[0].signum == SIGINT then s.called + [Msg(0, SIGINT)] else s.called))
  {
    var pipe := s.loops[0].pipe;
    assert pipe[1..] == [] && pipe[..1] == [Msg(0, SIGINT)];
    assert Do(s, Read(0, 1)).loops == [LoopState([], [Msg(0, SIGINT)], None)];
    RunTwo(s, Read(0, 1), Dispatch(0));
    assert [Msg(0, SIGINT)][1..] == [];
    assert Do(Do(s, Read(0, 1)), Dispatch(0)).loops == [LoopState([], [], Some(Msg(0, SIGINT)))];
  }

  /** A signal on its way to the only watcher of the only loop, up to the callback. */
  lemma OneMessage(s: State, w: Watcher)
    requires s.watchers == [w] && s.loops == [EMPTY] && s.handlers == [] && w.signum == SIGINT && w.loop == 0
    requires ActionOf(s, SIGINT) != Default
    ensures Run(s, MESSAGE) == Some(s.(
              watchers := [w.(caught := w.caught + 1)], loops := [LoopState([], [], Some(Msg(0, SIGINT)))],
              called := s.called + [Msg(0, SIGINT)],
              action := if ActionOf(s, SIGINT) == OneShot then s.action[SIGINT := Default] else s.action))
  {
    OneCaught(s, w);
    OneRead(Run(s, [Deliver(SIGINT), Handler({})]).value);
    RunAppend(s, [Deliver(SIGINT), Handler({})], [Read(0, 1), Dispatch(0)]);
  }

  /** The first start is one-shot, the second one regular. */
  const TWICE := [Init(0), Start(0, SIGINT, true, true)] + MESSAGE + [Dispatched(0), Start(0, SIGINT, false, true)] + MESSAGE

  /** A watcher that uv_signal_start has started, with the persistent disposition, is stopped by its first
      message. */
  lemma RegularStartStopped(s0: State)
    requires Initial(s0) && s0.loops == [EMPTY]
    ensures Run(s0, TWICE).Some?
    ensures var t := Run(s0, TWICE).value;
            && |t.watchers| == 1 && t.watchers[0].signum == SIGINT && ActionOf(t, SIGINT) == Persistent
            && Enabled(t, Dispatched(0)) && t.loops[0].current == Some(Msg(0, SIGINT))
            && Do(t, Dispatched(0)).watchers[0].signum == 0
  {
    var start := [Init(0), Start(0, SIGINT, true, true)];
    var again := [Dispatched(0), Start(0, SIGINT, false, true)];
    var s1 := FirstStart(s0);
    OneMessage(s1, s1.watchers[0]);
    var s2 := Run(s1, MESSAGE).value;
    var s3 := SecondStart(s2);
    OneMessage(s3, s3.watchers[0]);
    RunAppend(s0, start, MESSAGE);
    RunAppend(s0, start + MESSAGE, again);
    RunAppend(s0, start + MESSAGE + again, MESSAGE);
  }

  lemma FirstStart(s0: State) returns (s: State)
    requires Initial(s0) && s0.loops == [EMPTY]
    ensures Run(s0, [Init(0), Start(0, SIGINT, true, true)]) == Some(s)
    ensures s == s0.(watchers := [Watcher(SIGINT, true, 0, 0, 0, false, false)], action := map[SIGINT := OneShot])
  {
    var s1 := Do(s0, Init(0));
    assert s1.watchers == [Watcher(0, false, 0, 0, 0, false, false)] && !Watched(s1, SIGINT);
    s := Do(s1, Start(0, SIGINT, true, true));
    RunTwo(s0, Init(0), Start(0, SIGINT, true, true));
  }

  lemma SecondStart(s1: State) returns (s: State)
    requires s1.watchers == [Watcher(SIGINT, true, 0, 1, 0, false, false)] && s1.handlers == []
    requires s1.loops == [LoopState([], [], Some(Msg(0, SIGINT)))] && s1.action == map[SIGINT := Default]
    ensures Run(s1, [Dispatched(0), Start(0, SIGINT, false, true)]) == Some(s)
    ensures s == s1.(watchers := [Watcher(SIGINT, true, 0, 1, 1, false, false)], loops := [EMPTY],
                     action := map[SIGINT := Persistent])
  {
    var s2 := Do(s1, Dispatched(0));
    assert s2.watchers == [Watcher(0, true, 0, 1, 1, false, false)] && s2.loops == [EMPTY];
    assert !Watched(s2, SIGINT);
    s := Do(s2, Start(0, SIGINT, false, true));
    assert s.action == map[SIGINT := Persistent];
    RunTwo(s1, Dispatched(0), Start(0, SIGINT, false, true));
  }

  // ----- what a step does to a disposition

  /** A start that installs a handler. */
  predicate Registers(s: State, step: Step, n: Signum) {
    step.Start? && step.signum == n && step.valid && !Watches(s, step.h, n) &&
    (!Watched(s, n) || (!step.oneShot && FirstIsOneShot(s, n)))
  }

  /** A signal is caught by a one-shot handler, which is gone then. */
  predicate UsesUp(s: State, step: Step, n: Signum) {
    step == Deliver(n) && ActionOf(s, n) == OneShot
  }

  /** Some watcher of n is not flagged one-shot. */
  predicate HasRegular(s: State, n: Signum) {
    exists h :: 0 <= h < |s.watchers| && Watches(s, h, n) && !s.watchers[h].oneShot
  }

  lemma RegularIff(s: State, n: Signum)
    ensures HasRegular(s, n) <==> !FirstIsOneShot(s, n)
  {
    if !FirstIsOneShot(s, n) {
      var h :| 0 <= h < |s.watchers| && Watches(s, h, n) && !s.watchers[h].oneShot;
    }
  }

  /** What a step does to the disposition of a signum that is watched afterwards. */
  predicate Changes(s: State, step: Step, n: Signum)
    requires Enabled(s, step)
  {
    var s' := Do(s, step);
    Watched(s', n) ==>
      if Registers(s, step, n) then ActionOf(s', n) == if step.oneShot then OneShot else Persistent
      else
        && Watched(s, n)
        && ActionOf(s', n) ==
             if HasRegular(s, n) && !HasRegular(s', n) then OneShot
             else if UsesUp(s, step, n) then Default
             else ActionOf(s, n)
  }

  lemma StillWatched(s: State, s': State, n: Signum)
    requires forall h :: 0 <= h < |s'.watchers| && Watches(s', h, n) ==> h < |s.watchers| && Watches(s, h, n)
    ensures Watched(s', n) ==> Watched(s, n)
  {
    if Watched(s', n) {
      var h :| 0 <= h < |s'.watchers| && Watches(s', h, n);
      assert Watches(s, h, n);
    }
  }

  lemma SameChanges(s: State, step: Step, n: Signum)
    requires Enabled(s, step) && ActionOf(Do(s, step), n) == ActionOf(s, n)
    requires !Registers(s, step, n) && !UsesUp(s, step, n)
    requires forall h :: 0 <= h < |s.watchers| ==>
               h < |Do(s, step).watchers| && Do(s, step).watchers[h].oneShot == s.watchers[h].oneShot
               && (Watches(Do(s, step), h, n) <==> Watches(s, h, n))
    requires forall h :: |s.watchers| <= h < |Do(s, step).watchers| ==> !Watches(Do(s, step), h, n)
    ensures Changes(s, step, n)
  {
    var s' := Do(s, step);
    StillWatched(s, s', n);
    if HasRegular(s, n) {
      var h :| 0 <= h < |s.watchers| && Watches(s, h, n) && !s.watchers[h].oneShot;
      assert Watches(s', h, n);
    }
  }

  lemma StopChanges(s: State, h: nat, n: Signum)
    requires ActionOk(s, n) && h < |s.watchers| && n != 0
    ensures var s' := StopWatcher(s, h);
            Watched(s', n) ==>
              && Watched(s, n)
              && ActionOf(s', n) == if HasRegular(s, n) && !HasRegular(s', n) then OneShot else ActionOf(s, n)
  {
    var s' := StopWatcher(s, h);
    var w := s.watchers[h];
    RegularIff(s, n);
    RegularIff(s', n);
    if w.signum != n {
      assert s'.watchers == s.watchers || s'.watchers == s.watchers[h := w.(signum := 0)];
      assert forall g :: 0 <= g < |s.watchers| ==> (Watches(s', g, n) <==> Watches(s, g, n));
    } else {
      assert Watches(s, h, n);
      var s1 := s.(watchers := s.watchers[h := w.(signum := 0)]);
      SameTree(s1, s', n);
      StopRegular(s, s1, h, n);
    }
  }

  /** A watcher less: the unflagged watchers are gone exactly if it was the only one. */
  lemma StopRegular(s: State, s1: State, h: nat, n: Signum)
    requires h < |s.watchers| && s1 == s.(watchers := s.watchers[h := s.watchers[h].(signum := 0)]) && n != 0
    requires Watches(s, h, n)
    ensures HasRegular(s1, n) ==> HasRegular(s, n)
    ensures s.watchers[h].oneShot && HasRegular(s, n) ==> HasRegular(s1, n)
    ensures !s.watchers[h].oneShot ==> HasRegular(s, n)
  {
    if HasRegular(s1, n) {
      var g :| 0 <= g < |s1.watchers| && Watches(s1, g, n) && !s1.watchers[g].oneShot;
      assert Watches(s, g, n) && !s.watchers[g].oneShot;
    }
    if s.watchers[h].oneShot && HasRegular(s, n) {
      var g :| 0 <= g < |s.watchers| && Watches(s, g, n) && !s.watchers[g].oneShot;
      assert Watches(s1, g, n) && !s1.watchers[g].oneShot;
    }
  }

  lemma SameRegular(s: State, s': State, n: Signum)
    requires SameWatchers(s, s', n)
    ensures HasRegular(s, n) <==> HasRegular(s', n)
  {
    RegularIff(s, n);
    RegularIff(s', n);
  }

  lemma StartChanges(s: State, step: Step, n: Signum)
    requires Inv(s) && Enabled(s, step) && step.Start? && n != 0
    ensures Changes(s, step, n)
  {
    var s' := Do(s, step);
    assert ActionOk(s, n);
    RegularIff(s, n);
    RegularIff(s', n);
    if step.signum != n || s' == s {
      assert forall h :: 0 <= h < |s.watchers| ==> (Watches(s', h, n) <==> Watches(s, h, n));
    } else if !Registers(s, step, n) {
      assert forall g :: 0 <= g < |s.watchers| && Watches(s, g, n) ==> g != step.h && Watches(s', g, n);
    }
  }

  lemma {:induction false} NotifyWatches(s: State, n: Signum, h: nat, full: set<nat>, g: nat, m: Signum)
    requires h <= |s.watchers| && LoopsOk(s) && g < |s.watchers|
    ensures Watches(Notify(s, n, h, full), g, m) <==> Watches(s, g, m)
    decreases |s.watchers| - h
  {
    if h < |s.watchers| {
      NotifyWatches(if Watches(s, h, n) && h !in full then Send(s, h) else s, n, h + 1, full, g, m);
    }
  }

  lemma HandlerChanges(s: State, full: set<nat>, n: Signum)
    requires Enabled(s, Handler(full))
    ensures Changes(s, Handler(full), n)
  {
    NotifyHandlers(s, s.handlers[0], 0, full);
    forall g | 0 <= g < |s.watchers|
      ensures Watches(Do(s, Handler(full)), g, n) <==> Watches(s, g, n)
      ensures Do(s, Handler(full)).watchers[g].oneShot == s.watchers[g].oneShot
    {
      NotifyWatches(s, s.handlers[0], 0, full, g, n);
      NotifyFlags(s, s.handlers[0], 0, full, g);
    }
    SameChanges(s, Handler(full), n);
  }

  lemma DispatchedChanges(s: State, l: nat, n: Signum)
    requires Inv(s) && Enabled(s, Dispatched(l)) && n != 0
    ensures Changes(s, Dispatched(l), n)
  {
    hide WatcherOk, LoopOk, MsgOk, FirstIsOneShot;
    assert ActionOk(s, n);
    var h := s.loops[l].current.value.handle;
    var s1 := s.(loops := s.loops[l := s.loops[l].(current := None)],
                 watchers := s.watchers[h := s.watchers[h].(dispatched := s.watchers[h].dispatched + 1)]);
    SameAction(s, s1, n);
    StillWatched(s, s1, n);
    SameRegular(s, s1, n);
    StopChanges(s1, h, n);
  }

  lemma CloseChanges(s: State, h: nat, n: Signum)
    requires Inv(s) && Enabled(s, Close(h)) && n != 0
    ensures Changes(s, Close(h), n)
  {
    assert ActionOk(s, n);
    StopChanges(s, h, n);
    SameRegular(StopWatcher(s, h), Do(s, Close(h)), n);
    StillWatched(StopWatcher(s, h), Do(s, Close(h)), n);
  }

  lemma StopStepChanges(s: State, h: nat, n: Signum)
    requires Inv(s) && Enabled(s, Stop(h)) && n != 0
    ensures Changes(s, Stop(h), n)
  {
    assert ActionOk(s, n);
    StopChanges(s, h, n);
  }

  lemma DeliverChanges(s: State, m: Signum, n: Signum)
    requires Inv(s) && Enabled(s, Deliver(m)) && n != 0
    ensures Changes(s, Deliver(m), n)
  {
    var s' := Do(s, Deliver(m));
    assert ActionOk(s, n);
    SameRegular(s, s', n);
    assert forall h :: 0 <= h < |s.watchers| ==> (Watches(s', h, n) <==> Watches(s, h, n));
    StillWatched(s, s', n);
  }

  lemma StepChanges(s: State, step: Step, n: Signum)
    requires Inv(s) && Enabled(s, step) && n != 0
    ensures Changes(s, step, n)
  {
    hide Changes, Notify, StartWatcher, WatcherOk, LoopOk, MsgOk;
    match step
    case Start(_, _, _, _) => StartChanges(s, step, n);
    case Stop(h) => StopStepChanges(s, h, n);
    case Close(h) => CloseChanges(s, h, n);
    case Handler(full) => HandlerChanges(s, full, n);
    case Dispatched(l) => DispatchedChanges(s, l, n);
    case Deliver(m) => DeliverChanges(s, m, n);
    case _ => SameChanges(s, step, n);
  }

  /** When the last unflagged watcher of a signum leaves it to one-shot watchers, their handler is installed. */
  lemma LeftToOneShot(s: State, step: Step, n: Signum)
    requires Reachable(s) && Enabled(s, step) && n != 0
    requires exists h :: 0 <= h < |s.watchers| && Watches(s, h, n) && !s.watchers[h].oneShot
    requires exists h :: 0 <= h < |Do(s, step).watchers| && Watches(Do(s, step), h, n)
    requires forall h :: 0 <= h < |Do(s, step).watchers| && Watches(Do(s, step), h, n) ==>
               Do(s, step).watchers[h].oneShot
    ensures ActionOf(Do(s, step), n) == OneShot
  {
    ReachableInv(s);
    StepChanges(s, step, n);
    RegularIff(s, n);
    RegularIff(Do(s, step), n);
  }

  // ----- watched, but at its default

  predicate AtDefault(s: State, n: Signum) {
    ActionOf(s, n) == Default
  }

  /** In this run a one-shot handler of n is used up, and no start installs one afterwards; used says that
      this is so before it. */
  predicate Spent(s: State, steps: seq<Step>, n: Signum, used: bool)
    requires Run(s, steps).Some?
    decreases |steps|
  {
    if steps == [] then used
    else Spent(Do(s, steps[0]), steps[1..], n, UsesUp(s, steps[0], n) || (used && !Registers(s, steps[0], n)))
  }

  lemma SpentStep(s: State, step: Step, n: Signum, used: bool)
    requires Inv(s) && Enabled(s, step) && n != 0 && (Watched(s, n) ==> (AtDefault(s, n) <==> used))
    ensures var s' := Do(s, step);
            Watched(s', n) ==> (AtDefault(s', n) <==> UsesUp(s, step, n) || (used && !Registers(s, step, n)))
  {
    StepChanges(s, step, n);
    RegularIff(s, n);
    assert ActionOk(s, n);
    hide Do, Inv;
  }

  lemma {:induction false} RunSpent(s: State, steps: seq<Step>, n: Signum, used: bool)
    requires Inv(s) && Run(s, steps).Some? && n != 0 && (Watched(s, n) ==> (AtDefault(s, n) <==> used))
    ensures var t := Run(s, steps).value; Watched(t, n) ==> (AtDefault(t, n) <==> Spent(s, steps, n, used))
    decreases |steps|
  {
    if steps != [] {
      StepKeeps(s, steps[0]);
      SpentStep(s, steps[0], n, used);
      RunSpent(Do(s, steps[0]), steps[1..], n, UsesUp(s, steps[0], n) || (used && !Registers(s, steps[0], n)));
    }
  }

  /** In every run a watched signum is at its default exactly if a one-shot handler was used up and no start
      has installed another since; a one-shot start installs none while the signum is watched. */
  lemma WatchedAtDefault(s0: State, steps: seq<Step>, n: Signum)
    requires Initial(s0) && Run(s0, steps).Some? && n != 0
    ensures var t := Run(s0, steps).value;
            (exists h :: 0 <= h < |t.watchers| && Watches(t, h, n)) ==>
              (ActionOf(t, n) == Default <==> Spent(s0, steps, n, false))
  {
    InitialInv(s0);
    RunSpent(s0, steps, n, false);
  }

  const CAUGHT := [Init(0), Start(0, SIGINT, true, true)] + [Deliver(SIGINT), Handler({})]
  const STRANDED := CAUGHT + [Init(0), Start(1, SIGINT, true, true)] + [Read(0, 1), Dispatch(0)] + [Dispatched(0)]

  /** A second one-shot watcher starts between the signal and its dispatch: it is left active with the default
      disposition, and nothing on its way to it. */
  lemma Stranded(s0: State)
    requires Initial(s0) && s0.loops == [EMPTY]
    ensures Run(s0, STRANDED).Some?
    ensures var t := Run(s0, STRANDED).value;
            && |t.watchers| == 2 && t.watchers[1].signum == SIGINT && ActionOf(t, SIGINT) == Default
            && t.watchers[0].signum == 0 && t.handlers == [] && t.loops == [EMPTY]
  {
    var start := [Init(0), Start(0, SIGINT, true, true)];
    var late := [Init(0), Start(1, SIGINT, true, true)];
    var s1 := FirstStart(s0);
    OneCaught(s1, s1.watchers[0]);
    var s2 := Run(s1, [Deliver(SIGINT), Handler({})]).value;
    var s3 := LateStart(s2);
    OneRead(s3);
    var s4 := Run(s3, [Read(0, 1), Dispatch(0)]).value;
    var s5 := FirstEnds(s4);
    RunAppend(s0, start, [Deliver(SIGINT), Handler({})]);
    RunAppend(s0, CAUGHT, late);
    RunAppend(s0, CAUGHT + late, [Read(0, 1), Dispatch(0)]);
    RunAppend(s0, CAUGHT + late + [Read(0, 1), Dispatch(0)], [Dispatched(0)]);
  }

  lemma LateStart(s2: State) returns (s: State)
    requires s2.watchers == [Watcher(SIGINT, true, 0, 1, 0, false, false)] && |s2.loops| == 1
    ensures Run(s2, [Init(0), Start(1, SIGINT, true, true)]) == Some(s)
    ensures s == s2.(
              watchers := [Watcher(SIGINT, true, 0, 1, 0, false, false), Watcher(SIGINT, true, 0, 0, 0, false, false)])
  {
    var s3 := Do(s2, Init(0));
    assert s3.watchers == [Watcher(SIGINT, true, 0, 1, 0, false, false), Watcher(0, false, 0, 0, 0, false, false)];
    assert Watches(s3, 0, SIGINT);
    s := Do(s3, Start(1, SIGINT, true, true));
    RunTwo(s2, Init(0), Start(1, SIGINT, true, true));
  }

  lemma FirstEnds(s4: State) returns (s: State)
    requires s4.watchers
          == [Watcher(SIGINT, true, 0, 1, 0, false, false), Watcher(SIGINT, true, 0, 0, 0, false, false)]
    requires s4.loops == [LoopState([], [], Some(Msg(0, SIGINT)))]
    ensures Run(s4, [Dispatched(0)]) == Some(s)
    ensures s == s4.(
              watchers := [Watcher(0, true, 0, 1, 1, false, false), Watcher(SIGINT, true, 0, 0, 0, false, false)],
              loops := [EMPTY])
  {
    var w := Watcher(SIGINT, true, 0, 1, 1, false, false);
    var s1 := s4.(loops := s4.loops[0 := EMPTY], watchers := s4.watchers[0 := w]);
    assert Watches(s1.(watchers := s1.watchers[0 := w.(signum := 0)]), 1, SIGINT);
    s := Do(s4, Dispatched(0));
    assert s == StopWatcher(s1, 0) && s.loops == [EMPTY] && s.watchers == [w.(signum := 0), s4.watchers[1]];
    RunOne(s4, Dispatched(0));
  }

  // ----- watched with the persistent handler

  predicate IsPersistent(s: State, n: Signum) {
    ActionOf(s, n) == Persistent
  }

  predicate StaysLasting(s: State, step: Step, n: Signum, kept: bool)
    requires Enabled(s, step)
  {
    if Registers(s, step, n) then !step.oneShot else kept && !(HasRegular(s, n) && !HasRegular(Do(s, step), n))
  }

  /** In this run the last start that installed a handler of n was a regular one, and no unflagged watcher has
      left n to flagged ones since; kept says that this is so before it. */
  predicate Lasting(s: State, steps: seq<Step>, n: Signum, kept: bool)
    requires Run(s, steps).Some?
    decreases |steps|
  {
    if steps == [] then kept
    else Lasting(Do(s, steps[0]), steps[1..], n, StaysLasting(s, steps[0], n, kept))
  }

  lemma {:induction false} RunLasting(s: State, steps: seq<Step>, n: Signum, kept: bool)
    requires Inv(s) && Run(s, steps).Some? && n != 0 && (Watched(s, n) ==> (IsPersistent(s, n) <==> kept))
    ensures var t := Run(s, steps).value; Watched(t, n) ==> (IsPersistent(t, n) <==> Lasting(s, steps, n, kept))
    decreases |steps|
  {
    if steps != [] {
      StepKeeps(s, steps[0]);
      StepChanges(s, steps[0], n);
      RunLasting(Do(s, steps[0]), steps[1..], n, StaysLasting(s, steps[0], n, kept));
    }
  }

  /** In every run a watched signum has the persistent handler exactly if the last start that installed one was
      regular and the signum has not been left to one-shot watchers since.  With WatchedAtDefault this settles
      the disposition of every watched signum. */
  lemma WatchedPersistently(s0: State, steps: seq<Step>, n: Signum)
    requires Initial(s0) && Run(s0, steps).Some? && n != 0
    ensures var t := Run(s0, steps).value;
            (exists h :: 0 <= h < |t.watchers| && Watches(t, h, n)) ==>
              (ActionOf(t, n) == Persistent <==> Lasting(s0, steps, n, false))
  {
    InitialInv(s0);
    RunLasting(s0, steps, n, false);
  }
}
