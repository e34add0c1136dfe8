/** The thread pool of src/threadpool.c before exit_message is posted, as a state machine.

    A step is one atomic region: the code a thread runs while it holds a mutex, or one call of a
    work or done function.  `Step` names the thread that moves and the choices the scheduler makes;
    a run is any sequence of enabled steps.  Loop mutexes are never held across a step, so only the
    global mutex appears in the state. */
module ThreadPool {
  import opened Basics

  type Item = nat
  type Thread = nat
  type Loop = nat

  datatype Kind = Cpu | FastIo | SlowIo

  /** What can be linked into the global queue wq. */
  datatype Entry = Work(item: Item) | RunSlow

  /** The w->work field: the function, NULL once it has returned, or uv__cancelled. */
  datatype WorkField = Function | Null | Cancelled

  /** Where a worker thread is. */
  datatype Pc =
    | Starting                          // about to lock the mutex for the first time
    | AtTop                             // holds the mutex, at the head of the for loop
    | Waiting                           // blocked in uv_cond_wait
    | Woken                             // left uv_cond_wait, about to take the mutex again
    | Working(item: Item, slow: bool)   // took an item, has not called its work function
    | Worked(item: Item, slow: bool)    // the work function has returned
    | Returning(slow: bool)             // handed the item to its loop, about to lock the mutex

  /** A loop: its wq, the local queue of a running uv__work_done, and the item a running
      uv__work_cancel has unlinked but not queued yet. */
  datatype LoopState = LoopState(queue: seq<Item>, local: seq<Item>, cancelling: Option<Item>)

  datatype Status = Ok | ECanceled

  /** Bookkeeping of the proof: the place of a submitted item. */
  datatype Place = InWq | InSlow | With(t: Thread) | InCancel(l: Loop) | InLoop(l: Loop) | InDrain(l: Loop) | Finished

  datatype State = State(
    pc: seq<Pc>,
    mutex: Option<Thread>,
    wq: seq<Entry>,
    slowPending: seq<Item>,
    idle: int,
    running: int,
    loops: seq<LoopState>,
    kind: map<Item, Kind>,
    loopOf: map<Item, Loop>,
    work: map<Item, WorkField>,
    ran: seq<Item>,                     // calls of work functions, in order
    cancelled: set<Item>,               // items for which uv_cancel has returned 0
    done: seq<(Item, Status)>,          // calls of done functions, in order
    at: map<Item, Place>)

  datatype Step =
    | Submit(item: Item, l: Loop, k: Kind, wake: Thread)
    | Lock(t: Thread)
    | Relock(t: Thread)
    | Spurious(t: Thread)
    | Wait(t: Thread)
    | Take(t: Thread, wake: Thread)
    | CallWork(t: Thread)
    | Deliver(t: Thread)
    | CancelUnlink(item: Item)
    | CancelQueue(l: Loop)
    | DrainStart(l: Loop)
    | DrainNext(l: Loop)

  // ----- parts of the steps

  function Threshold(s: State): int {
    (|s.pc| + 1) / 2
  }

  /** Nothing to do for a worker: the queue is empty, or holds only the slow-work message while the
      cap on slow work is reached. */
  predicate NothingToDo(s: State) {
    s.wq == [] || (s.wq == [RunSlow] && s.running >= Threshold(s))
  }

  /** uv_cond_signal: one blocked thread leaves the wait, if any is blocked. */
  predicate CanSignal(pc: seq<Pc>, wake: Thread) {
    SomeWaiting(pc) ==> wake < |pc| && pc[wake] == Waiting
  }

  predicate SomeWaiting(pc: seq<Pc>) {
    exists t :: 0 <= t < |pc| && pc[t] == Waiting
  }

  function Signal(s: State, wake: Thread): State {
    if s.idle > 0 && wake < |s.pc| && s.pc[wake] == Waiting then s.(pc := s.pc[wake := Woken]) else s
  }

  /** post: slow work goes to its own queue, and the message is queued unless it already is. */
  function Post(s: State, item: Item, k: Kind, wake: Thread): State {
    if k == SlowIo then
      var s1 := s.(slowPending := s.slowPending + [item]);
      if RunSlow in s.wq then s1 else Signal(s1.(wq := s.wq + [RunSlow]), wake)
    else Signal(s.(wq := s.wq + [Work(item)]), wake)
  }

  predicate IsLinked(s: State, item: Item) {
    || Work(item) in s.wq || item in s.slowPending
    || exists l :: 0 <= l < |s.loops| && (item in s.loops[l].queue || item in s.loops[l].local)
  }

  function Unlink(s: State, item: Item, l: Loop): State
    requires l < |s.loops|
  {
    var q := s.loops[l];
    s.(wq := Without(s.wq, Work(item)), slowPending := Without(s.slowPending, item),
       loops := s.loops[l := q.(queue := Without(q.queue, item), local := Without(q.local, item))])
  }

  // ----- steps

  predicate IsWorker(s: State, t: Thread) { t < |s.pc| }

  predicate Enabled(s: State, step: Step) {
    match step
    case Submit(item, l, k, wake) =>
      item !in s.at && l < |s.loops| && s.mutex == None && CanSignal(s.pc, wake)
    case Lock(t) => IsWorker(s, t) && s.mutex == None && (s.pc[t] == Starting || s.pc[t].Returning?)
    case Relock(t) => IsWorker(s, t) && s.mutex == None && s.pc[t] == Woken
    case Spurious(t) => IsWorker(s, t) && s.pc[t] == Waiting
    case Wait(t) => IsWorker(s, t) && s.pc[t] == AtTop && NothingToDo(s)
    case Take(t, wake) => IsWorker(s, t) && s.pc[t] == AtTop && !NothingToDo(s) && CanSignal(s.pc, wake)
    case CallWork(t) => IsWorker(s, t) && s.pc[t].Working?
    case Deliver(t) =>
      IsWorker(s, t) && s.pc[t].Worked? && s.pc[t].item in s.loopOf && s.loopOf[s.pc[t].item] < |s.loops|
    case CancelUnlink(item) =>
      // by the thread of the item's loop, while the item has not been completed
      && item in s.at && s.at[item] != Finished && s.mutex == None
      && item in s.loopOf && s.loopOf[item] < |s.loops| && s.loops[s.loopOf[item]].cancelling == None
      && item in s.work
    case CancelQueue(l) => l < |s.loops| && s.loops[l].cancelling.Some?
    case DrainStart(l) => l < |s.loops| && s.loops[l].local == [] && s.loops[l].cancelling == None
    case DrainNext(l) =>
      && l < |s.loops| && s.loops[l].local != [] && s.loops[l].cancelling == None
      && s.loops[l].local[0] in s.work
  }

  function Do(s: State, step: Step): State
    requires Enabled(s, step)
  {
    match step
    case Submit(item, l, k, wake) =>
      Post(s.(kind := s.kind[item := k], loopOf := s.loopOf[item := l], work := s.work[item := Function],
              at := s.at[item := if k == SlowIo then InSlow else InWq]), item, k, wake)
    case Lock(t) =>
      s.(pc := s.pc[t := AtTop], mutex := Some(t),
         running := if s.pc[t].Returning? && s.pc[t].slow then s.running - 1 else s.running)
    case Relock(t) => s.(pc := s.pc[t := AtTop], mutex := Some(t), idle := s.idle - 1)
    case Spurious(t) => s.(pc := s.pc[t := Woken])
    case Wait(t) => s.(pc := s.pc[t := Waiting], mutex := None, idle := s.idle + 1)
    case Take(t, wake) => TakeEntry(s, t, wake)
    case CallWork(t) => s.(pc := s.pc[t := Worked(s.pc[t].item, s.pc[t].slow)], ran := s.ran + [s.pc[t].item])
    case Deliver(t) =>
      var item := s.pc[t].item;
      var l := s.loopOf[item];
      s.(pc := s.pc[t := Returning(s.pc[t].slow)], work := s.work[item := Null],
         loops := s.loops[l := s.loops[l].(queue := s.loops[l].queue + [item])], at := s.at[item := InLoop(l)])
    case CancelUnlink(item) =>
      var l := s.loopOf[item];
      if IsLinked(s, item) && s.work[item] != Null then
        var s1 := Unlink(s, item, l);
        s1.(loops := s1.loops[l := s1.loops[l].(cancelling := Some(item))], at := s.at[item := InCancel(l)])
      else s
    case CancelQueue(l) =>
      var item := s.loops[l].cancelling.value;
      s.(work := s.work[item := Cancelled], cancelled := s.cancelled + {item},
         loops := s.loops[l := s.loops[l].(queue := s.loops[l].queue + [item], cancelling := None)],
         at := s.at[item := InLoop(l)])
    case DrainStart(l) =>
      s.(loops := s.loops[l := s.loops[l].(queue := [], local := s.loops[l].queue)],
         at := map it | it in s.at :: if s.at[it] == InLoop(l) then InDrain(l) else s.at[it])
    case DrainNext(l) =>
      var item := s.loops[l].local[0];
      s.(loops := s.loops[l := s.loops[l].(local := s.loops[l].local[1..])],
         done := s.done + [(item, if s.work[item] == Cancelled then ECanceled else Ok)],
         at := s.at[item := Finished])
  }

  /** A worker takes the head of the queue. */
  function TakeEntry(s: State, t: Thread, wake: Thread): State
    requires IsWorker(s, t) && s.wq != []
  {
    var rest := s.wq[1..];
    match s.wq[0]
    case Work(item) =>
      s.(wq := rest, mutex := None, pc := s.pc[t := Working(item, false)], at := s.at[item := With(t)])
    case RunSlow =>
      if s.running >= Threshold(s) then s.(wq := rest + [RunSlow])
      else if s.slowPending == [] then s.(wq := rest)
      else
        if s.slowPending[1..] == [] then TookSlow(s, t, rest)
        else Signal(TookSlow(s, t, rest + [RunSlow]), wake)
  }

  /** The state in which a worker has taken the first slow item. */
  function TookSlow(s: State, t: Thread, wq: seq<Entry>): State
    requires t < |s.pc| && s.slowPending != []
  {
    var item := s.slowPending[0];
    s.(wq := wq, running := s.running + 1, slowPending := s.slowPending[1..], mutex := None,
       pc := s.pc[t := Working(item, true)], at := s.at[item := With(t)])
  }

  predicate Initial(s: State) {
    && 1 <= |s.pc| && (forall t :: 0 <= t < |s.pc| ==> s.pc[t] == Starting)
    && s.mutex == None && s.wq == [] && s.slowPending == [] && s.idle == 0 && s.running == 0
    && (forall l :: 0 <= l < |s.loops| ==> s.loops[l] == LoopState([], [], None))
    && s.kind == map[] && s.loopOf == map[] && s.work == map[] && s.at == map[]
    && s.ran == [] && s.cancelled == {} && s.done == []
  }

  // ----- counting threads

  datatype Class = Blocked | Slow | Coming

  /** Blocked: counted by idle_threads.  Slow: counted by slow_io_work_running.  Coming: on the way
      to look at the queue. */
  predicate In(pc: Pc, c: Class) {
    match c
    case Blocked => pc == Waiting || pc == Woken
    case Slow => (pc.Working? || pc.Worked? || pc.Returning?) && pc.slow
    case Coming => pc == Starting || pc == AtTop || pc == Woken
  }

  function One(b: bool): (r: int) { if b then 1 else 0 }

  function Count(pc: seq<Pc>, c: Class): (r: int)
    ensures 0 <= r <= |pc|
  {
    if pc == [] then 0 else One(In(pc[0], c)) + Count(pc[1..], c)
  }

  lemma {:induction false} CountUpdate(pc: seq<Pc>, t: Thread, x: Pc, c: Class)
    requires t < |pc|
    ensures Count(pc[t := x], c) == Count(pc, c) - One(In(pc[t], c)) + One(In(x, c))
  {
    if t == 0 {
      assert pc[t := x][1..] == pc[1..];
    } else {
      assert pc[t := x][1..] == pc[1..][t - 1 := x];
      CountUpdate(pc[1..], t - 1, x, c);
    }
  }

  lemma {:induction false} CountHas(pc: seq<Pc>, t: Thread, c: Class)
    requires t < |pc| && In(pc[t], c)
    ensures Count(pc, c) >= 1
  {
    if t > 0 {
      CountHas(pc[1..], t - 1, c);
    }
  }

  // ----- the scheduling invariant

  /** Entries a worker could take now: all but the slow-work message at the cap. */
  function Runnable(s: State): int {
    |s.wq| - One(RunSlow in s.wq && s.running >= Threshold(s))
  }

  predicate Scheduling(s: State) {
    && |s.pc| >= 1 && (s.mutex.Some? ==> s.mutex.value < |s.pc|)
    && (forall t :: 0 <= t < |s.pc| ==> (s.mutex == Some(t) <==> s.pc[t] == AtTop))
    && s.idle == Count(s.pc, Blocked)
    && s.running == Count(s.pc, Slow) <= Threshold(s)
    && NoDup(s.wq)
    && (s.slowPending != [] ==> RunSlow in s.wq)
    && (SomeWaiting(s.pc) ==> Runnable(s) <= Count(s.pc, Coming))
  }

  /** The part of the scheduling invariant about counts, threads and the mutex. */
  predicate Counted(s: State) {
    && |s.pc| >= 1 && (s.mutex.Some? ==> s.mutex.value < |s.pc|)
    && (forall t :: 0 <= t < |s.pc| ==> (s.mutex == Some(t) <==> s.pc[t] == AtTop))
    && s.idle == Count(s.pc, Blocked)
    && s.running == Count(s.pc, Slow)
  }

  /** One thread moves from pc[t] to x. */
  lemma Move(s: State, t: Thread, x: Pc)
    requires t < |s.pc|
    ensures Count(s.pc[t := x], Blocked) == Count(s.pc, Blocked) - One(In(s.pc[t], Blocked)) + One(In(x, Blocked))
    ensures Count(s.pc[t := x], Slow) == Count(s.pc, Slow) - One(In(s.pc[t], Slow)) + One(In(x, Slow))
    ensures Count(s.pc[t := x], Coming) == Count(s.pc, Coming) - One(In(s.pc[t], Coming)) + One(In(x, Coming))
  {
    CountUpdate(s.pc, t, x, Blocked);
    CountUpdate(s.pc, t, x, Slow);
    CountUpdate(s.pc, t, x, Coming);
  }

  /** A signal keeps the counts, and brings one more thread on its way if one is blocked. */
  lemma SignalKeeps(s: State, wake: Thread)
    requires Counted(s) && CanSignal(s.pc, wake)
    ensures var s' := Signal(s, wake);
            && s' == s.(pc := s'.pc) && Counted(s') && |s'.pc| == |s.pc|
            && (SomeWaiting(s'.pc) ==> SomeWaiting(s.pc))
            && Count(s'.pc, Coming) == Count(s.pc, Coming) + One(SomeWaiting(s.pc))
  {
    if SomeWaiting(s.pc) {
      CountHas(s.pc, wake, Blocked);
      Move(s, wake, Woken);
    }
  }

  /** A new entry behind the queue, with its signal. */
  lemma EnqueueKeeps(s: State, e: Entry, wake: Thread)
    requires Counted(s) && s.running <= Threshold(s) && NoDup(s.wq) && e !in s.wq && CanSignal(s.pc, wake)
    requires s.slowPending != [] ==> RunSlow in s.wq || e == RunSlow
    requires SomeWaiting(s.pc) ==> Runnable(s) <= Count(s.pc, Coming)
    ensures Scheduling(Signal(s.(wq := s.wq + [e]), wake))
  {
    NoDupSnoc(s.wq, e);
    SignalKeeps(s.(wq := s.wq + [e]), wake);
  }

  lemma PostKeeps(s: State, item: Item, k: Kind, wake: Thread)
    requires Scheduling(s) && CanSignal(s.pc, wake) && Work(item) !in s.wq
    ensures Scheduling(Post(s, item, k, wake))
  {
    if k != SlowIo {
      EnqueueKeeps(s, Work(item), wake);
    } else if RunSlow !in s.wq {
      EnqueueKeeps(s.(slowPending := s.slowPending + [item]), RunSlow, wake);
    }
  }

  lemma TakeWorkKeeps(s: State, t: Thread, item: Item)
    requires Scheduling(s) && t < |s.pc| && s.pc[t] == AtTop && s.wq != [] && s.wq[0] == Work(item)
    ensures Scheduling(s.(wq := s.wq[1..], mutex := None, pc := s.pc[t := Working(item, false)],
                          at := s.at[item := With(t)]))
  {
    NoDupTail(s.wq);
    Move(s, t, Working(item, false));
  }

  lemma TookSlowCounted(s: State, t: Thread, wq: seq<Entry>)
    requires Counted(s) && t < |s.pc| && s.pc[t] == AtTop && s.slowPending != []
    ensures Counted(TookSlow(s, t, wq))
    ensures Count(TookSlow(s, t, wq).pc, Coming) == Count(s.pc, Coming) - 1
    ensures SomeWaiting(TookSlow(s, t, wq).pc) == SomeWaiting(s.pc)
  {
    var pc' := s.pc[t := Working(s.slowPending[0], true)];
    Move(s, t, Working(s.slowPending[0], true));
    if SomeWaiting(s.pc) {
      var i :| 0 <= i < |s.pc| && s.pc[i] == Waiting;
      assert pc'[i] == Waiting;
    }
  }

  /** A worker takes slow work; the message goes back when more is pending. */
  lemma TakeSlowKeeps(s: State, t: Thread, wake: Thread)
    requires Scheduling(s) && t < |s.pc| && s.pc[t] == AtTop && CanSignal(s.pc, wake)
    requires s.wq != [] && s.wq[0] == RunSlow && s.running < Threshold(s) && s.slowPending != []
    ensures Scheduling(TakeEntry(s, t, wake))
  {
    hide Count, SomeWaiting, In;
    var rest := s.wq[1..];
    NoDupTail(s.wq);
    if s.slowPending[1..] == [] {
      TookSlowCounted(s, t, rest);
    } else {
      NoDupSnoc(rest, RunSlow);
      TookSlowCounted(s, t, rest + [RunSlow]);
      SignalKeeps(TookSlow(s, t, rest + [RunSlow]), wake);
    }
  }

  lemma TakeKeeps(s: State, t: Thread, wake: Thread)
    requires Scheduling(s) && Enabled(s, Take(t, wake))
    ensures Scheduling(TakeEntry(s, t, wake))
  {
    match s.wq[0]
    case Work(item) => TakeWorkKeeps(s, t, item);
    case RunSlow =>
      if s.running < Threshold(s) && s.slowPending != [] {
        TakeSlowKeeps(s, t, wake);
      } else {
        NoDupTail(s.wq);
        NoDupSnoc(s.wq[1..], RunSlow);
      }
  }

  /** A step that only moves a thread, which keeps its classes or comes to the queue. */
  lemma PcKeeps(s: State, s': State, t: Thread, x: Pc)
    requires Scheduling(s) && t < |s.pc| && s'.pc == s.pc[t := x]
    requires s'.mutex == s.mutex && s'.wq == s.wq && s'.slowPending == s.slowPending
    requires s'.idle == s.idle && s'.running == s.running
    requires s.pc[t] != AtTop && x != AtTop && x != Waiting
    requires In(x, Blocked) == In(s.pc[t], Blocked) && In(x, Slow) == In(s.pc[t], Slow)
    requires In(s.pc[t], Coming) ==> In(x, Coming)
    ensures Scheduling(s')
  {
    Move(s, t, x);
    hide Count;
    assert SomeWaiting(s'.pc) ==> SomeWaiting(s.pc);
  }

  lemma WaitKeeps(s: State, t: Thread)
    requires Scheduling(s) && Enabled(s, Wait(t))
    ensures Scheduling(Do(s, Wait(t)))
  {
    Move(s, t, Waiting);
    hide Count;
  }

  lemma ThreadStepKeeps(s: State, step: Step)
    requires Scheduling(s) && Enabled(s, step)
    requires step.Spurious? || step.Wait? || step.CallWork? || step.Deliver?
    ensures Scheduling(Do(s, step))
  {
    match step
    case Spurious(t) => PcKeeps(s, Do(s, step), t, Woken);
    case Wait(t) => WaitKeeps(s, t);
    case CallWork(t) => PcKeeps(s, Do(s, step), t, Worked(s.pc[t].item, s.pc[t].slow));
    case Deliver(t) => PcKeeps(s, Do(s, step), t, Returning(s.pc[t].slow));
  }

  lemma LockKeeps(s: State, step: Step)
    requires Scheduling(s) && Enabled(s, step)
    requires step.Lock? || step.Relock?
    ensures Scheduling(Do(s, step))
  {
    Move(s, step.t, AtTop);
  }

  lemma UnlinkKeeps(s: State, item: Item)
    requires Scheduling(s) && Enabled(s, CancelUnlink(item))
    ensures Scheduling(Do(s, CancelUnlink(item)))
  {
    WithoutFacts(s.wq, Work(item));
  }

  lemma SchedulingKept(s: State, step: Step)
    requires Scheduling(s) && Enabled(s, step)
    requires forall it :: Work(it) in s.wq ==> it in s.at
    ensures Scheduling(Do(s, step))
  {
    hide Post, TakeEntry, Count, IsLinked;
    match step
    case Submit(item, l, k, wake) =>
      PostKeeps(s.(kind := s.kind[item := k], loopOf := s.loopOf[item := l], work := s.work[item := Function],
                   at := s.at[item := if k == SlowIo then InSlow else InWq]), item, k, wake);
    case Take(t, wake) => TakeKeeps(s, t, wake);
    case CancelUnlink(item) => UnlinkKeeps(s, item);
    case CancelQueue(l) =>
    case DrainStart(l) =>
    case DrainNext(l) =>
    case Lock(t) => LockKeeps(s, step);
    case Relock(t) => LockKeeps(s, step);
    case _ => ThreadStepKeeps(s, step);
  }

  // ----- where an item is

  predicate Holds(pc: Pc, item: Item) {
    (pc.Working? || pc.Worked?) && pc.item == item
  }

  /** An item is in a place, judged from the queues, the program counters and the done calls. */
  predicate IsAt(s: State, item: Item, p: Place) {
    match p
    case InWq => Work(item) in s.wq
    case InSlow => item in s.slowPending
    case With(t) => t < |s.pc| && Holds(s.pc[t], item)
    case InCancel(l) => l < |s.loops| && s.loops[l].cancelling == Some(item)
    case InLoop(l) => l < |s.loops| && item in s.loops[l].queue
    case InDrain(l) => l < |s.loops| && item in s.loops[l].local
    case Finished => IsDone(s, item)
  }

  predicate IsDone(s: State, item: Item) {
    exists i :: 0 <= i < |s.done| && s.done[i].0 == item
  }

  ghost predicate Located(s: State) {
    && s.kind.Keys == s.loopOf.Keys == s.work.Keys == s.at.Keys
    && (forall item, p :: IsAt(s, item, p) <==> item in s.at && s.at[item] == p)
  }

  ghost predicate NoneTwice(s: State) {
    && NoDup(s.slowPending)
    && (forall l :: 0 <= l < |s.loops| ==> NoDup(s.loops[l].queue) && NoDup(s.loops[l].local))
    && (forall i, j :: 0 <= i < j < |s.done| ==> s.done[i].0 != s.done[j].0)
  }

  predicate Fits(s: State, item: Item, p: Place)
    requires item in s.kind && item in s.loopOf
  {
    match p
    case InWq => s.kind[item] != SlowIo
    case InSlow => s.kind[item] == SlowIo
    case With(t) => t < |s.pc| && Holds(s.pc[t], item) && (s.pc[t].slow <==> s.kind[item] == SlowIo)
    case InCancel(l) => l == s.loopOf[item]
    case InLoop(l) => l == s.loopOf[item]
    case InDrain(l) => l == s.loopOf[item]
    case Finished => true
  }

  /** The items of a loop's queues belong to the loop, and slow work stays apart. */
  ghost predicate Sorted(s: State)
    requires Located(s)
  {
    forall item :: item in s.at ==> s.loopOf[item] < |s.loops| && Fits(s, item, s.at[item])
  }

  // ----- what the longer steps change

  /** A signal may have woken a thread. */
  predicate Woke(pc: seq<Pc>, pc': seq<Pc>) {
    |pc'| == |pc| && forall i :: 0 <= i < |pc| ==> pc'[i] == pc[i] || (pc[i] == Waiting && pc'[i] == Woken)
  }

  predicate SameRecords(s: State, s': State) {
    s'.loops == s.loops && s'.ran == s.ran && s'.cancelled == s.cancelled && s'.done == s.done
  }

  lemma SubmitFields(s: State, item: Item, l: Loop, k: Kind, wake: Thread)
    requires Enabled(s, Submit(item, l, k, wake))
    ensures var s' := Do(s, Submit(item, l, k, wake));
            && SameRecords(s, s') && Woke(s.pc, s'.pc)
            && s'.kind == s.kind[item := k] && s'.loopOf == s.loopOf[item := l] && s'.work == s.work[item := Function]
            && s'.at == s.at[item := if k == SlowIo then InSlow else InWq]
            && s'.slowPending == (if k == SlowIo then s.slowPending + [item] else s.slowPending)
            && forall x :: Work(x) in s'.wq <==> Work(x) in s.wq || (x == item && k != SlowIo)
  {}

  /** The item that a worker takes from the head of the queue. */
  function Taken(s: State): Option<Item>
    requires s.wq != []
  {
    if s.wq[0].Work? then Some(s.wq[0].item)
    else if s.running < Threshold(s) && s.slowPending != [] then Some(s.slowPending[0])
    else None
  }

  lemma SlowTaken(s: State, t: Thread, wake: Thread)
    requires t < |s.pc| && s.wq != [] && s.wq[0].RunSlow? && Taken(s).Some? && s.pc[t] == AtTop
    ensures var s' := TakeEntry(s, t, wake);
            && SameRecords(s, s') && s'.kind == s.kind && s'.loopOf == s.loopOf && s'.work == s.work
            && s'.at == s.at[s.slowPending[0] := With(t)] && s'.slowPending == s.slowPending[1..]
            && Woke(s.pc[t := Working(s.slowPending[0], true)], s'.pc)
  {}

  lemma TakeFields(s: State, t: Thread, wake: Thread)
    requires Enabled(s, Take(t, wake))
    ensures var s' := Do(s, Take(t, wake));
            && SameRecords(s, s') && s'.kind == s.kind && s'.loopOf == s.loopOf && s'.work == s.work
            && match Taken(s)
               case None => s'.at == s.at && s'.pc == s.pc && s'.slowPending == s.slowPending
               case Some(item) =>
                 && s'.at == s.at[item := With(t)] && Woke(s.pc[t := Working(item, s.wq[0].RunSlow?)], s'.pc)
                 && s'.slowPending == if s.wq[0].RunSlow? then s.slowPending[1..] else s.slowPending
  {
    assert Do(s, Take(t, wake)) == TakeEntry(s, t, wake);
    hide Do;
    if s.wq[0].RunSlow? && Taken(s).Some? {
      SlowTaken(s, t, wake);
      hide TakeEntry;
    }
  }

  lemma TakeQueue(s: State, t: Thread, wake: Thread, x: Item)
    requires Enabled(s, Take(t, wake)) && NoDup(s.wq)
    ensures Work(x) in Do(s, Take(t, wake)).wq <==> Work(x) in s.wq && s.wq[0] != Work(x)
  {
    NoDupTail(s.wq);
  }

  lemma UnlinkFields(s: State, item: Item)
    requires Enabled(s, CancelUnlink(item)) && IsLinked(s, item) && s.work[item] != Null
    ensures var s' := Do(s, CancelUnlink(item));
            var l := s.loopOf[item];
            && s'.pc == s.pc && s'.done == s.done && s'.kind == s.kind && s'.loopOf == s.loopOf && s'.work == s.work
            && s'.wq == Without(s.wq, Work(item)) && s'.slowPending == Without(s.slowPending, item)
            && s'.at == s.at[item := InCancel(l)]
            && s'.loops == s.loops[l := LoopState(Without(s.loops[l].queue, item), Without(s.loops[l].local, item), Some(item))]
  {}

  lemma SubmitLocated(s: State, item: Item, l: Loop, k: Kind, wake: Thread)
    requires Located(s) && Enabled(s, Submit(item, l, k, wake))
    ensures Located(Do(s, Submit(item, l, k, wake)))
  {
    var s' := Do(s, Submit(item, l, k, wake));
    SubmitFields(s, item, l, k, wake);
    hide Do, Post, Signal;
    forall it, p
      ensures IsAt(s', it, p) <==> it in s'.at && s'.at[it] == p
    {
      assert IsAt(s, it, p) <==> it in s.at && s.at[it] == p;
    }
  }

  lemma MoveLocated(s: State, step: Step)
    requires Located(s) && Enabled(s, step)
    requires step.Lock? || step.Relock? || step.Spurious? || step.Wait? || step.CallWork?
    ensures Located(Do(s, step))
  {
    var s' := Do(s, step);
    forall it, p
      ensures IsAt(s', it, p) <==> it in s'.at && s'.at[it] == p
    {
      assert IsAt(s, it, p) <==> it in s.at && s.at[it] == p;
    }
  }

  lemma TakeLocated(s: State, t: Thread, wake: Thread)
    requires NoDup(s.wq) && Located(s) && NoneTwice(s) && Enabled(s, Take(t, wake))
    ensures Located(Do(s, Take(t, wake)))
  {
    var s' := Do(s, Take(t, wake));
    TakeFields(s, t, wake);
    TakenFrom(s);
    hide Do, TakeEntry, Signal;
    forall it, p
      ensures IsAt(s', it, p) <==> it in s'.at && s'.at[it] == p
    {
      TakeAt(s, t, wake, it, p);
    }
  }

  lemma TakenFrom(s: State)
    requires Located(s) && s.wq != []
    ensures Taken(s).Some? ==>
              Taken(s).value in s.at && s.at[Taken(s).value] == if s.wq[0].RunSlow? then InSlow else InWq
  {
    if Taken(s).Some? {
      assert IsAt(s, Taken(s).value, if s.wq[0].RunSlow? then InSlow else InWq);
    }
  }

  lemma TakeAt(s: State, t: Thread, wake: Thread, it: Item, p: Place)
    requires NoDup(s.wq) && Located(s) && NoneTwice(s) && Enabled(s, Take(t, wake))
    ensures var s' := Do(s, Take(t, wake)); IsAt(s', it, p) <==> it in s'.at && s'.at[it] == p
  {
    TakeFields(s, t, wake);
    TakeQueue(s, t, wake, it);
    TakenFrom(s);
    assert IsAt(s, it, p) <==> it in s.at && s.at[it] == p;
    assert IsAt(s, it, InWq) <==> it in s.at && s.at[it] == InWq;
    TakenAt(s, Do(s, Take(t, wake)), t, it, p);
    hide Do, TakeEntry, IsAt;
  }

  /** The item taken is with the thread, and the others are where they were. */
  lemma TakenAt(s: State, s': State, t: Thread, it: Item, p: Place)
    requires NoDup(s.slowPending) && Located(s) && t < |s.pc| && s.pc[t] == AtTop && s.wq != []
    requires SameRecords(s, s') && (Work(it) in s'.wq <==> Work(it) in s.wq && s.wq[0] != Work(it))
    requires Taken(s).Some? ==>
               Taken(s).value in s.at && s.at[Taken(s).value] == if s.wq[0].RunSlow? then InSlow else InWq
    requires match Taken(s)
             case None => s'.pc == s.pc && s'.slowPending == s.slowPending
             case Some(item) =>
               && Woke(s.pc[t := Working(item, s.wq[0].RunSlow?)], s'.pc)
               && s'.slowPending == if s.wq[0].RunSlow? then s.slowPending[1..] else s.slowPending
    ensures IsAt(s', it, p) <==> if Taken(s) == Some(it) then p == With(t) else IsAt(s, it, p)
  {
    if s.slowPending != [] {
      NoDupTail(s.slowPending);
    }
    assert IsAt(s, it, p) <==> it in s.at && s.at[it] == p;
    assert IsAt(s, it, InWq) <==> it in s.at && s.at[it] == InWq;
  }

  lemma DeliverLocated(s: State, t: Thread)
    requires Located(s) && Enabled(s, Deliver(t))
    ensures Located(Do(s, Deliver(t)))
  {
    var s' := Do(s, Deliver(t));
    assert IsAt(s, s.pc[t].item, With(t));
    forall it, p
      ensures IsAt(s', it, p) <==> it in s'.at && s'.at[it] == p
    {
      assert IsAt(s, it, p) <==> it in s.at && s.at[it] == p;
    }
  }

  lemma LinkedPlace(s: State, item: Item)
    requires Located(s) && Sorted(s) && IsLinked(s, item)
    ensures item in s.at && s.loopOf[item] < |s.loops|
    ensures var l := s.loopOf[item]; s.at[item] in {InWq, InSlow, InLoop(l), InDrain(l)}
  {
    if Work(item) in s.wq {
      assert IsAt(s, item, InWq);
    } else if item in s.slowPending {
      assert IsAt(s, item, InSlow);
    } else {
      var l :| 0 <= l < |s.loops| && (item in s.loops[l].queue || item in s.loops[l].local);
      if item in s.loops[l].queue {
        assert IsAt(s, item, InLoop(l));
      } else {
        assert IsAt(s, item, InDrain(l));
      }
    }
  }

  lemma CancelLocated(s: State, item: Item)
    requires NoDup(s.wq) && Located(s) && NoneTwice(s) && Sorted(s) && Enabled(s, CancelUnlink(item))
    ensures Located(Do(s, CancelUnlink(item)))
  {
    var s' := Do(s, CancelUnlink(item));
    assert s'.kind.Keys == s'.loopOf.Keys == s'.work.Keys == s'.at.Keys;
    hide Do, IsAt;
    forall it, p
      ensures IsAt(s', it, p) <==> it in s'.at && s'.at[it] == p
    {
      CancelAt(s, item, it, p);
    }
  }

  lemma CancelAt(s: State, item: Item, it: Item, p: Place)
    requires NoDup(s.wq) && Located(s) && NoneTwice(s) && Sorted(s) && Enabled(s, CancelUnlink(item))
    ensures var s' := Do(s, CancelUnlink(item)); IsAt(s', it, p) <==> it in s'.at && s'.at[it] == p
  {
    assert IsAt(s, it, p) <==> it in s.at && s.at[it] == p;
    if IsLinked(s, item) && s.work[item] != Null {
      UnlinkFields(s, item);
      LinkedPlace(s, item);
      UnlinkedAt(s, Do(s, CancelUnlink(item)), item, it, p);
    }
  }

  /** The unlinked item is nowhere but in its cancellation, and the others are where they were. */
  lemma UnlinkedAt(s: State, s': State, item: Item, it: Item, p: Place)
    requires NoDup(s.wq) && Located(s) && NoneTwice(s) && item in s.at && s.loopOf[item] < |s.loops|
    requires var l := s.loopOf[item];
             && s.loops[l].cancelling == None && s.at[item] in {InWq, InSlow, InLoop(l), InDrain(l)}
             && s'.pc == s.pc && s'.done == s.done
             && s'.wq == Without(s.wq, Work(item)) && s'.slowPending == Without(s.slowPending, item)
             && s'.loops == s.loops[l := LoopState(Without(s.loops[l].queue, item), Without(s.loops[l].local, item), Some(item))]
    ensures IsAt(s', it, p) <==> if it == item then p == InCancel(s.loopOf[item]) else IsAt(s, it, p)
  {
    var l := s.loopOf[item];
    WithoutFacts(s.wq, Work(item));
    WithoutFacts(s.slowPending, item);
    WithoutFacts(s.loops[l].queue, item);
    WithoutFacts(s.loops[l].local, item);
    assert IsAt(s, item, p) <==> s.at[item] == p;
  }

  lemma CancelQueueLocated(s: State, l: Loop)
    requires Located(s) && Enabled(s, CancelQueue(l))
    ensures Located(Do(s, CancelQueue(l)))
  {
    var s' := Do(s, CancelQueue(l));
    assert IsAt(s, s.loops[l].cancelling.value, InCancel(l));
    forall it, p
      ensures IsAt(s', it, p) <==> it in s'.at && s'.at[it] == p
    {
      assert IsAt(s, it, p) <==> it in s.at && s.at[it] == p;
    }
  }

  lemma DrainStartLocated(s: State, l: Loop)
    requires Located(s) && Enabled(s, DrainStart(l))
    ensures Located(Do(s, DrainStart(l)))
  {
    var s' := Do(s, DrainStart(l));
    forall it, p
      ensures IsAt(s', it, p) <==> it in s'.at && s'.at[it] == p
    {
      assert IsAt(s, it, p) <==> it in s.at && s.at[it] == p;
      assert IsAt(s, it, InLoop(l)) <==> it in s.at && s.at[it] == InLoop(l);
      assert IsAt(s, it, InDrain(l)) <==> it in s.at && s.at[it] == InDrain(l);
    }
  }

  lemma DrainNextLocated(s: State, l: Loop)
    requires Located(s) && NoneTwice(s) && Enabled(s, DrainNext(l))
    ensures Located(Do(s, DrainNext(l)))
  {
    var s' := Do(s, DrainNext(l));
    NoDupTail(s.loops[l].local);
    forall it, p
      ensures IsAt(s', it, p) <==> it in s'.at && s'.at[it] == p
    {
      assert IsAt(s, it, p) <==> it in s.at && s.at[it] == p;
      assert IsAt(s, it, InDrain(l)) <==> it in s.at && s.at[it] == InDrain(l);
      assert IsDone(s', it) <==> IsDone(s, it) || it == s.loops[l].local[0] by {
        DoneSnoc(s, s', it);
      }
    }
  }

  lemma DoneSnoc(s: State, s': State, it: Item)
    requires exists d :: s'.done == s.done + [d]
    ensures IsDone(s', it) <==> IsDone(s, it) || it == s'.done[|s.done|].0
  {
    if i :| 0 <= i < |s.done| && s.done[i].0 == it {
      assert s'.done[i].0 == it;
    }
    assert s'.done[|s.done|].0 == it ==> IsDone(s', it);
  }

  lemma LocatedKept(s: State, step: Step)
    requires NoDup(s.wq) && Located(s) && NoneTwice(s) && Sorted(s) && Enabled(s, step)
    ensures Located(Do(s, step))
  {
    match step
    case Submit(item, l, k, wake) => SubmitLocated(s, item, l, k, wake);
    case Take(t, wake) => TakeLocated(s, t, wake);
    case Deliver(t) => DeliverLocated(s, t);
    case CancelUnlink(item) => CancelLocated(s, item);
    case CancelQueue(l) => CancelQueueLocated(s, l);
    case DrainStart(l) => DrainStartLocated(s, l);
    case DrainNext(l) => DrainNextLocated(s, l);
    case _ => MoveLocated(s, step);
  }

  lemma QueuedOnce(s: State, step: Step)
    requires Located(s) && NoneTwice(s) && Sorted(s) && Enabled(s, step)
    requires step.Deliver? || step.CancelQueue? || step.DrainStart? || step.DrainNext?
    ensures NoneTwice(Do(s, step))
  {
    match step
    case Deliver(t) =>
      var item := s.pc[t].item;
      var l := s.loopOf[item];
      assert IsAt(s, item, With(t));
      assert !IsAt(s, item, InLoop(l));
      NoDupSnoc(s.loops[l].queue, item);
    case CancelQueue(l) =>
      var item := s.loops[l].cancelling.value;
      assert IsAt(s, item, InCancel(l));
      assert !IsAt(s, item, InLoop(l));
      NoDupSnoc(s.loops[l].queue, item);
    case DrainNext(l) =>
      var item := s.loops[l].local[0];
      NoDupTail(s.loops[l].local);
      assert IsAt(s, item, InDrain(l));
      assert !IsAt(s, item, Finished);
    case _ =>
  }

  lemma PostedOnce(s: State, step: Step)
    requires Located(s) && NoneTwice(s) && Enabled(s, step) && (step.Submit? || step.Take?)
    ensures NoneTwice(Do(s, step))
  {
    hide Do, Post, TakeEntry, Signal;
    match step
    case Submit(item, l, k, wake) =>
      SubmitFields(s, item, l, k, wake);
      assert !IsAt(s, item, InSlow);
      NoDupSnoc(s.slowPending, item);
    case Take(t, wake) =>
      TakeFields(s, t, wake);
      if s.slowPending != [] {
        NoDupTail(s.slowPending);
      }
  }

  lemma UnlinkedOnce(s: State, item: Item)
    requires Located(s) && NoneTwice(s) && Enabled(s, CancelUnlink(item))
    ensures NoneTwice(Do(s, CancelUnlink(item)))
  {
    var l := s.loopOf[item];
    WithoutFacts(s.slowPending, item);
    WithoutFacts(s.loops[l].queue, item);
    WithoutFacts(s.loops[l].local, item);
  }

  lemma NoneTwiceKept(s: State, step: Step)
    requires Located(s) && NoneTwice(s) && Sorted(s) && Enabled(s, step)
    ensures NoneTwice(Do(s, step))
  {
    match step
    case Submit(_, _, _, _) => PostedOnce(s, step);
    case Take(_, _) => PostedOnce(s, step);
    case CancelUnlink(item) => UnlinkedOnce(s, item);
    case Deliver(_) => QueuedOnce(s, step);
    case CancelQueue(_) => QueuedOnce(s, step);
    case DrainStart(_) => QueuedOnce(s, step);
    case DrainNext(_) => QueuedOnce(s, step);
    case _ =>
  }

  /** The item a step moves was in its old place. */
  lemma MovedFrom(s: State, step: Step)
    requires Located(s) && Sorted(s) && Enabled(s, step)
    ensures match step
            case Take(t, _) =>
              && (s.wq[0].Work? ==> s.wq[0].item in s.at && s.at[s.wq[0].item] == InWq)
              && (s.slowPending != [] ==> s.slowPending[0] in s.at && s.at[s.slowPending[0]] == InSlow)
            case CallWork(t) => s.pc[t].item in s.at && s.at[s.pc[t].item] == With(t)
            case Deliver(t) => s.pc[t].item in s.at && s.at[s.pc[t].item] == With(t)
            case CancelQueue(l) =>
              var item := s.loops[l].cancelling.value; item in s.at && s.at[item] == InCancel(l)
            case DrainNext(l) => var item := s.loops[l].local[0]; item in s.at && s.at[item] == InDrain(l)
            case _ => true
  {
    match step
    case Take(t, wake) =>
      assert s.wq[0].Work? ==> IsAt(s, s.wq[0].item, InWq);
      assert s.slowPending != [] ==> IsAt(s, s.slowPending[0], InSlow);
    case CallWork(t) => assert IsAt(s, s.pc[t].item, With(t));
    case Deliver(t) => assert IsAt(s, s.pc[t].item, With(t));
    case CancelQueue(l) => assert IsAt(s, s.loops[l].cancelling.value, InCancel(l));
    case DrainNext(l) => assert IsAt(s, s.loops[l].local[0], InDrain(l));
    case _ =>
  }

  /** The step moves the item or writes its work field. */
  predicate Moved(s: State, step: Step, it: Item)
    requires Enabled(s, step)
  {
    match step
    case Submit(item, _, _, _) => it == item
    case Take(_, _) => Taken(s) == Some(it)
    case CallWork(t) => it == s.pc[t].item
    case Deliver(t) => it == s.pc[t].item
    case CancelUnlink(item) => it == item
    case CancelQueue(l) => it == s.loops[l].cancelling.value
    case DrainStart(l) => it in s.at && s.at[it] == InLoop(l)
    case DrainNext(l) => it == s.loops[l].local[0]
    case _ => false
  }

  /** Everything that is recorded of the item is the same. */
  predicate Same(s: State, s': State, it: Item)
    requires it in s.at && it in s.kind && it in s.loopOf && it in s.work
  {
    && it in s'.at && it in s'.kind && it in s'.loopOf && it in s'.work
    && s'.at[it] == s.at[it] && s'.kind[it] == s.kind[it] && s'.loopOf[it] == s.loopOf[it] && s'.work[it] == s.work[it]
    && (it in s'.ran <==> it in s.ran) && (it in s'.cancelled <==> it in s.cancelled)
    && ((it, Ok) in s'.done <==> (it, Ok) in s.done) && ((it, ECanceled) in s'.done <==> (it, ECanceled) in s.done)
    && (s.at[it].With? ==> s.at[it].t < |s.pc| == |s'.pc| && s'.pc[s.at[it].t] == s.pc[s.at[it].t])
  }

  lemma UnmovedByTake(s: State, t: Thread, wake: Thread, it: Item)
    requires Located(s) && Enabled(s, Take(t, wake)) && !Moved(s, Take(t, wake), it) && it in s.at
    ensures Same(s, Do(s, Take(t, wake)), it)
  {
    TakeFields(s, t, wake);
    hide Do, TakeEntry, Signal, Taken;
    assert IsAt(s, it, s.at[it]);
  }

  lemma UnmovedBySubmit(s: State, item: Item, l: Loop, k: Kind, wake: Thread, it: Item)
    requires Located(s) && Enabled(s, Submit(item, l, k, wake)) && it != item && it in s.at
    ensures Same(s, Do(s, Submit(item, l, k, wake)), it)
  {
    SubmitFields(s, item, l, k, wake);
    hide Do, Post, Signal;
    assert IsAt(s, it, s.at[it]);
  }

  lemma Unmoved(s: State, step: Step, it: Item)
    requires Located(s) && Enabled(s, step) && !Moved(s, step, it)
    ensures |Do(s, step).loops| == |s.loops| && (it in Do(s, step).at <==> it in s.at)
    ensures it in s.at ==> Same(s, Do(s, step), it)
  {
    if it in s.at {
      assert IsAt(s, it, s.at[it]);
    }
    match step
    case Take(t, wake) =>
      TakeFields(s, t, wake);
      if it in s.at {
        UnmovedByTake(s, t, wake, it);
      }
    case Submit(item, l, k, wake) =>
      SubmitFields(s, item, l, k, wake);
      if it in s.at {
        UnmovedBySubmit(s, item, l, k, wake, it);
      }
    case _ =>
  }

  /** What is known of a submitted item and of one that a worker takes. */
  lemma PostedAt(s: State, step: Step)
    requires Located(s) && Enabled(s, step)
    ensures match step
            case Submit(item, l, k, _) =>
              var s' := Do(s, step);
              && SameRecords(s, s') && s'.loopOf == s.loopOf[item := l] && s'.kind == s.kind[item := k]
              && s'.work == s.work[item := Function] && s'.at == s.at[item := if k == SlowIo then InSlow else InWq]
            case Take(t, _) =>
              var s' := Do(s, step);
              && SameRecords(s, s') && s'.loopOf == s.loopOf && s'.kind == s.kind && s'.work == s.work
              && (Taken(s).Some? ==>
                    && s'.at == s.at[Taken(s).value := With(t)] && t < |s'.pc|
                    && s'.pc[t] == Working(Taken(s).value, s.wq[0].RunSlow?)
                    && Taken(s).value in s.at && s.at[Taken(s).value] == if s.wq[0].RunSlow? then InSlow else InWq)
            case _ => true
  {
    match step
    case Submit(item, l, k, wake) => SubmitFields(s, item, l, k, wake);
    case Take(t, wake) =>
      TakeFields(s, t, wake);
      TakenFrom(s);
    case _ =>
  }

  lemma MovedFits(s: State, step: Step, it: Item)
    requires Located(s) && Sorted(s) && Enabled(s, step) && Moved(s, step, it)
    requires Located(Do(s, step)) && it in Do(s, step).at
    ensures Do(s, step).loopOf[it] < |Do(s, step).loops| && Fits(Do(s, step), it, Do(s, step).at[it])
  {
    MovedFrom(s, step);
    assert it in s.at ==> s.loopOf[it] < |s.loops| && Fits(s, it, s.at[it]);
    PostedAt(s, step);
  }

  lemma SortedKept(s: State, step: Step)
    requires Located(s) && Sorted(s) && Enabled(s, step)
    requires Located(Do(s, step))
    ensures Sorted(Do(s, step))
  {
    forall it | it in Do(s, step).at
      ensures Do(s, step).loopOf[it] < |Do(s, step).loops| && Fits(Do(s, step), it, Do(s, step).at[it])
    {
      if Moved(s, step, it) {
        MovedFits(s, step, it);
      } else {
        Unmoved(s, step, it);
        assert Fits(s, it, s.at[it]);
      }
    }
  }

  // ----- what has happened to an item

  /** How the work field and the history of calls go with the place of an item. */
  ghost predicate Recorded(s: State, item: Item)
    requires Located(s) && item in s.at
  {
    match s.at[item]
    case InWq => s.work[item] == Function && item !in s.ran && item !in s.cancelled
    case InSlow => s.work[item] == Function && item !in s.ran && item !in s.cancelled
    case With(t) =>
      && s.work[item] == Function && item !in s.cancelled
      && t < |s.pc| && (item in s.ran <==> s.pc[t].Worked?)
    case InCancel(_) => s.work[item] != Null && item !in s.ran
    case InLoop(_) => Settled(s, item)
    case InDrain(_) => Settled(s, item)
    case Finished => Settled(s, item) && (s.work[item] == Cancelled <==> (item, ECanceled) in s.done)
                     && (s.work[item] == Null <==> (item, Ok) in s.done)
  }

  ghost predicate Settled(s: State, item: Item)
    requires item in s.work
  {
    || (s.work[item] == Null && item in s.ran && item !in s.cancelled)
    || (s.work[item] == Cancelled && item !in s.ran && item in s.cancelled)
  }

  ghost predicate History(s: State)
    requires Located(s)
  {
    && NoDup(s.ran)
    && (forall item :: item in s.ran || item in s.cancelled ==> item in s.at)
    && (forall item :: item in s.at ==> Recorded(s, item))
  }

  /** What a step adds to the histories. */
  lemma Grows(s: State, step: Step)
    requires Enabled(s, step)
    ensures s.at.Keys <= Do(s, step).at.Keys
    ensures Do(s, step).ran == if step.CallWork? then s.ran + [s.pc[step.t].item] else s.ran
    ensures Do(s, step).cancelled ==
            if step.CancelQueue? then s.cancelled + {s.loops[step.l].cancelling.value} else s.cancelled
  {
    match step
    case Submit(item, l, k, wake) => SubmitFields(s, item, l, k, wake);
    case Take(t, wake) => TakeFields(s, t, wake);
    case _ =>
  }

  lemma RanKept(s: State, step: Step)
    requires Located(s) && Sorted(s) && History(s) && Enabled(s, step)
    ensures NoDup(Do(s, step).ran)
    ensures forall item :: item in Do(s, step).ran || item in Do(s, step).cancelled ==> item in Do(s, step).at
  {
    MovedFrom(s, step);
    Grows(s, step);
    hide Do;
    if step.CallWork? {
      var t := step.t;
      assert Recorded(s, s.pc[t].item);
      NoDupSnoc(s.ran, s.pc[t].item);
    }
  }

  lemma NotDone(s: State, item: Item)
    requires Located(s) && item in s.at && s.at[item] != Finished
    ensures (item, Ok) !in s.done && (item, ECanceled) !in s.done
  {
    assert !IsAt(s, item, Finished);
    assert forall i :: 0 <= i < |s.done| ==> s.done[i].0 != item;
  }

  lemma MovedRecorded(s: State, step: Step, it: Item)
    requires Located(s) && Sorted(s) && History(s) && Enabled(s, step) && Moved(s, step, it)
    requires Located(Do(s, step)) && it in Do(s, step).at
    requires !step.CancelUnlink? && !step.DrainStart? && !step.DrainNext?
    ensures Recorded(Do(s, step), it)
  {
    MovedFrom(s, step);
    assert it in s.at ==> Recorded(s, it) && Fits(s, it, s.at[it]);
    PostedAt(s, step);
  }

  lemma LoopRecorded(s: State, step: Step, it: Item)
    requires Located(s) && Sorted(s) && History(s) && Enabled(s, step) && Moved(s, step, it)
    requires Located(Do(s, step)) && it in Do(s, step).at
    requires step.CancelUnlink? || step.DrainStart? || step.DrainNext?
    ensures Recorded(Do(s, step), it)
  {
    MovedFrom(s, step);
    assert it in s.at ==> Recorded(s, it) && Fits(s, it, s.at[it]);
    match step
    case CancelUnlink(_) =>
      if IsLinked(s, it) {
        LinkedPlace(s, it);
      }
    case DrainNext(_) => NotDone(s, it);
    case _ =>
  }

  lemma RecordedKept(s: State, step: Step, it: Item)
    requires Located(s) && Sorted(s) && History(s) && Enabled(s, step)
    requires Located(Do(s, step)) && it in Do(s, step).at
    ensures Recorded(Do(s, step), it)
  {
    if Moved(s, step, it) {
      if step.CancelUnlink? || step.DrainStart? || step.DrainNext? {
        LoopRecorded(s, step, it);
      } else {
        MovedRecorded(s, step, it);
      }
    } else {
      Unmoved(s, step, it);
      assert Recorded(s, it);
    }
  }

  lemma HistoryKept(s: State, step: Step)
    requires Located(s) && Sorted(s) && History(s) && Enabled(s, step)
    requires Located(Do(s, step))
    ensures History(Do(s, step))
  {
    RanKept(s, step);
    forall it | it in Do(s, step).at
      ensures Recorded(Do(s, step), it)
    {
      RecordedKept(s, step, it);
    }
  }

  // ----- every run

  ghost predicate Inv(s: State) {
    Scheduling(s) && Located(s) && NoneTwice(s) && Sorted(s) && History(s)
  }

  lemma InvInit(s: State)
    requires Initial(s)
    ensures Inv(s)
  {
    NoneCounted(s.pc, Blocked);
    NoneCounted(s.pc, Slow);
  }

  lemma {:induction false} NoneCounted(pc: seq<Pc>, c: Class)
    requires forall t :: 0 <= t < |pc| ==> !In(pc[t], c)
    ensures Count(pc, c) == 0
  {
    if pc != [] {
      NoneCounted(pc[1..], c);
    }
  }

  lemma InvKept(s: State, step: Step)
    requires Inv(s) && Enabled(s, step)
    ensures Inv(Do(s, step))
  {
    assert forall it :: IsAt(s, it, InWq) <==> it in s.at && s.at[it] == InWq;
    assert forall it :: Work(it) in s.wq ==> IsAt(s, it, InWq);
    SchedulingKept(s, step);
    LocatedKept(s, step);
    NoneTwiceKept(s, step);
    SortedKept(s, step);
    HistoryKept(s, step);
  }

  /** The state after a sequence of steps, None when one of them is not enabled. */
  function Run(s: State, steps: seq<Step>): Option<State>
    decreases |steps|
  {
    if steps == [] then Some(s)
    else if Enabled(s, steps[0]) then Run(Do(s, steps[0]), steps[1..])
    else None
  }

  lemma {:induction false} RunKeeps(s: State, steps: seq<Step>)
    requires Inv(s) && Run(s, steps).Some?
    ensures Inv(Run(s, steps).value)
    ensures s.cancelled <= Run(s, steps).value.cancelled
    decreases |steps|
  {
    if steps != [] {
      Grows(s, steps[0]);
      hide Do, Enabled;
      InvKept(s, steps[0]);
      RunKeeps(Do(s, steps[0]), steps[1..]);
    }
  }

  ghost predicate Reachable(s: State) {
    exists s0, steps :: Initial(s0) && Run(s0, steps) == Some(s)
  }

  lemma ReachableInv(s: State)
    requires Reachable(s)
    ensures Inv(s)
  {
    var s0, steps :| Initial(s0) && Run(s0, steps) == Some(s);
    InvInit(s0);
    RunKeeps(s0, steps);
  }

  /** A submitted item is in exactly one place, once; an item never submitted is nowhere. */
  lemma InExactlyOnePlace(s: State, item: Item)
    requires Reachable(s)
    ensures if item in s.at then exists p :: IsAt(s, item, p) && forall p' :: IsAt(s, item, p') ==> p' == p
            else forall p :: !IsAt(s, item, p)
    ensures NoDup(s.wq) && NoneTwice(s)
  {
    ReachableInv(s);
    if item in s.at {
      assert IsAt(s, item, s.at[item]);
    }
  }

  /** The done function is called at most once per submission; it gets UV_ECANCELED exactly when
      uv_cancel returned 0, and then the work function was never called; otherwise it was called. */
  lemma DoneOnce(s: State, i: nat)
    requires Reachable(s) && i < |s.done|
    ensures forall j :: 0 <= j < |s.done| && j != i ==> s.done[j].0 != s.done[i].0
    ensures s.done[i].1 == ECanceled <==> s.done[i].0 in s.cancelled
    ensures s.done[i].1 == ECanceled <==> s.done[i].0 !in s.ran
    ensures NoDup(s.ran)
  {
    ReachableInv(s);
    var (item, status) := s.done[i];
    assert IsAt(s, item, Finished);
    assert Recorded(s, item);
    assert (item, status) in s.done;
  }

  /** After a successful uv_cancel the work function is not called in any continuation. */
  lemma CancelledNeverRuns(s: State, steps: seq<Step>, item: Item)
    requires Reachable(s) && item in s.cancelled && Run(s, steps).Some?
    ensures item !in Run(s, steps).value.ran
  {
    ReachableInv(s);
    RunKeeps(s, steps);
    var s' := Run(s, steps).value;
    assert Recorded(s', item);
  }

  /** The counters are what they are meant to count, the cap on slow work holds, and pending slow
      work is announced in the queue. */
  lemma SlowWorkCapped(s: State)
    requires Reachable(s)
    ensures s.running == Count(s.pc, Slow) <= (|s.pc| + 1) / 2
    ensures s.idle == Count(s.pc, Blocked)
    ensures s.slowPending != [] ==> RunSlow in s.wq
  {
    ReachableInv(s);
  }

  /** No wakeup is missed: while a worker is blocked, at least as many workers are on their way to
      the queue as there are entries that could be taken. */
  lemma NoMissedWakeup(s: State)
    requires Reachable(s) && SomeWaiting(s.pc)
    ensures |s.wq| - One(RunSlow in s.wq && s.running >= (|s.pc| + 1) / 2) <= Count(s.pc, Coming)
  {
    ReachableInv(s);
  }

  lemma {:induction false} SomeCounted(pc: seq<Pc>, c: Class) returns (t: Thread)
    requires Count(pc, c) > 0
    ensures t < |pc| && In(pc[t], c)
  {
    if In(pc[0], c) {
      t := 0;
    } else {
      t := SomeCounted(pc[1..], c);
      t := t + 1;
    }
  }

  /** No deadlock: while an entry could be taken, some worker has a step other than waiting. */
  lemma SomeWorkerMoves(s: State) returns (step: Step)
    requires Reachable(s) && Runnable(s) > 0
    ensures Enabled(s, step)
    ensures step.Lock? || step.Relock? || step.Take? || step.CallWork? || step.Deliver?
  {
    ReachableInv(s);
    if s.mutex.Some? {
      var t := s.mutex.value;
      var wake := 0;
      if SomeWaiting(s.pc) {
        wake :| 0 <= wake < |s.pc| && s.pc[wake] == Waiting;
      }
      step := Take(t, wake);
    } else {
      var t := 0;
      if SomeWaiting(s.pc) {
        t := SomeCounted(s.pc, Coming);
      }
      assert IsWorker(s, t) && s.pc[t] != Waiting && s.pc[t] != AtTop;
      match s.pc[t]
      case Starting => step := Lock(t);
      case Returning(_) => step := Lock(t);
      case Woken => step := Relock(t);
      case Working(_, _) => step := CallWork(t);
      case Worked(item, _) =>
        assert IsAt(s, item, With(t));
        step := Deliver(t);
    }
  }
}
