/** The portable barrier of src/thread-common.c, as a state machine.  A step is what uv_barrier_wait does
    between two points at which it gives up the mutex.

    `round` counts how often the threshold has been reached; a thread that is counted in `in` carries the
    round it arrived in.  The histories count arrivals, returns, and returns of 1, by round. */
module Barrier {
  import opened Basics

  datatype Pc =
    | Outside
    | Queued(woken: bool)               // in the first wait, for out to be 0
    | Inside(round: nat, woken: bool)   // in the second wait, for in to be 0

  datatype State = State(
    threshold: nat, arrived: nat, out: nat,
    pc: seq<Pc>,
    round: nat,
    arrivals: seq<nat>, left: seq<nat>, ones: seq<nat>)

  datatype Step =
    | Wait(t: nat)       // uv_barrier_wait takes the mutex
    | Spurious(t: nat)   // a condition wait ends without a broadcast
    | Resume(t: nat)     // a woken thread has the mutex again

  predicate Enabled(s: State, step: Step) {
    match step
    case Wait(t) => t < |s.pc| && s.pc[t] == Outside
    case Spurious(t) => t < |s.pc| && s.pc[t] != Outside
    case Resume(t) => t < |s.pc| && s.pc[t] != Outside && s.pc[t].woken
  }

  /** uv_cond_broadcast */
  function Broadcast(pc: seq<Pc>): (r: seq<Pc>)
    ensures |r| == |pc|
  {
    seq(|pc|, t requires 0 <= t < |pc| => if pc[t] == Outside then Outside else pc[t].(woken := true))
  }

  function Bump(q: seq<nat>, r: nat): (p: seq<nat>)
    requires r < |q|
    ensures |p| == |q|
  {
    q[r := q[r] + 1]
  }

  /** The end of uv_barrier_wait for a thread of round r, which is not counted as waiting any more. */
  function Leave(s: State, t: nat, r: nat): State
    requires t < |s.pc| && r < |s.left| && r < |s.ones| && s.out > 0
  {
    var s1 := s.(pc := s.pc[t := Outside], out := s.out - 1, left := Bump(s.left, r));
    if s1.out == 0 then s1.(pc := Broadcast(s1.pc), ones := Bump(s.ones, r)) else s1
  }

  /** Behind the first wait: the thread is counted, and the last one of a round opens the barrier. */
  function Enter(s: State, t: nat): State
    requires t < |s.pc| && s.round < |s.arrivals| == |s.left| == |s.ones| && s.threshold >= 1
  {
    var s1 := s.(arrived := s.arrived + 1, arrivals := Bump(s.arrivals, s.round));
    if s1.arrived == s.threshold then
      var s2 := s1.(arrived := 0, out := s.threshold, pc := Broadcast(s1.pc[t := Outside]), round := s.round + 1,
                    arrivals := s1.arrivals + [0], left := s.left + [0], ones := s.ones + [0]);
      Leave(s2, t, s.round)
    else s1.(pc := s1.pc[t := Inside(s.round, false)])
  }

  /** What a step needs to be defined; Inv gives it. */
  predicate Defined(s: State, step: Step) {
    && Enabled(s, step) && s.round < |s.arrivals| == |s.left| == |s.ones| && s.threshold >= 1
    && (step.Resume? && s.pc[step.t].Inside? && s.arrived == 0 ==> s.pc[step.t].round < |s.left| && s.out > 0)
  }

  function Do(s: State, step: Step): State
    requires Defined(s, step)
  {
    match step
    case Wait(t) => if s.out != 0 then s.(pc := s.pc[t := Queued(false)]) else Enter(s, t)
    case Spurious(t) => s.(pc := s.pc[t := s.pc[t].(woken := true)])
    case Resume(t) =>
      if s.pc[t].Queued? then
        if s.out != 0 then s.(pc := s.pc[t := Queued(false)]) else Enter(s, t)
      else if s.arrived != 0 then s.(pc := s.pc[t := Inside(s.pc[t].round, false)])
      else Leave(s, t, s.pc[t].round)
  }

  predicate Initial(s: State) {
    && s.threshold >= 1 && s.arrived == s.out == s.round == 0
    && (forall t :: 0 <= t < |s.pc| ==> s.pc[t] == Outside)
    && s.arrivals == s.left == s.ones == [0]
  }

  function Run(s: State, steps: seq<Step>): Option<State>
    decreases |steps|
  {
    if steps == [] then Some(s)
    else if Defined(s, steps[0]) then Run(Do(s, steps[0]), steps[1..]) else None
  }

  ghost predicate Reachable(s: State) {
    exists s0, steps :: Initial(s0) && Run(s0, steps) == Some(s)
  }

  // ----- the invariant

  function Count(pc: seq<Pc>, r: nat): (n: nat) {
    if pc == [] then 0 else (if pc[0].Inside? && pc[0].round == r then 1 else 0) + Count(pc[1..], r)
  }

  function One(b: bool): int { if b then 1 else 0 }

  predicate In(pc: Pc, r: nat) { pc.Inside? && pc.round == r }

  lemma {:induction false} CountUpdate(pc: seq<Pc>, t: nat, x: Pc, r: nat)
    requires t < |pc|
    ensures Count(pc[t := x], r) == Count(pc, r) - One(In(pc[t], r)) + One(In(x, r))
  {
    if t == 0 {
      assert pc[t := x][1..] == pc[1..];
    } else {
      assert pc[t := x][1..] == pc[1..][t - 1 := x];
      CountUpdate(pc[1..], t - 1, x, r);
    }
  }

  lemma {:induction false} CountBroadcast(pc: seq<Pc>, r: nat)
    ensures Count(Broadcast(pc), r) == Count(pc, r)
  {
    if pc != [] {
      assert Broadcast(pc)[1..] == Broadcast(pc[1..]);
      CountBroadcast(pc[1..], r);
    }
  }

  lemma {:induction false} CountHas(pc: seq<Pc>, t: nat)
    requires t < |pc| && pc[t].Inside?
    ensures Count(pc, pc[t].round) >= 1
  {
    if t > 0 {
      CountHas(pc[1..], t - 1);
    }
  }

  lemma {:induction false} CountSome(pc: seq<Pc>, r: nat) returns (t: nat)
    requires Count(pc, r) >= 1
    ensures t < |pc| && In(pc[t], r)
  {
    if In(pc[0], r) {
      t := 0;
    } else {
      t := CountSome(pc[1..], r);
      t := t + 1;
    }
  }

  /** A thread waits in the round that fills or in the one that drains, and is woken in the latter; one that
      waits to enter is woken unless a round drains. */
  predicate PcOk(s: State, t: nat)
    requires t < |s.pc|
  {
    match s.pc[t]
    case Outside => true
    case Queued(woken) => woken || s.out > 0
    case Inside(r, woken) => r == s.round || (r + 1 == s.round && woken && s.out > 0)
  }

  /** What the histories say of round r. */
  predicate RoundOk(s: State, r: nat)
    requires r < |s.arrivals| == |s.left| == |s.ones|
  {
    var drained := if r + 1 == s.round then s.threshold - s.out else if r < s.round then s.threshold else 0;
    && s.arrivals[r] == (if r < s.round then s.threshold else s.arrived)
    && s.left[r] == drained
    && s.ones[r] == One(s.left[r] == s.threshold)
  }

  predicate Inv(s: State) {
    && s.threshold >= 1 && s.arrived < s.threshold && s.out < s.threshold
    && (s.out > 0 ==> s.arrived == 0 && s.round > 0)
    && |s.arrivals| == |s.left| == |s.ones| == s.round + 1
    && s.arrived == Count(s.pc, s.round) && (s.round > 0 ==> s.out == Count(s.pc, s.round - 1))
    && (forall t :: 0 <= t < |s.pc| ==> PcOk(s, t))
    && (forall r :: 0 <= r <= s.round ==> RoundOk(s, r))
  }

  lemma InitialInv(s: State)
    requires Initial(s)
    ensures Inv(s)
  {
    NoneInside(s.pc, 0);
  }

  lemma {:induction false} NoneInside(pc: seq<Pc>, r: nat)
    requires forall t :: 0 <= t < |pc| ==> !In(pc[t], r)
    ensures Count(pc, r) == 0
  {
    if pc != [] {
      NoneInside(pc[1..], r);
    }
  }

  /** A woken thread leaves only a round that drains. */
  lemma AlwaysDefined(s: State, step: Step)
    requires Inv(s) && Enabled(s, step)
    ensures Defined(s, step)
    ensures step.Resume? && s.pc[step.t].Inside? && s.arrived == 0 ==> s.pc[step.t].round + 1 == s.round && s.out > 0
  {
    if step.Resume? && s.pc[step.t].Inside? {
      assert PcOk(s, step.t);
      CountHas(s.pc, step.t);
    }
  }

  lemma StayKeeps(s: State, t: nat, x: Pc)
    requires Inv(s) && t < |s.pc| && (s.pc[t].Inside? <==> x.Inside?) && (x.Inside? ==> x.round == s.pc[t].round)
    requires PcOk(s.(pc := s.pc[t := x]), t)
    ensures Inv(s.(pc := s.pc[t := x]))
  {
    var s' := s.(pc := s.pc[t := x]);
    CountUpdate(s.pc, t, x, s.round);
    if s.round > 0 {
      CountUpdate(s.pc, t, x, s.round - 1);
    }
    forall u | 0 <= u < |s.pc|
      ensures PcOk(s', u)
    {
      assert PcOk(s, u);
    }
    forall r | 0 <= r <= s.round
      ensures RoundOk(s', r)
    {
      assert RoundOk(s, r);
    }
  }

  /** A thread of the draining round returns. */
  lemma LeaveKeeps(s: State, t: nat)
    requires Inv(s) && t < |s.pc| && s.pc[t].Inside? && s.pc[t].round + 1 == s.round && s.out > 0
    ensures Inv(Leave(s, t, s.round - 1))
  {
    var r0 := s.round - 1;
    var s' := Leave(s, t, r0);
    var pc := s.pc[t := Outside];
    CountUpdate(s.pc, t, Outside, s.round);
    CountUpdate(s.pc, t, Outside, r0);
    CountBroadcast(pc, s.round);
    CountBroadcast(pc, r0);
    forall u | 0 <= u < |s.pc|
      ensures PcOk(s', u)
    {
      assert PcOk(s, u);
      if s'.out == 0 && In(s'.pc[u], r0) {
        CountHas(s'.pc, u);
      }
    }
    forall r | 0 <= r <= s.round
      ensures RoundOk(s', r)
    {
      assert RoundOk(s, r);
    }
  }

  /** A thread is counted and does not complete its round. */
  lemma CountedKeeps(s: State, t: nat)
    requires Inv(s) && t < |s.pc| && !s.pc[t].Inside? && s.out == 0 && s.arrived + 1 < s.threshold
    ensures Inv(Enter(s, t))
  {
    var s' := Enter(s, t);
    CountUpdate(s.pc, t, Inside(s.round, false), s.round);
    if s.round > 0 {
      CountUpdate(s.pc, t, Inside(s.round, false), s.round - 1);
    }
    forall u | 0 <= u < |s.pc|
      ensures PcOk(s', u)
    {
      assert PcOk(s, u);
    }
    forall r | 0 <= r <= s.round
      ensures RoundOk(s', r)
    {
      assert RoundOk(s, r);
    }
  }

  /** A thread completes its round and returns. */
  lemma OpenKeeps(s: State, t: nat)
    requires Inv(s) && t < |s.pc| && !s.pc[t].Inside? && s.out == 0 && s.arrived + 1 == s.threshold
    ensures Inv(Enter(s, t))
  {
    var s' := Enter(s, t);
    var pc := Broadcast(s.pc[t := Outside]);
    assert pc[t := Outside] == pc;
    CountUpdate(s.pc, t, Outside, s.round);
    CountUpdate(s.pc, t, Outside, s.round + 1);
    CountBroadcast(s.pc[t := Outside], s.round);
    CountBroadcast(s.pc[t := Outside], s.round + 1);
    CountBroadcast(pc, s.round);
    CountBroadcast(pc, s.round + 1);
    forall u | 0 <= u < |s.pc|
      ensures !In(s.pc[u], s.round + 1)
    {
      assert PcOk(s, u);
    }
    NoneInside(s.pc, s.round + 1);
    forall u | 0 <= u < |s.pc|
      ensures PcOk(s', u)
    {
      assert PcOk(s, u);
      if s.pc[u].Inside? {
        CountHas(s.pc, u);
      }
    }
    forall r | 0 <= r <= s.round + 1
      ensures RoundOk(s', r)
    {
      assert r <= s.round ==> RoundOk(s, r);
    }
  }

  lemma StepKeeps(s: State, step: Step)
    requires Inv(s) && Enabled(s, step)
    ensures Defined(s, step) && Inv(Do(s, step))
  {
    AlwaysDefined(s, step);
    var t := step.t;
    assert PcOk(s, t);
    var enters := step.Wait? || (step.Resume? && s.pc[t].Queued?);
    if step.Spurious? {
      StayKeeps(s, t, s.pc[t].(woken := true));
    } else if enters && s.out != 0 {
      StayKeeps(s, t, Queued(false));
    } else if enters {
      if s.arrived + 1 == s.threshold {
        OpenKeeps(s, t);
      } else {
        CountedKeeps(s, t);
      }
    } else if s.arrived != 0 {
      StayKeeps(s, t, Inside(s.pc[t].round, false));
    } else {
      LeaveKeeps(s, t);
    }
  }

  lemma {:induction false} RunKeeps(s: State, steps: seq<Step>)
    requires Inv(s) && Run(s, steps).Some?
    ensures Inv(Run(s, steps).value)
    decreases |steps|
  {
    if steps != [] {
      StepKeeps(s, steps[0]);
      RunKeeps(Do(s, steps[0]), steps[1..]);
    }
  }

  lemma ReachableInv(s: State)
    requires Reachable(s)
    ensures Inv(s)
  {
    var s0, steps :| Initial(s0) && Run(s0, steps) == Some(s);
    InitialInv(s0);
    RunKeeps(s0, steps);
  }

  // ----- what holds in every run

  /** While threads leave, none is counted for the next round. */
  lemma OutExcludesIn(s: State)
    requires Reachable(s)
    ensures s.out > 0 ==> s.arrived == 0
    ensures s.arrived < s.threshold && s.out < s.threshold
  {
    ReachableInv(s);
  }

  /** A thread returns only when all threads of its round have arrived; of a round that is over exactly the
      threshold have arrived and returned, and exactly one of them got 1; and no thread is counted for a round
      before all of the round before have returned. */
  lemma RoundsAreExact(s: State, r: nat)
    requires Reachable(s) && r < |s.arrivals|
    ensures |s.left| == |s.ones| == |s.arrivals|
    ensures s.arrivals[r] <= s.threshold && s.left[r] <= s.threshold
    ensures s.left[r] > 0 ==> s.arrivals[r] == s.threshold
    ensures s.ones[r] == if s.left[r] == s.threshold then 1 else 0
    ensures r + 1 < |s.arrivals| && s.arrivals[r + 1] > 0 ==> s.left[r] == s.threshold
  {
    ReachableInv(s);
    assert RoundOk(s, r);
    if r + 1 <= s.round {
      assert RoundOk(s, r + 1);
    }
  }

  /** No broadcast is missed: a thread that is not woken waits for a round that is not complete, or to enter
      while threads leave; and while threads leave, one of those that still have to is woken. */
  lemma NoMissedBroadcast(s: State)
    requires Reachable(s)
    ensures forall t :: 0 <= t < |s.pc| && s.pc[t].Inside? && !s.pc[t].woken ==> s.pc[t].round == s.round
    ensures forall t :: 0 <= t < |s.pc| && s.pc[t].Queued? && !s.pc[t].woken ==> s.out > 0
    ensures s.out > 0 ==> exists t :: 0 <= t < |s.pc| && s.pc[t].Inside? && s.pc[t].woken && s.pc[t].round + 1 == s.round
  {
    ReachableInv(s);
    forall t | 0 <= t < |s.pc|
      ensures s.pc[t].Inside? && !s.pc[t].woken ==> s.pc[t].round == s.round
      ensures s.pc[t].Queued? && !s.pc[t].woken ==> s.out > 0
    {
      assert PcOk(s, t);
    }
    if s.out > 0 {
      var t := CountSome(s.pc, s.round - 1);
      assert PcOk(s, t);
    }
  }

  lemma {:induction false} RunAppend(s: State, steps: seq<Step>, step: Step)
    requires Run(s, steps).Some? && Defined(Run(s, steps).value, step)
    ensures Run(s, steps + [step]) == Some(Do(Run(s, steps).value, step))
    decreases |steps|
  {
    if steps == [] {
      assert Run(Do(s, step), [step][1..]) == Some(Do(s, step));
      assert steps + [step] == [step];
    } else {
      assert (steps + [step])[0] == steps[0] && (steps + [step])[1..] == steps[1..] + [step];
      RunAppend(Do(s, steps[0]), steps[1..], step);
    }
  }

  /** No assertion of the code fails: every step that a thread can take is defined, and runs go on with it. */
  lemma RunsGoOn(s: State, step: Step)
    requires Reachable(s) && Enabled(s, step)
    ensures Defined(s, step) && Reachable(Do(s, step))
  {
    ReachableInv(s);
    AlwaysDefined(s, step);
    var s0, steps :| Initial(s0) && Run(s0, steps) == Some(s);
    RunAppend(s0, steps, step);
  }

  /** A barrier for one thread lets it pass at once, with the return value 1. */
  lemma OneThread(s: State)
    requires s == State(1, 0, 0, [Outside], 0, [0], [0], [0])
    ensures Initial(s) && Run(s, [Wait(0)]).Some?
    ensures var t := Run(s, [Wait(0)]).value; t.pc == [Outside] && t.left[0] == t.ones[0] == t.round == 1
  {
    var t := Do(s, Wait(0));
    assert Run(t, [Wait(0)][1..]) == Some(t);
    assert t.pc[0] == Outside;
  }
}
