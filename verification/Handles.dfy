/** Handle flags, the count of active handles and the closing list: the macros of src/uv-common.h, and
    uv_close, uv__finish_close and uv__run_closing_handles of src/unix/core.c. */
module Handles {
  import opened Basics
  import opened Watchers

  datatype Kind = TimerKind | AsyncKind | SignalKind | PrepareKind | CheckKind | IdleKind | PollKind | FsEventKind | ProcessKind

  /** The flags of a handle, whether its close callback is set and how often it has been called, and whether
      signals it has caught are still in the signal pipe. */
  datatype State = State(kind: Kind, active: bool, ref: bool, closing: bool, closed: bool, callback: bool,
                         called: nat, trapped: bool)

  datatype Act =
    | InitHandle(h: Handle, kind: Kind)
    | StartHandle(h: Handle)
    | StopHandle(h: Handle)
    | RefHandle(h: Handle)
    | UnrefHandle(h: Handle)
    | CloseHandle(h: Handle, callback: bool)
    | SetTrapped(h: Handle, trapped: bool)

  /** What happens to a loop: a call of its user, or uv__finish_close up to the close callback. */
  datatype Step = Call(act: Act) | Finish(h: Handle)

  /** The flags of all handles and loop->closing_handles from its head. */
  datatype Table = Table(handles: map<Handle, State>, closing: seq<Handle>)

  // ----- what the steps do to the flags

  /** The handles that should keep the loop alive. */
  function Busy(handles: map<Handle, State>): set<Handle> {
    set h | h in handles && handles[h].active && handles[h].ref
  }

  function Fresh(kind: Kind): State {
    State(kind, false, true, false, false, false, 0, false)
  }

  /** Timers answer UV_EINVAL to the start of a closing handle, and signal and poll handles assert that there
      is none; the start functions of these kinds do not look at the closing flag. */
  predicate StartsClosing(kind: Kind) {
    kind == PrepareKind || kind == CheckKind || kind == IdleKind || kind == FsEventKind
  }

  lemma StartsClosingIff(kind: Kind)
    ensures StartsClosing(kind) <==> kind !in {TimerKind, AsyncKind, SignalKind, PollKind, ProcessKind}
  {}

  predicate Pending(t: Table, h: Handle) {
    h in t.handles && t.handles[h].closing && !t.handles[h].closed
  }

  /** A call for a handle that does not exist, a second close, and the end of a close that is not pending change
      nothing here; the source rules them out by the types and by assertions. */
  function After(t: Table, step: Step): Table {
    match step
    case Finish(h) =>
      if !Pending(t, h) then t
      else if t.handles[h].trapped then t.(closing := [h] + t.closing)
      else
        var x := t.handles[h];
        t.(handles := t.handles[h := x.(closed := true, ref := false, called := x.called + if x.callback then 1 else 0)])
    case Call(act) =>
      if act.InitHandle? then
        if act.h in t.handles then t else t.(handles := t.handles[act.h := Fresh(act.kind)])
      else if act.h !in t.handles then t
      else if act.CloseHandle? && !t.handles[act.h].closing then
        Table(t.handles[act.h := t.handles[act.h].(active := false, closing := true, callback := act.callback)],
              [act.h] + t.closing)
      else t.(handles := t.handles[act.h := Flagged(t.handles[act.h], act)])
  }

  /** The calls that only set or clear a flag. */
  function Flagged(x: State, act: Act): State {
    match act
    case StartHandle(_) => if x.closing && !StartsClosing(x.kind) then x else x.(active := true)
    case StopHandle(_) => x.(active := false)
    case RefHandle(_) => x.(ref := true)
    case UnrefHandle(_) => x.(ref := false)
    case SetTrapped(_, trapped) => if x.kind == SignalKind && !x.closed then x.(trapped := trapped) else x
    case _ => x
  }

  /** By how much a step moves the count of active handles away from the number of busy ones: the macros for
      the reference flag leave the count alone once a handle is closing, even if the handle is active. */
  function Slip(t: Table, step: Step): int {
    match step
    case Finish(h) => if Pending(t, h) && !t.handles[h].trapped && t.handles[h].active && t.handles[h].ref then 1 else 0
    case Call(act) =>
      if act.h !in t.handles || !t.handles[act.h].closing || !t.handles[act.h].active then 0
      else if act.UnrefHandle? && t.handles[act.h].ref then 1
      else if act.RefHandle? && !t.handles[act.h].ref then -1
      else 0
  }

  function Run(t: Table, steps: seq<Step>): Table
    decreases |steps|
  {
    if steps == [] then t else Run(After(t, steps[0]), steps[1..])
  }

  function Slips(t: Table, steps: seq<Step>): int
    decreases |steps|
  {
    if steps == [] then 0 else Slip(t, steps[0]) + Slips(After(t, steps[0]), steps[1..])
  }

  function Calls(script: seq<Act>): (steps: seq<Step>)
    ensures |steps| == |script|
  {
    if script == [] then [] else [Call(script[0])] + Calls(script[1..])
  }

  /** uv__finish_close with its callback. */
  function Closing(t: Table, h: Handle, script: seq<Act>): seq<Step> {
    [Finish(h)] + if Pending(t, h) && !t.handles[h].trapped && t.handles[h].callback then Calls(script) else []
  }

  function Script(scripts: seq<seq<Act>>, k: nat): seq<Act> {
    if k < |scripts| then scripts[k] else []
  }

  /** The steps of a walk over the closing handles of pass, the k-th of the whole walk first; scripts[k] is
      what the close callback of the k-th handle does, if there is one. */
  function PassSteps(t: Table, pass: seq<Handle>, scripts: seq<seq<Act>>, k: nat): seq<Step>
    decreases |pass|
  {
    if pass == [] then [] else
    var turn := Closing(t, pass[0], Script(scripts, k));
    turn + PassSteps(Run(t, turn), pass[1..], scripts, k + 1)
  }

  lemma {:induction false} RunAppend(t: Table, a: seq<Step>, b: seq<Step>)
    ensures Run(t, a + b) == Run(Run(t, a), b) && Slips(t, a + b) == Slips(t, a) + Slips(Run(t, a), b)
    decreases |a|
  {
    if a == [] {
      assert a + b == b;
    } else {
      assert (a + b)[0] == a[0] && (a + b)[1..] == a[1..] + b;
      RunAppend(After(t, a[0]), a[1..], b);
    }
  }

  lemma RunOne(t: Table, step: Step)
    ensures Run(t, [step]) == After(t, step) && Slips(t, [step]) == Slip(t, step)
  {
    assert [step][1..] == [];
  }

  lemma ClosingRuns(t: Table, h: Handle, script: seq<Act>)
    ensures var called := Pending(t, h) && !t.handles[h].trapped && t.handles[h].callback;
            var steps := if called then Calls(script) else [];
            && Run(t, Closing(t, h, script)) == Run(After(t, Finish(h)), steps)
            && Slips(t, Closing(t, h, script)) == Slip(t, Finish(h)) + Slips(After(t, Finish(h)), steps)
  {
    RunOne(t, Finish(h));
    RunAppend(t, [Finish(h)], Closing(t, h, script)[1..]);
  }

  // ----- what every step keeps

  /** A closing handle waits in the closing list or in the walk until it is closed, and then its callback, if
      it has one, has been called once. */
  predicate HandleOk(x: State, waiting: bool) {
    && (x.closed ==> x.closing)
    && (x.closing && !x.closed <==> waiting)
    && x.called == (if x.closed && x.callback then 1 else 0)
    && (x.trapped ==> x.kind == SignalKind)
  }

  predicate Sound(handles: map<Handle, State>, waiting: seq<Handle>) {
    && NoDup(waiting) && (forall h :: h in waiting ==> h in handles)
    && (forall h :: h in handles ==> HandleOk(handles[h], h in waiting))
  }

  lemma CallSound(t: Table, pass: seq<Handle>, act: Act)
    requires Sound(t.handles, t.closing + pass)
    ensures Sound(After(t, Call(act)).handles, After(t, Call(act)).closing + pass)
  {
    var u := After(t, Call(act));
    if act.CloseHandle? && act.h in t.handles && !t.handles[act.h].closing {
      assert u.closing + pass == [act.h] + (t.closing + pass);
      assert HandleOk(t.handles[act.h], act.h in t.closing + pass);
      NoDupCons(act.h, t.closing + pass);
    }
  }

  lemma FinishSound(t: Table, pass: seq<Handle>)
    requires pass != [] && Sound(t.handles, t.closing + pass)
    ensures pass[0] in t.handles
    ensures Sound(After(t, Finish(pass[0])).handles, After(t, Finish(pass[0])).closing + pass[1..])
  {
    var h := pass[0];
    var u := After(t, Finish(h));
    assert h in t.closing + pass && HandleOk(t.handles[h], true);
    assert pass == [h] + pass[1..];
    NoDupAppend(t.closing, pass);
    NoDupAppend([h], pass[1..]);
    NoDupAppend([h], t.closing);
    NoDupAppend(u.closing, pass[1..]);
  }

  /** Callbacks initialise handles and put some on the closing list; they do not close any for good. */
  ghost predicate Grows(t: Table, u: Table) {
    && t.handles.Keys <= u.handles.Keys
    && (forall h :: h in t.handles ==>
          && u.handles[h].kind == t.handles[h].kind && u.handles[h].closed == t.handles[h].closed
          && u.handles[h].called == t.handles[h].called
          && (t.handles[h].closing ==> u.handles[h].closing && u.handles[h].callback == t.handles[h].callback))
    && (forall h :: h in u.handles && h !in t.handles ==> !u.handles[h].closed && u.handles[h].called == 0)
    && (forall h :: h in t.closing ==> h in u.closing)
  }

  lemma CallGrows(t: Table, act: Act)
    ensures Grows(t, After(t, Call(act)))
  {}

  lemma GrowsOn(t: Table, u: Table, v: Table)
    requires Grows(t, u) && Grows(u, v)
    ensures Grows(t, v)
  {
    hide Busy;
    assert forall h :: h in t.closing ==> h in u.closing;
  }

  lemma {:induction false} CallsGrow(t: Table, script: seq<Act>)
    ensures Grows(t, Run(t, Calls(script)))
    decreases |script|
  {
    if script != [] {
      var u := After(t, Call(script[0]));
      CallGrows(t, script[0]);
      CallsGrow(u, script[1..]);
      assert Calls(script)[0] == Call(script[0]) && Calls(script)[1..] == Calls(script[1..]);
      GrowsOn(t, u, Run(u, Calls(script[1..])));
    }
  }

  // ----- the count of active handles

  /** No closing handle is active. */
  predicate Quiet(t: Table) {
    forall h :: h in t.handles && t.handles[h].closing ==> !t.handles[h].active
  }

  /** The step starts a handle that is closing. */
  predicate LateStart(t: Table, step: Step) {
    && step.Call? && step.act.StartHandle? && step.act.h in t.handles
    && t.handles[step.act.h].closing && StartsClosing(t.handles[step.act.h].kind)
  }

  predicate NoLateStart(t: Table, steps: seq<Step>)
    decreases |steps|
  {
    steps != [] ==> !LateStart(t, steps[0]) && NoLateStart(After(t, steps[0]), steps[1..])
  }

  lemma QuietUntilLateStart(t: Table, step: Step)
    requires Quiet(t)
    ensures Quiet(After(t, step)) <==> !LateStart(t, step)
    ensures Slip(t, step) == 0
  {
    if LateStart(t, step) {
      assert After(t, step).handles[step.act.h].closing && After(t, step).handles[step.act.h].active;
    }
  }

  /** A run that starts no closing handle leaves the count right, whatever else it does. */
  lemma {:induction false} CountStaysRight(t: Table, steps: seq<Step>)
    requires Quiet(t) && NoLateStart(t, steps)
    ensures Slips(t, steps) == 0 && Quiet(Run(t, steps))
    decreases |steps|
  {
    if steps != [] {
      QuietUntilLateStart(t, steps[0]);
      CountStaysRight(After(t, steps[0]), steps[1..]);
    }
  }

  /** A count that is too high stays too high for good unless some handle is referenced again: whatever else
      happens, the loop stays alive. */
  lemma {:induction false} OnlyRefLowers(t: Table, steps: seq<Step>)
    requires forall k :: 0 <= k < |steps| && steps[k].Call? ==> !steps[k].act.RefHandle?
    ensures Slips(t, steps) >= 0
    decreases |steps|
  {
    if steps != [] {
      OnlyRefLowers(After(t, steps[0]), steps[1..]);
    }
  }

  /** h is closing and can be started. */
  predicate Restartable(t: Table, h: Handle) {
    h in t.handles && t.handles[h].closing && !t.handles[h].active && StartsClosing(t.handles[h].kind)
  }

  function Round(h: Handle, up: bool): seq<Step> {
    if up then [Call(RefHandle(h)), Call(StartHandle(h)), Call(UnrefHandle(h)), Call(StopHandle(h))]
    else [Call(UnrefHandle(h)), Call(StartHandle(h)), Call(RefHandle(h)), Call(StopHandle(h))]
  }

  lemma RoundSlips(t: Table, h: Handle, up: bool)
    requires Restartable(t, h)
    ensures Restartable(Run(t, Round(h, up)), h) && Slips(t, Round(h, up)) == if up then 1 else -1
  {
    var steps := Round(h, up);
    FourSteps(t, steps[0], steps[1], steps[2], steps[3]);
  }

  /** One closing handle can move the count by any amount, in either direction. */
  lemma {:induction false} CountIsOffByAny(t: Table, h: Handle, n: int) returns (steps: seq<Step>)
    requires Restartable(t, h)
    ensures Slips(t, steps) == n && Restartable(Run(t, steps), h)
    decreases if n < 0 then -n else n
  {
    if n == 0 {
      return [];
    }
    var first := Round(h, n > 0);
    RoundSlips(t, h, n > 0);
    var rest := CountIsOffByAny(Run(t, first), h, if n > 0 then n - 1 else n + 1);
    RunAppend(t, first, rest);
    steps := first + rest;
  }

  lemma FourSteps(t: Table, a: Step, b: Step, c: Step, d: Step)
    ensures var t1 := After(t, a); var t2 := After(t1, b); var t3 := After(t2, c);
            && Run(t, [a, b, c, d]) == After(t3, d)
            && Slips(t, [a, b, c, d]) == Slip(t, a) + Slip(t1, b) + Slip(t2, c) + Slip(t3, d)
  {
    var t1 := After(t, a);
    var t2 := After(t1, b);
    var t3 := After(t2, c);
    assert [a, b, c, d] == [a] + ([b] + ([c] + [d]));
    RunOne(t, a);
    RunOne(t1, b);
    RunOne(t2, c);
    RunOne(t3, d);
    RunAppend(t2, [c], [d]);
    RunAppend(t1, [b], [c] + [d]);
    RunAppend(t, [a], [b] + ([c] + [d]));
  }

  // ----- the loop

  class Loop {
    var handles: map<Handle, State>
    var activeHandles: int
    var closing: seq<Handle>   // loop->closing_handles, from its head
    var pass: seq<Handle>      // the rest of the list that uv__run_closing_handles walks

    ghost function Flags(): Table
      reads this`handles, this`closing
    {
      Table(handles, closing)
    }

    /** How much the count is too high. */
    ghost function Drift(): int
      reads this`handles, this`activeHandles
    {
      activeHandles - |Busy(handles)|
    }

    ghost predicate Valid()
      reads this`handles, this`closing, this`pass
    {
      Sound(handles, closing + pass)
    }

    constructor ()
      ensures Valid() && handles == map[] && closing == [] && pass == [] && Drift() == 0
    {
      handles, activeHandles, closing, pass := map[], 0, [], [];
    }

    /** uv__handle_init */
    method Init(h: Handle, kind: Kind)
      requires h !in handles
      modifies this`handles
      ensures handles == old(handles)[h := Fresh(kind)] && Drift() == old(Drift())
    {
      handles := handles[h := Fresh(kind)];
      assert Busy(handles) == old(Busy(handles));
    }

    /** uv__handle_start */
    method Start(h: Handle)
      requires h in handles
      modifies this`handles, this`activeHandles
      ensures handles == old(handles)[h := old(handles)[h].(active := true)] && Drift() == old(Drift())
    {
      if handles[h].active {
        assert handles == handles[h := handles[h].(active := true)];
        return;
      }
      handles := handles[h := handles[h].(active := true)];
      if handles[h].ref {
        activeHandles := activeHandles + 1;
        assert Busy(handles) == old(Busy(handles)) + {h};
      } else {
        assert Busy(handles) == old(Busy(handles));
      }
    }

    /** uv__handle_stop */
    method Stop(h: Handle)
      requires h in handles
      modifies this`handles, this`activeHandles
      ensures handles == old(handles)[h := old(handles)[h].(active := false)] && Drift() == old(Drift())
    {
      if !handles[h].active {
        assert handles == handles[h := handles[h].(active := false)];
        return;
      }
      handles := handles[h := handles[h].(active := false)];
      if handles[h].ref {
        activeHandles := activeHandles - 1;
        assert old(Busy(handles)) == Busy(handles) + {h};
      } else {
        assert Busy(handles) == old(Busy(handles));
      }
    }

    /** uv__handle_ref: the count falls behind if the handle is closing, active and not referenced. */
    method Ref(h: Handle)
      requires h in handles
      modifies this`handles, this`activeHandles
      ensures handles == old(handles)[h := old(handles)[h].(ref := true)]
      ensures Drift() == old(Drift()) + old(Slip(Flags(), Call(RefHandle(h))))
      ensures Drift() == old(Drift()) - 1 <==> old(handles)[h].closing && old(handles)[h].active && !old(handles)[h].ref
    {
      if handles[h].ref {
        assert handles == handles[h := handles[h].(ref := true)];
        return;
      }
      handles := handles[h := handles[h].(ref := true)];
      if handles[h].active {
        assert Busy(handles) == old(Busy(handles)) + {h};
      } else {
        assert Busy(handles) == old(Busy(handles));
      }
      if handles[h].closing {
        return;
      }
      if handles[h].active {
        activeHandles := activeHandles + 1;
      }
    }

    /** uv__handle_unref: the count runs ahead if the handle is closing, active and referenced. */
    method Unref(h: Handle)
      requires h in handles
      modifies this`handles, this`activeHandles
      ensures handles == old(handles)[h := old(handles)[h].(ref := false)]
      ensures Drift() == old(Drift()) + old(Slip(Flags(), Call(UnrefHandle(h))))
      ensures Drift() == old(Drift()) + 1 <==> old(handles)[h].closing && old(handles)[h].active && old(handles)[h].ref
    {
      if !handles[h].ref {
        assert handles == handles[h := handles[h].(ref := false)];
        return;
      }
      handles := handles[h := handles[h].(ref := false)];
      if handles[h].active {
        assert old(Busy(handles)) == Busy(handles) + {h};
      } else {
        assert Busy(handles) == old(Busy(handles));
      }
      if handles[h].closing {
        return;
      }
      if handles[h].active {
        activeHandles := activeHandles - 1;
      }
    }

    /** uv_close.  The close function of every kind here stops the handle; the closing flag, which the source
        sets just before, does not matter to it. */
    method Close(h: Handle, callback: bool)
      requires Valid() && h in handles && !handles[h].closing
      modifies this`handles, this`activeHandles, this`closing
      ensures Valid() && Flags() == After(old(Flags()), Call(CloseHandle(h, callback))) && Drift() == old(Drift())
    {
      hide Busy, Slip;
      ghost var u := After(Flags(), Call(CloseHandle(h, callback)));
      CallSound(Flags(), pass, CloseHandle(h, callback));
      Stop(h);
      MakeClosePending(h, callback);
      assert handles == u.handles && closing == u.closing;
    }

    method MakeClosePending(h: Handle, callback: bool)
      requires h in handles
      modifies this`handles, this`closing
      ensures closing == [h] + old(closing) && Drift() == old(Drift())
      ensures handles == old(handles)[h := old(handles)[h].(closing := true, callback := callback)]
    {
      handles := handles[h := handles[h].(closing := true, callback := callback)];
      closing := [h] + closing;
      assert Busy(handles) == old(Busy(handles));
    }

    /** What a callback may do. */
    method Perform(script: seq<Act>)
      requires Valid()
      modifies this`handles, this`activeHandles, this`closing
      ensures Valid() && Flags() == Run(old(Flags()), Calls(script))
      ensures Drift() == old(Drift()) + Slips(old(Flags()), Calls(script))
    {
      for k := 0 to |script|
        invariant Valid() && Run(Flags(), Calls(script[k..])) == Run(old(Flags()), Calls(script))
        invariant Drift() + Slips(Flags(), Calls(script[k..])) == old(Drift()) + Slips(old(Flags()), Calls(script))
      {
        assert script[k..][0] == script[k] && script[k..][1..] == script[k + 1..];
        CallSound(Flags(), pass, script[k]);
        ghost var steps := Calls(script[k..]);
        assert steps[0] == Call(script[k]) && steps[1..] == Calls(script[k + 1..]);
        One(script[k]);
      }
    }

    method One(a: Act)
      requires Valid()
      modifies this`handles, this`activeHandles, this`closing
      ensures Flags() == After(old(Flags()), Call(a)) && Drift() == old(Drift()) + Slip(old(Flags()), Call(a))
    {
      if a.InitHandle? {
        if a.h !in handles {
          Init(a.h, a.kind);
        }
        return;
      }
      if a.h !in handles {
        return;
      }
      assert handles == handles[a.h := handles[a.h]];
      match a
      case StartHandle(h) =>
        if !handles[h].closing || StartsClosing(handles[h].kind) {
          Start(h);
        }
      case StopHandle(h) => Stop(h);
      case RefHandle(h) => Ref(h);
      case UnrefHandle(h) => Unref(h);
      case CloseHandle(h, callback) =>
        if !handles[h].closing {
          Close(h, callback);
        }
      case SetTrapped(h, trapped) =>
        if handles[h].kind == SignalKind && !handles[h].closed {
          handles := handles[h := handles[h].(trapped := trapped)];
          assert Busy(handles) == old(Busy(handles));
        }
    }

    /** uv__finish_close for the handle at the head of the walk; script is what the close callback does.  A
        handle with signals trapped in the pipe goes back to the closing list. */
    method FinishClose(h: Handle, script: seq<Act>)
      requires Valid() && pass != [] && h == pass[0]
      modifies this
      ensures Valid() && pass == old(pass)[1..]
      ensures Flags() == Run(old(Flags()), Closing(old(Flags()), h, script))
      ensures Drift() == old(Drift()) + Slips(old(Flags()), Closing(old(Flags()), h, script))
    {
      ghost var t := Flags();
      ghost var u := After(t, Finish(h));
      FinishSound(t, pass);
      ClosingRuns(t, h, script);
      pass := pass[1..];
      var finished := MarkClosed(h);
      if finished && handles[h].callback {
        CountCall(h);
        assert Flags() == u;
        Perform(script);
      } else {
        assert Flags() == u;
      }
    }

    /** The close callback is called. */
    method CountCall(h: Handle)
      requires h in handles
      modifies this`handles
      ensures Drift() == old(Drift())
      ensures handles == old(handles)[h := old(handles)[h].(called := old(handles)[h].called + 1)]
    {
      handles := handles[h := handles[h].(called := handles[h].called + 1)];
      assert Busy(handles) == old(Busy(handles));
    }

    /** The part of uv__finish_close before the callback; false if the handle goes back to the closing list. */
    method MarkClosed(h: Handle) returns (finished: bool)
      requires Pending(Flags(), h)
      modifies this`handles, this`activeHandles, this`closing
      ensures finished == !old(handles)[h].trapped && Drift() == old(Drift()) + Slip(old(Flags()), Finish(h))
      ensures Drift() == old(Drift()) <==> old(handles)[h].trapped || !old(handles)[h].active || !old(handles)[h].ref
      ensures !finished ==> Flags() == After(old(Flags()), Finish(h))
      ensures finished ==> closing == old(closing)
      ensures finished ==> handles == old(handles)[h := old(handles)[h].(closed := true, ref := false)]
    {
      handles := handles[h := handles[h].(closed := true)];
      assert Busy(handles) == old(Busy(handles));
      if handles[h].trapped {
        handles := handles[h := handles[h].(closed := false)];
        assert handles == old(handles);
        closing := [h] + closing;
        return false;
      }
      Unref(h);
      return true;
    }

    /** uv__run_closing_handles.  The walk is the run of PassSteps, and so: every handle on the list is closed,
        its callback called once, unless signals are trapped, and then it is on the list again; handles that
        callbacks close wait for the next pass. */
    method RunClosingHandles(scripts: seq<seq<Act>>)
      requires Valid() && pass == []
      modifies this
      ensures Valid() && pass == []
      ensures var t := Table(old(handles), []);
              var steps := PassSteps(t, old(closing), scripts, 0);
              Flags() == Run(t, steps) && Drift() == old(Drift()) + Slips(t, steps)
      ensures ClosingPass(old(handles), old(closing), Flags(), [])
      ensures forall h :: h in handles && handles[h].closed ==>
                handles[h].called == if handles[h].callback then 1 else 0
    {
      hide After, Slip, Closing, Busy;
      ghost var before, list0 := handles, closing;
      assert closing + [] == closing == [] + closing;
      closing, pass := [], closing;
      ghost var t := Flags();
      ghost var steps := PassSteps(t, pass, scripts, 0);
      var k := 0;
      while pass != []
        invariant Valid() && ClosingPass(before, list0, Flags(), pass) && 0 <= k
        invariant Run(Flags(), PassSteps(Flags(), pass, scripts, k)) == Run(t, steps)
        invariant Drift() + Slips(Flags(), PassSteps(Flags(), pass, scripts, k)) == old(Drift()) + Slips(t, steps)
        decreases |pass|
      {
        ghost var script := Script(scripts, k);
        PassTurn(before, list0, Flags(), pass, script);
        RunAppend(Flags(), Closing(Flags(), pass[0], script),
                  PassSteps(Run(Flags(), Closing(Flags(), pass[0], script)), pass[1..], scripts, k + 1));
        FinishClose(pass[0], Script(scripts, k));
        k := k + 1;
      }
    }

    /** uv__loop_alive: with the count right, exactly while something should keep the loop alive. */
    method Alive(activeReqs: nat, pending: bool) returns (alive: bool)
      requires Valid()
      ensures Drift() == 0 ==> (alive <==> Busy(handles) != {} || activeReqs > 0 || pending || closing != [])
      ensures alive <==> |Busy(handles)| + Drift() > 0 || activeReqs > 0 || pending || closing != []
      ensures !alive && pass == [] ==> forall h :: h in handles && handles[h].closing ==> handles[h].closed
    {
      alive := activeHandles > 0 || activeReqs > 0 || pending || closing != [];
    }
  }

  /** What the walk has done to the handles list0 that were on the list, in the state before, when pass is still
      to come: each is to come, closed, or back on the closing list with signals trapped; no other handle has
      been closed. */
  ghost predicate ClosingPass(before: map<Handle, State>, list0: seq<Handle>, t: Table, pass: seq<Handle>) {
    && before.Keys <= t.handles.Keys
    && (forall h :: h in before && before[h].closing ==>
          t.handles[h].closing && t.handles[h].callback == before[h].callback)
    && (forall h :: h in list0 ==>
          && h in t.handles
          && (h in pass || t.handles[h].closed || (h in t.closing && t.handles[h].kind == SignalKind)))
    && (forall h :: h in pass ==> h in list0)
    && (forall h :: h in t.handles && t.handles[h].closed ==> h in list0 || (h in before && before[h].closed))
  }

  lemma PassFinish(before: map<Handle, State>, list0: seq<Handle>, t: Table, pass: seq<Handle>)
    requires pass != [] && Sound(t.handles, t.closing + pass) && ClosingPass(before, list0, t, pass)
    ensures ClosingPass(before, list0, After(t, Finish(pass[0])), pass[1..])
  {
    assert pass[0] in t.closing + pass && HandleOk(t.handles[pass[0]], true);
    assert pass == [pass[0]] + pass[1..];
  }

  lemma PassGrows(before: map<Handle, State>, list0: seq<Handle>, t: Table, u: Table, pass: seq<Handle>)
    requires ClosingPass(before, list0, t, pass) && Grows(t, u)
    ensures ClosingPass(before, list0, u, pass)
  {}

  lemma PassTurn(before: map<Handle, State>, list0: seq<Handle>, t: Table, pass: seq<Handle>, script: seq<Act>)
    requires pass != [] && Sound(t.handles, t.closing + pass) && ClosingPass(before, list0, t, pass)
    ensures ClosingPass(before, list0, Run(t, Closing(t, pass[0], script)), pass[1..])
  {
    var u := After(t, Finish(pass[0]));
    PassFinish(before, list0, t, pass);
    ClosingRuns(t, pass[0], script);
    CallsGrow(u, script);
    if Pending(t, pass[0]) && !t.handles[pass[0]].trapped && t.handles[pass[0]].callback {
      PassGrows(before, list0, u, Run(u, Calls(script)), pass[1..]);
    }
  }

  // ----- the count goes wrong

  lemma FourCalls(t: Table, a: Act, b: Act, c: Act, d: Act)
    ensures var t1 := After(t, Call(a)); var t2 := After(t1, Call(b)); var t3 := After(t2, Call(c));
            && Run(t, Calls([a, b, c, d])) == After(t3, Call(d))
            && Slips(t, Calls([a, b, c, d])) == Slip(t, Call(a)) + Slip(t1, Call(b)) + Slip(t2, Call(c)) + Slip(t3, Call(d))
  {
    assert Calls([d]) == [Call(d)];
    assert Calls([c, d]) == [Call(c)] + Calls([d]) by { assert [c, d][1..] == [d]; }
    assert Calls([b, c, d]) == [Call(b)] + Calls([c, d]) by { assert [b, c, d][1..] == [c, d]; }
    assert Calls([a, b, c, d]) == [Call(a)] + Calls([b, c, d]) by { assert [a, b, c, d][1..] == [b, c, d]; }
    assert Calls([a, b, c, d]) == [Call(a), Call(b), Call(c), Call(d)];
    FourSteps(t, Call(a), Call(b), Call(c), Call(d));
  }

  lemma LastPass(t: Table, h: Handle)
    ensures PassSteps(t, [h], [], 0) == Closing(t, h, [])
    ensures Run(t, PassSteps(t, [h], [], 0)) == After(t, Finish(h))
    ensures Slips(t, PassSteps(t, [h], [], 0)) == Slip(t, Finish(h))
  {
    RunOne(t, Finish(h));
    assert [h][1..] == [];
    assert Closing(t, h, []) == [Finish(h)];
    var rest := PassSteps(Run(t, [Finish(h)]), [], [], 1);
    assert PassSteps(t, [h], [], 0) == [Finish(h)] + rest;
  }

  const NO_HANDLES := Table(map[], [])
  const LATE_START := [InitHandle(0, PrepareKind), StartHandle(0), CloseHandle(0, false), StartHandle(0)]
  const LATE_UNREF := [InitHandle(0, PrepareKind), CloseHandle(0, false), UnrefHandle(0), StartHandle(0)]
  const LATE_REF := [RefHandle(0), StopHandle(0), InitHandle(1, TimerKind), StartHandle(1)]

  lemma LateStartRun()
    ensures Run(NO_HANDLES, Calls(LATE_START)) == Table(map[0 := Fresh(PrepareKind).(active := true, closing := true)], [0])
    ensures Slips(NO_HANDLES, Calls(LATE_START)) == 0
  {
    FourCalls(NO_HANDLES, LATE_START[0], LATE_START[1], LATE_START[2], LATE_START[3]);
  }

  lemma LateUnrefRun()
    ensures Run(NO_HANDLES, Calls(LATE_UNREF)) ==
            Table(map[0 := Fresh(PrepareKind).(active := true, ref := false, closing := true)], [0])
    ensures Slips(NO_HANDLES, Calls(LATE_UNREF)) == 0
  {
    FourCalls(NO_HANDLES, LATE_UNREF[0], LATE_UNREF[1], LATE_UNREF[2], LATE_UNREF[3]);
  }

  lemma LateRefRun(t: Table)
    requires t == Table(map[0 := Fresh(PrepareKind).(active := true, ref := false, closing := true)], [0])
    ensures Run(t, Calls(LATE_REF)) ==
            Table(map[0 := Fresh(PrepareKind).(closing := true), 1 := Fresh(TimerKind).(active := true)], [0])
    ensures Slips(t, Calls(LATE_REF)) == -1
  {
    FourCalls(t, LATE_REF[0], LATE_REF[1], LATE_REF[2], LATE_REF[3]);
  }

  lemma LateRefEnds(t: Table)
    requires t.handles == map[0 := Fresh(PrepareKind).(closing := true), 1 := Fresh(TimerKind).(active := true)]
    ensures Slip(t, Finish(0)) == 0 && Busy(After(t, Finish(0)).handles) == {1}
    ensures After(t, Finish(0)).closing == t.closing && After(t, Finish(0)).handles[1].kind == TimerKind
  {}

  /** A prepare handle is started while it is closing: everything is closed, and the loop stays alive. */
  method StartWhileClosing() returns (loop: Loop, alive: bool)
    ensures fresh(loop) && loop.Valid() && loop.closing == []
    ensures Busy(loop.handles) == {} && (forall h :: h in loop.handles ==> loop.handles[h].closed)
    ensures loop.Drift() == 1 && alive
  {
    hide Run, Slips, PassSteps, Calls, Closing;
    loop := new Loop();
    LateStartRun();
    loop.Perform(LATE_START);
    LastPass(Table(loop.handles, []), 0);
    loop.RunClosingHandles([]);
    alive := loop.Alive(0, false);
  }

  /** Unreferenced before and referenced behind that start: with a timer running the loop is not alive. */
  method RefWhileClosing() returns (loop: Loop, alive: bool)
    ensures fresh(loop) && loop.Valid() && loop.closing == [] && loop.Drift() == -1
    ensures Busy(loop.handles) == {1} && loop.handles[1].kind == TimerKind && !alive
  {
    hide Run, Slips, PassSteps, Calls, Closing, After, Slip;
    loop := new Loop();
    LateUnrefRun();
    loop.Perform(LATE_UNREF);
    LateRefRun(loop.Flags());
    loop.Perform(LATE_REF);
    LastPass(Table(loop.handles, []), 0);
    LateRefEnds(Table(loop.handles, []));
    loop.RunClosingHandles([]);
    alive := loop.Alive(0, false);
  }
}
