/** The order of work in the thread pool: workers take what was submitted first, and a loop calls back what was
    handed to it first. */
module ThreadPoolOrder {
  import opened Basics
  import opened ThreadPool

  // ----- histories

  /** The last place of x, or -1. */
  function LastIndex(h: seq<Item>, x: Item): (k: int)
    ensures -1 <= k < |h| && (k >= 0 ==> h[k] == x) && forall j :: k < j < |h| ==> h[j] != x
  {
    if h == [] then -1 else if h[|h| - 1] == x then |h| - 1 else LastIndex(h[..|h| - 1], x)
  }

  predicate InOrder(q: seq<Item>, h: seq<Item>) {
    forall i, j :: 0 <= i < j < |q| ==> LastIndex(h, q[i]) < LastIndex(h, q[j])
  }

  predicate AllBefore(a: seq<Item>, b: seq<Item>, h: seq<Item>) {
    forall i, j :: 0 <= i < |a| && 0 <= j < |b| ==> LastIndex(h, a[i]) < LastIndex(h, b[j])
  }

  lemma LastSnoc(h: seq<Item>, x: Item)
    ensures LastIndex(h + [x], x) == |h|
    ensures forall y :: y != x ==> LastIndex(h + [x], y) == LastIndex(h, y)
  {
    assert (h + [x])[..|h|] == h;
  }

  lemma GrowOther(q: seq<Item>, h: seq<Item>, x: Item)
    requires InOrder(q, h) && x !in q
    ensures InOrder(q, h + [x])
  {
    LastSnoc(h, x);
  }

  lemma GrowBoth(q: seq<Item>, h: seq<Item>, x: Item)
    requires InOrder(q, h) && x !in q
    ensures InOrder(q + [x], h + [x])
  {
    LastSnoc(h, x);
  }

  lemma {:induction false} InOrderWithout(q: seq<Item>, h: seq<Item>, x: Item)
    requires InOrder(q, h)
    ensures InOrder(Without(q, x), h) && forall y :: y in Without(q, x) ==> y in q
  {
    if q != [] {
      assert q == [q[0]] + q[1..];
      if q[0] != x {
        InOrderTail(q, h);
        InOrderWithout(q[1..], h, x);
        InOrderCons(q[0], Without(q[1..], x), q[1..], h);
      } else {
        InOrderTail(q, h);
      }
    }
  }

  lemma InOrderTail(q: seq<Item>, h: seq<Item>)
    requires InOrder(q, h) && q != []
    ensures InOrder(q[1..], h) && AllBefore([q[0]], q[1..], h)
  {}

  lemma InOrderCons(x: Item, r: seq<Item>, q: seq<Item>, h: seq<Item>)
    requires InOrder(r, h) && AllBefore([x], q, h) && forall y :: y in r ==> y in q
    ensures InOrder([x] + r, h)
  {
    forall j | 0 <= j < |r|
      ensures LastIndex(h, x) < LastIndex(h, r[j])
    {
      assert r[j] in q;
      var k :| 0 <= k < |q| && q[k] == r[j];
      assert LastIndex(h, [x][0]) < LastIndex(h, q[k]);
    }
  }

  /** The work in the global queue, without the message. */
  function WorkItems(q: seq<Entry>): (r: seq<Item>)
    ensures forall x :: x in r <==> Work(x) in q
  {
    if q == [] then [] else (if q[0].Work? then [q[0].item] else []) + WorkItems(q[1..])
  }

  lemma {:induction false} WorkItemsSnoc(q: seq<Entry>, e: Entry)
    ensures WorkItems(q + [e]) == WorkItems(q) + if e.Work? then [e.item] else []
  {
    if q == [] {
      assert q + [e] == [e];
    } else {
      assert (q + [e])[1..] == q[1..] + [e] && (q + [e])[0] == q[0];
      WorkItemsSnoc(q[1..], e);
      Associative(if q[0].Work? then [q[0].item] else [], WorkItems(q[1..]), if e.Work? then [e.item] else []);
    }
  }

  lemma {:induction false} WorkItemsWithout(q: seq<Entry>, x: Item)
    ensures WorkItems(Without(q, Work(x))) == Without(WorkItems(q), x)
  {
    if q != [] {
      var rest, less := WorkItems(q[1..]), Without(q[1..], Work(x));
      WorkItemsWithout(q[1..], x);
      assert ([q[0]] + less)[1..] == less;
      if q[0].Work? {
        assert WorkItems(q) == [q[0].item] + rest && ([q[0].item] + rest)[1..] == rest;
      } else {
        assert WorkItems(q) == rest;
      }
    }
  }

  // ----- who was first

  /** The items that are submitted in a run, in order. */
  function Submitted(steps: seq<Step>): seq<Item> {
    if steps == [] then [] else (if steps[0].Submit? then [steps[0].item] else []) + Submitted(steps[1..])
  }

  /** The item a step hands to loop l: its work has returned, or it has been cancelled. */
  function Handed(s: State, step: Step, l: Loop): seq<Item>
    requires Enabled(s, step)
  {
    match step
    case Deliver(t) => if s.loopOf[s.pc[t].item] == l then [s.pc[t].item] else []
    case CancelQueue(k) => if k == l then [s.loops[l].cancelling.value] else []
    case _ => []
  }

  function HandedOver(s: State, steps: seq<Step>, l: Loop): seq<Item>
    requires Run(s, steps).Some?
    decreases |steps|
  {
    if steps == [] then [] else Handed(s, steps[0], l) + HandedOver(Do(s, steps[0]), steps[1..], l)
  }

  ghost predicate QueueOrdered(s: State, submitted: seq<Item>) {
    InOrder(WorkItems(s.wq), submitted) && InOrder(s.slowPending, submitted)
  }

  ghost predicate LoopOrdered(s: State, l: Loop, handed: seq<Item>) {
    l < |s.loops| ==>
      && InOrder(s.loops[l].local, handed) && InOrder(s.loops[l].queue, handed)
      && AllBefore(s.loops[l].local, s.loops[l].queue, handed)
  }

  // ----- every step keeps it

  lemma SubmitOrdered(s: State, step: Step, h: seq<Item>)
    requires Inv(s) && Enabled(s, step) && step.Submit? && QueueOrdered(s, h)
    ensures QueueOrdered(Do(s, step), h + [step.item])
  {
    var x := step.item;
    assert forall p :: !IsAt(s, x, p);
    assert !IsAt(s, x, InWq) && !IsAt(s, x, InSlow);
    var s' := Do(s, step);
    if step.k == SlowIo {
      GrowOther(WorkItems(s.wq), h, x);
      GrowBoth(s.slowPending, h, x);
      WorkItemsSnoc(s.wq, RunSlow);
    } else {
      GrowBoth(WorkItems(s.wq), h, x);
      GrowOther(s.slowPending, h, x);
      WorkItemsSnoc(s.wq, Work(x));
    }
  }

  lemma TakeOrdered(s: State, t: Thread, wake: Thread, h: seq<Item>)
    requires Enabled(s, Take(t, wake)) && QueueOrdered(s, h)
    ensures QueueOrdered(Do(s, Take(t, wake)), h)
    ensures var s' := Do(s, Take(t, wake));
            s'.pc[t].Working? ==>
              AllBefore([s'.pc[t].item], if s'.pc[t].slow then s'.slowPending else WorkItems(s'.wq), h)
  {
    var s' := Do(s, Take(t, wake));
    TakeParts(s, t, wake);
    hide Do, TakeEntry, Taken;
    assert WorkItems(s.wq) == (if s.wq[0].Work? then [s.wq[0].item] else []) + WorkItems(s.wq[1..]);
    hide WorkItems, InOrder, AllBefore;
    if s.wq[0].Work? {
      assert ([s.wq[0].item] + WorkItems(s.wq[1..]))[1..] == WorkItems(s.wq[1..]);
      InOrderTail(WorkItems(s.wq), h);
    } else {
      assert [] + WorkItems(s.wq[1..]) == WorkItems(s.wq[1..]);
      WorkItemsSnoc(s.wq[1..], RunSlow);
      assert WorkItems(s.wq[1..]) + [] == WorkItems(s.wq[1..]);
      if s.slowPending != [] {
        InOrderTail(s.slowPending, h);
      }
    }
  }

  /** What a worker that takes the head of the queue leaves. */
  lemma TakeParts(s: State, t: Thread, wake: Thread)
    requires Enabled(s, Take(t, wake))
    ensures var s' := Do(s, Take(t, wake));
            if s.wq[0].Work? then
              s'.wq == s.wq[1..] && s'.slowPending == s.slowPending && s'.pc[t] == Working(s.wq[0].item, false)
            else
              && (s'.wq == s.wq[1..] || s'.wq == s.wq[1..] + [RunSlow])
              && (if s'.pc[t].Working?
                  then s.slowPending != [] && s'.pc[t] == Working(s.slowPending[0], true)
                       && s'.slowPending == s.slowPending[1..]
                  else s'.slowPending == s.slowPending)
  {}

  lemma UnlinkOrdered(s: State, item: Item, h: seq<Item>)
    requires Enabled(s, CancelUnlink(item)) && QueueOrdered(s, h)
    ensures QueueOrdered(Do(s, CancelUnlink(item)), h)
  {
    WorkItemsWithout(s.wq, item);
    InOrderWithout(WorkItems(s.wq), h, item);
    InOrderWithout(s.slowPending, h, item);
  }

  lemma QueueStep(s: State, step: Step, h: seq<Item>)
    requires Inv(s) && Enabled(s, step) && QueueOrdered(s, h)
    ensures QueueOrdered(Do(s, step), h + if step.Submit? then [step.item] else [])
  {
    assert h + [] == h;
    match step
    case Submit(_, _, _, _) => SubmitOrdered(s, step, h);
    case Take(t, wake) => TakeOrdered(s, t, wake, h);
    case CancelUnlink(item) => UnlinkOrdered(s, item, h);
    case _ =>
  }

  lemma DeliverOrdered(s: State, t: Thread, l: Loop, h: seq<Item>)
    requires Inv(s) && Enabled(s, Deliver(t)) && LoopOrdered(s, l, h)
    ensures LoopOrdered(Do(s, Deliver(t)), l, h + Handed(s, Deliver(t), l))
  {
    var x := s.pc[t].item;
    if s.loopOf[x] == l {
      assert IsAt(s, x, With(t));
      assert !IsAt(s, x, InLoop(l)) && !IsAt(s, x, InDrain(l));
      AppendOrdered(s.loops[l], x, h);
    } else {
      assert h + [] == h;
    }
  }

  lemma AppendOrdered(q: LoopState, x: Item, h: seq<Item>)
    requires InOrder(q.local, h) && InOrder(q.queue, h) && AllBefore(q.local, q.queue, h)
    requires x !in q.local && x !in q.queue
    ensures InOrder(q.local, h + [x]) && InOrder(q.queue + [x], h + [x]) && AllBefore(q.local, q.queue + [x], h + [x])
  {
    LastSnoc(h, x);
    GrowOther(q.local, h, x);
    GrowBoth(q.queue, h, x);
  }

  lemma CancelOrdered(s: State, k: Loop, l: Loop, h: seq<Item>)
    requires Inv(s) && Enabled(s, CancelQueue(k)) && LoopOrdered(s, l, h)
    ensures LoopOrdered(Do(s, CancelQueue(k)), l, h + Handed(s, CancelQueue(k), l))
  {
    if k == l {
      var x := s.loops[l].cancelling.value;
      assert IsAt(s, x, InCancel(l));
      assert !IsAt(s, x, InLoop(l)) && !IsAt(s, x, InDrain(l));
      AppendOrdered(s.loops[l], x, h);
    } else {
      assert h + [] == h;
    }
  }

  lemma UnlinkedOrdered(s: State, item: Item, l: Loop, h: seq<Item>)
    requires Enabled(s, CancelUnlink(item)) && LoopOrdered(s, l, h)
    ensures LoopOrdered(Do(s, CancelUnlink(item)), l, h)
  {
    if l < |s.loops| {
      var q := s.loops[l];
      InOrderWithout(q.local, h, item);
      InOrderWithout(q.queue, h, item);
      BeforeWithout(q.local, q.queue, h, item);
    }
  }

  lemma BeforeWithout(a: seq<Item>, b: seq<Item>, h: seq<Item>, x: Item)
    requires AllBefore(a, b, h) && InOrder(a, h) && InOrder(b, h)
    ensures AllBefore(Without(a, x), Without(b, x), h)
  {
    InOrderWithout(a, h, x);
    InOrderWithout(b, h, x);
    var c, d := Without(a, x), Without(b, x);
    forall i, j | 0 <= i < |c| && 0 <= j < |d|
      ensures LastIndex(h, c[i]) < LastIndex(h, d[j])
    {
      assert c[i] in a && d[j] in b;
    }
  }

  lemma LoopStep(s: State, step: Step, l: Loop, h: seq<Item>)
    requires Inv(s) && Enabled(s, step) && LoopOrdered(s, l, h)
    ensures LoopOrdered(Do(s, step), l, h + Handed(s, step, l))
  {
    assert h + [] == h;
    hide LoopOrdered, TakeEntry, Post;
    match step
    case Deliver(t) => DeliverOrdered(s, t, l, h);
    case CancelQueue(k) => CancelOrdered(s, k, l, h);
    case CancelUnlink(item) => UnlinkedOrdered(s, item, l, h);
    case DrainStart(_) => DrainOrdered(s, step, l, h);
    case DrainNext(_) => DrainOrdered(s, step, l, h);
    case Submit(item, k, kind, wake) =>
      SubmitFields(s, item, k, kind, wake);
      SameLoops(s, Do(s, step), l, h);
    case Take(t, wake) =>
      TakeFields(s, t, wake);
      SameLoops(s, Do(s, step), l, h);
    case _ => SameLoops(s, Do(s, step), l, h);
  }

  lemma SameLoops(s: State, s': State, l: Loop, h: seq<Item>)
    requires LoopOrdered(s, l, h) && s'.loops == s.loops
    ensures LoopOrdered(s', l, h)
  {}

  lemma DrainOrdered(s: State, step: Step, l: Loop, h: seq<Item>)
    requires Enabled(s, step) && LoopOrdered(s, l, h) && (step.DrainStart? || step.DrainNext?)
    ensures LoopOrdered(Do(s, step), l, h)
  {}

  // ----- every run

  lemma {:induction false} RunOrdered(s: State, steps: seq<Step>, l: Loop, submitted: seq<Item>, handed: seq<Item>)
    requires Inv(s) && Run(s, steps).Some? && QueueOrdered(s, submitted) && LoopOrdered(s, l, handed)
    ensures Inv(Run(s, steps).value)
    ensures QueueOrdered(Run(s, steps).value, submitted + Submitted(steps))
    ensures LoopOrdered(Run(s, steps).value, l, handed + HandedOver(s, steps, l))
    decreases |steps|
  {
    if steps == [] {
      assert submitted + [] == submitted && handed + [] == handed;
    } else {
      var step := steps[0];
      var a := if step.Submit? then [step.item] else [];
      InvKept(s, step);
      QueueStep(s, step, submitted);
      LoopStep(s, step, l, handed);
      RunOrdered(Do(s, step), steps[1..], l, submitted + a, handed + Handed(s, step, l));
      Associative(submitted, a, Submitted(steps[1..]));
      Associative(handed, Handed(s, step, l), HandedOver(Do(s, step), steps[1..], l));
    }
  }

  lemma RunFromStart(s0: State, steps: seq<Step>, l: Loop)
    requires Initial(s0) && Run(s0, steps).Some?
    ensures QueueOrdered(Run(s0, steps).value, Submitted(steps))
    ensures LoopOrdered(Run(s0, steps).value, l, HandedOver(s0, steps, l))
  {
    InvInit(s0);
    RunOrdered(s0, steps, l, [], []);
    assert [] + Submitted(steps) == Submitted(steps) && [] + HandedOver(s0, steps, l) == HandedOver(s0, steps, l);
  }

  /** In every run a worker takes the work that was submitted first of what is waiting: of the fast work, or of the
      slow work if it takes slow work. */
  lemma TakenInOrder(s0: State, steps: seq<Step>, t: Thread, wake: Thread, a: Item)
    requires Initial(s0) && Run(s0, steps).Some? && Enabled(Run(s0, steps).value, Take(t, wake))
    requires Do(Run(s0, steps).value, Take(t, wake)).pc[t].Working?
    ensures var s := Do(Run(s0, steps).value, Take(t, wake));
            (if s.pc[t].slow then a in s.slowPending else Work(a) in s.wq) ==>
              LastIndex(Submitted(steps), s.pc[t].item) < LastIndex(Submitted(steps), a)
  {
    RunFromStart(s0, steps, 0);
    TakeOrdered(Run(s0, steps).value, t, wake, Submitted(steps));
    hide Run, Do, Enabled, QueueOrdered, LoopOrdered, Submitted, LastIndex, WorkItems;
    var s := Do(Run(s0, steps).value, Take(t, wake));
    BeforeEach(s.pc[t].item, if s.pc[t].slow then s.slowPending else WorkItems(s.wq), Submitted(steps), a);
  }

  lemma BeforeEach(x: Item, q: seq<Item>, h: seq<Item>, a: Item)
    requires AllBefore([x], q, h)
    ensures a in q ==> LastIndex(h, x) < LastIndex(h, a)
  {
    if a in q {
      var j :| 0 <= j < |q| && q[j] == a;
      assert LastIndex(h, [x][0]) < LastIndex(h, q[j]);
    }
  }

  /** In every run a loop calls back the item that was handed to it first of those that it still has. */
  lemma DoneInOrder(s0: State, steps: seq<Step>, l: Loop, a: Item)
    requires Initial(s0) && Run(s0, steps).Some? && Enabled(Run(s0, steps).value, DrainNext(l))
    ensures var s := Do(Run(s0, steps).value, DrainNext(l));
            && s.done != [] && l < |s.loops|
            && (a in s.loops[l].local || a in s.loops[l].queue ==>
                  LastIndex(HandedOver(s0, steps, l), s.done[|s.done| - 1].0) < LastIndex(HandedOver(s0, steps, l), a))
  {
    RunFromStart(s0, steps, l);
  }
}
