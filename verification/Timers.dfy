/** The timers of src/timer.c, on the linked heap of TimerHeap.  The queue of ready timers is a sequence, as
    Queue justifies. */
module Timers {
  import opened Basics
  import TimerHeap
  import opened Watchers

  const INT_MAX := 0x7FFF_FFFF

  datatype Timer = Timer(timeout: uint64, repeat: uint64, startId: nat, callback: bool, active: bool, closing: bool)

  ghost predicate AllSeenOk(seen: seq<Seen>, fired: seq<Handle>) {
    |seen| == |fired| && forall i :: 0 <= i < |seen| ==> SeenOk(seen[i])
  }

  /** What is in the heap for a timer. */
  function KeyOf(h: Handle, x: Timer): TimerHeap.Key {
    TimerHeap.Key(x.timeout, x.startId, h)
  }

  /** The order (timeout, start id). */
  predicate Less(a: Timer, b: Timer) {
    a.timeout < b.timeout || (a.timeout == b.timeout && a.startId < b.startId)
  }

  /** The contents of the heap for the timers in it. */
  ghost function KeysOf(heap: set<Handle>, timers: map<Handle, Timer>): map<Handle, TimerHeap.Key> {
    map h | h in heap && h in timers :: KeyOf(h, timers[h])
  }

  lemma KeysWithout(heap: set<Handle>, timers: map<Handle, Timer>, h: Handle, x: Timer)
    requires forall g :: g in heap ==> g in timers
    ensures KeysOf(heap - {h}, timers[h := x]) == KeysOf(heap, timers) - {h}
  {}

  lemma KeysWith(heap: set<Handle>, timers: map<Handle, Timer>, h: Handle, x: Timer)
    requires forall g :: g in heap ==> g in timers
    ensures KeysOf(heap + {h}, timers[h := x]) == KeysOf(heap, timers)[h := KeyOf(h, x)]
  {}

  lemma KeysKept(heap: set<Handle>, timers: map<Handle, Timer>, h: Handle, x: Timer)
    requires h in timers && KeyOf(h, x) == KeyOf(h, timers[h])
    ensures KeysOf(heap, timers[h := x]) == KeysOf(heap, timers)
  {}

  /** What a callback does: to a timer that has been initialised, or to the time of the loop. */
  datatype TimerAction =
    | StartTimer(h: Handle, callback: bool, timeout: uint64, repeat: uint64)
    | StopTimer(h: Handle)
    | AgainTimer(h: Handle)
    | CloseTimer(h: Handle)
    | SetRepeat(h: Handle, repeat: uint64)
    | UpdateTime(now: uint64)

  /** The end of a wait in 64 bits, clamped where the sum wraps. */
  function Deadline(time: uint64, timeout: uint64): (d: uint64)
    ensures d as int == if time as int + timeout as int < UINT64 then time as int + timeout as int else UINT64 - 1
  {
    var sum: int := time as int + timeout as int;
    if sum % UINT64 < timeout then UINT64 - 1 else sum % UINT64
  }

  /** A timer one period from now. */
  function Rearmed(x: Timer, time: uint64, counter: nat): Timer {
    Timer(Deadline(time, x.repeat), x.repeat, counter, x.callback, true, false)
  }

  /** What a callback finds: the time of the loop and its own timer. */
  datatype Seen = Seen(now: uint64, timer: Timer)

  /** A repeating timer is active again, one period from now, when its callback runs; another is not. */
  predicate SeenOk(x: Seen) {
    if x.timer.repeat == 0 then !x.timer.active
    else x.timer.active && x.timer.timeout == Deadline(x.now, x.timer.repeat)
  }

  ghost predicate TimerOk(x: Timer, counter: nat) {
    x.active ==> x.callback && !x.closing && x.startId < counter
  }

  ghost predicate ReadyOk(h: Handle, timers: map<Handle, Timer>) {
    h in timers && !timers[h].active && timers[h].callback && !timers[h].closing
  }

  /** Active timers are those in the heap; ready ones are not active; start ids order what was started. */
  ghost predicate Listed(heap: set<Handle>, timers: map<Handle, Timer>, ready: seq<Handle>, counter: nat) {
    && (forall h :: h in heap ==> h in timers) && (forall h :: h in timers ==> (timers[h].active <==> h in heap))
    && (forall h :: h in timers ==> TimerOk(timers[h], counter))
    && (forall g, h :: g in heap && h in heap && g != h ==> timers[g].startId != timers[h].startId)
    && NoDup(ready) && forall h :: h in ready ==> ReadyOk(h, timers)
  }

  lemma ListedStop(heap: set<Handle>, timers: map<Handle, Timer>, ready: seq<Handle>, counter: nat, h: Handle)
    requires Listed(heap, timers, ready, counter) && h in timers
    ensures Listed(heap - {h}, timers[h := timers[h].(active := false)], Without(ready, h), counter)
    ensures timers[h].active ==> Without(ready, h) == ready
    ensures !timers[h].active ==> heap - {h} == heap && timers[h := timers[h].(active := false)] == timers
  {
    WithoutFacts(ready, h);
  }

  lemma ListedEnter(heap: set<Handle>, timers: map<Handle, Timer>, ready: seq<Handle>, counter: nat, h: Handle, x: Timer)
    requires Listed(heap, timers, ready, counter) && h in timers && h !in heap && h !in ready
    requires x.startId == counter && x.active && x.callback && !x.closing
    ensures Listed(heap + {h}, timers[h := x], ready, counter + 1)
  {}

  class TimerLoop {
    var time: uint64
    var counter: nat
    var timers: map<Handle, Timer>
    const tree: TimerHeap.Tree
    ghost var heap: set<Handle>   // the timers in the tree
    var ready: seq<Handle>

    /** The linked heap holds those timers under their deadlines. */
    ghost predicate Linked()
      reads this`timers, this`heap, tree, tree.repr
    {
      tree.Valid() && this !in tree.repr && tree.Keys() == KeysOf(heap, timers)
    }

    ghost predicate Valid()
      reads this, tree, tree.repr
    {
      Listed(heap, timers, ready, counter) && Linked()
    }

    constructor (time: uint64)
      ensures Valid() && fresh(tree.repr) && timers == map[] && heap == {} && ready == [] && this.time == time
    {
      this.time := time;
      counter, timers, heap, ready := 0, map[], {}, [];
      tree := new TimerHeap.Tree();
    }

    /** uv_timer_init */
    method Init(h: Handle)
      requires Valid() && h !in timers
      modifies this`timers
      ensures Valid() && timers == old(timers)[h := Timer(0, 0, 0, false, false, false)]
    {
      hide tree.Valid;
      timers := timers[h := Timer(0, 0, 0, false, false, false)];
      assert KeysOf(heap, timers) == old(KeysOf(heap, timers));
    }

    /** heap_min */
    method HeapMin() returns (h: Option<Handle>)
      requires Valid()
      ensures h.None? <==> heap == {}
      ensures h.Some? ==> h.value in heap && forall g :: g in heap && g != h.value ==> Less(timers[h.value], timers[g])
    {
      h := tree.Min();
      assert forall g :: g in tree.Keys() <==> g in heap;
      if h.Some? {
        assert forall g :: g in heap ==> tree.Keys()[g] == KeyOf(g, timers[g]);
      }
    }

    /** uv_timer_stop */
    method Stop(h: Handle)
      requires Valid() && h in timers
      modifies this`timers, this`heap, this`ready, tree.repr
      ensures Valid() && fresh(tree.repr - old(tree.repr))
      ensures heap == old(heap) - {h} && ready == Without(old(ready), h)
      ensures timers == old(timers)[h := old(timers)[h].(active := false)]
    {
      hide tree.Valid;
      ListedStop(heap, timers, ready, counter, h);
      if timers[h].active {
        assert h in tree.Keys();
        KeysWithout(heap, timers, h, timers[h].(active := false));
        tree.Remove(h);
        heap := heap - {h};
        timers := timers[h := timers[h].(active := false)];
      } else {
        ready := Without(ready, h);
      }
    }

    /** uv_timer_start */
    method Start(h: Handle, callback: bool, timeout: uint64, repeat: uint64) returns (code: int)
      requires Valid() && h in timers
      modifies this`timers, this`heap, this`ready, this`counter, tree.repr
      ensures Valid() && fresh(tree.repr - old(tree.repr))
      ensures code == if old(timers)[h].closing || !callback then UV_EINVAL else 0
      ensures code != 0 ==> timers == old(timers) && heap == old(heap) && ready == old(ready)
      ensures code == 0 ==>
                && heap == old(heap) + {h} && ready == Without(old(ready), h) && counter == old(counter) + 1
                && timers == old(timers)[h := Timer(Deadline(time, timeout), repeat, old(counter), true, true, false)]
    {
      hide tree.Valid;
      if timers[h].closing || !callback {
        return UV_EINVAL;
      }
      Stop(h);
      WithoutFacts(old(ready), h);
      ghost var kept := heap;
      Enter(h, Timer(Deadline(time, timeout), repeat, counter, true, true, false));
      assert heap == old(heap) + {h};
      return 0;
    }

    /** The last part of uv_timer_start: a stopped timer enters the heap. */
    method Enter(h: Handle, x: Timer)
      requires Valid() && h in timers && h !in heap && h !in ready
      requires x.startId == counter && x.active && x.callback && !x.closing
      modifies this`timers, this`heap, this`counter, tree.repr
      ensures Valid() && fresh(tree.repr - old(tree.repr))
      ensures heap == old(heap) + {h} && timers == old(timers)[h := x] && counter == old(counter) + 1
    {
      hide tree.Valid;
      KeysWith(heap, timers, h, x);
      ListedEnter(heap, timers, ready, counter, h, x);
      assert h !in tree.Keys();
      tree.Insert(KeyOf(h, x));
      assert tree.Valid() && this !in tree.repr && tree.Keys() == KeysOf(heap + {h}, timers[h := x]);
      timers := timers[h := x];
      counter := counter + 1;
      heap := heap + {h};
    }

    /** uv_timer_again */
    method Again(h: Handle) returns (code: int)
      requires Valid() && h in timers
      modifies this`timers, this`heap, this`ready, this`counter, tree.repr
      ensures Valid() && fresh(tree.repr - old(tree.repr)) && timers.Keys == old(timers.Keys)
      ensures code == if old(timers)[h].callback then 0 else UV_EINVAL
      ensures if code == 0 && old(timers)[h].repeat != 0 then ready == Without(old(ready), h) else ready == old(ready)
      ensures if code == 0 && old(timers)[h].repeat != 0 && !old(timers)[h].closing
              then heap == old(heap) + {h} && timers == old(timers)[h := Rearmed(old(timers)[h], time, old(counter))]
              else heap == old(heap) && timers == old(timers)
    {
      if !timers[h].callback {
        return UV_EINVAL;
      }
      if timers[h].repeat != 0 {
        Rearm(h);
      }
      return 0;
    }

    method Rearm(h: Handle)
      requires Valid() && h in timers && timers[h].callback
      modifies this`timers, this`heap, this`ready, this`counter, tree.repr
      ensures Valid() && fresh(tree.repr - old(tree.repr)) && ready == Without(old(ready), h)
      ensures if old(timers)[h].closing then heap == old(heap) && timers == old(timers)
              else heap == old(heap) + {h} && timers == old(timers)[h := Rearmed(old(timers)[h], time, old(counter))]
    {
      hide tree.Valid;
      ListedStop(heap, timers, ready, counter, h);
      WithoutTwice(ready, h);
      assert TimerOk(timers[h], counter);
      Stop(h);
      var _ := Start(h, timers[h].callback, timers[h].repeat, timers[h].repeat);
    }

    /** uv__next_timeout: how long the loop may sleep. */
    method NextTimeout() returns (r: int)
      requires Valid()
      ensures r == -1 <==> heap == {}
      ensures -1 <= r <= 0x7FFF_FFFF
      ensures forall h :: h in heap && timers[h].timeout > time ==> r <= timers[h].timeout as int - time as int
      ensures heap != {} && r < INT_MAX ==> exists h :: h in heap && timers[h].timeout as int - time as int <= r
      ensures r == 0 <==> exists h :: h in heap && timers[h].timeout <= time
    {
      var min := HeapMin();
      if min == None {
        return -1;
      }
      var h := min.value;
      if timers[h].timeout <= time {
        return 0;
      }
      var diff: int := timers[h].timeout as int - time as int;
      if diff > INT_MAX {
        diff := INT_MAX;
      }
      return diff;
    }

    method CollectOne(h: Handle, ghost t: map<Handle, Timer>, ghost heap0: set<Handle>)
      requires Valid() && Collected(t, heap0, timers, heap, ready, time) && h in heap && timers[h].timeout <= time
      requires forall g :: g in heap && g != h ==> Less(timers[h], timers[g])
      modifies this`timers, this`heap, this`ready, tree.repr
      ensures Valid() && fresh(tree.repr - old(tree.repr))
      ensures Collected(t, heap0, timers, heap, ready, time) && heap == old(heap) - {h}
    {
      CollectedStep(t, heap0, timers, heap, ready, time, h);
      Move(h);
    }

    /** A timer leaves the heap for the tail of the ready queue. */
    method Move(h: Handle)
      requires Valid() && h in heap
      modifies this`timers, this`heap, this`ready, tree.repr
      ensures Valid() && fresh(tree.repr - old(tree.repr))
      ensures ready == old(ready) + [h] && heap == old(heap) - {h}
      ensures timers == old(timers)[h := old(timers)[h].(active := false)]
    {
      WithoutFacts(ready, h);
      Stop(h);
      PushReady(h);
    }

    method PushReady(h: Handle)
      requires Valid() && h !in ready && ReadyOk(h, timers)
      modifies this`ready
      ensures Valid() && ready == old(ready) + [h]
    {
      NoDupSnoc(ready, h);
      ready := ready + [h];
    }

    /** The first loop of uv__run_timers: the due timers leave the heap, in order. */
    method Collect()
      requires Valid() && ready == []
      modifies this`timers, this`heap, this`ready, tree.repr
      ensures Valid() && fresh(tree.repr - old(tree.repr)) && Sorted(ready, old(timers))
      ensures forall h :: h in ready <==> h in old(heap) && old(timers)[h].timeout <= time
      ensures forall h :: h in ready ==> timers[h].repeat == old(timers)[h].repeat
    {
      hide tree.Valid;
      var more := true;
      while more
        invariant Valid() && fresh(tree.repr - old(tree.repr))
        invariant Collected(old(timers), old(heap), timers, heap, ready, time)
        invariant !more ==> forall h :: h in heap ==> timers[h].timeout > time
        decreases heap, more
      {
        more := CollectNext(old(timers), old(heap));
      }
    }

    /** One turn of that loop; false if no timer is due. */
    method CollectNext(ghost t: map<Handle, Timer>, ghost heap0: set<Handle>) returns (more: bool)
      requires Valid() && Collected(t, heap0, timers, heap, ready, time)
      modifies this`timers, this`heap, this`ready, tree.repr
      ensures Valid() && fresh(tree.repr - old(tree.repr))
      ensures Collected(t, heap0, timers, heap, ready, time)
      ensures if more then heap < old(heap) else heap == old(heap) && forall h :: h in heap ==> timers[h].timeout > time
    {
      hide tree.Valid;
      var min := HeapMin();
      if min == None || timers[min.value].timeout > time {
        return false;
      }
      CollectOne(min.value, t, heap0);
      more := true;
    }

    /** A callback of the pass. */
    method Perform(script: seq<TimerAction>) returns (ghost gone: set<Handle>)
      requires Valid()
      modifies this, tree.repr
      ensures Valid() && fresh(tree.repr - old(tree.repr))
      ensures Left(old(ready), old(timers), script, gone, ready, timers)
    {
      hide tree.Valid, Left;
      gone := {};
      LeftNone(ready, timers);
      for k := 0 to |script|
        invariant Valid() && fresh(tree.repr - old(tree.repr))
        invariant Left(old(ready), old(timers), script[..k], gone, ready, timers)
      {
        ghost var before, t := ready, timers;
        Act(script[k]);
        gone := LeftOne(old(ready), old(timers), script[..k], gone, before, t, script[k], ready, timers);
        assert script[..k + 1] == script[..k] + [script[k]];
      }
      assert script[..|script|] == script;
    }

    /** A timer changes, but not its place in the heap. */
    method Mark(h: Handle, x: Timer)
      requires Valid() && h in timers && KeyOf(h, x) == KeyOf(h, timers[h]) && x.active == timers[h].active
      requires TimerOk(x, counter) && (h in ready ==> x.callback && !x.closing)
      modifies this`timers
      ensures Valid() && timers == old(timers)[h := x]
    {
      KeysKept(heap, timers, h, x);
      timers := timers[h := x];
    }

    /** The first step of closing a timer; a second close does nothing. */
    method Close(h: Handle)
      requires Valid() && h in timers
      modifies this`timers, this`heap, this`ready, tree.repr
      ensures Valid() && fresh(tree.repr - old(tree.repr))
      ensures ready == if old(timers)[h].closing then old(ready) else Without(old(ready), h)
      ensures timers == if old(timers)[h].closing then old(timers)
                        else old(timers)[h := old(timers)[h].(active := false, closing := true)]
    {
      hide tree.Valid;
      if !timers[h].closing {
        WithoutFacts(ready, h);
        Stop(h);
        Mark(h, timers[h].(closing := true));
      }
    }

    /** uv_timer_set_repeat */
    method ChangeRepeat(h: Handle, repeat: uint64)
      requires Valid() && h in timers
      modifies this`timers
      ensures Valid() && timers == old(timers)[h := old(timers)[h].(repeat := repeat)]
    {
      hide tree.Valid;
      Mark(h, timers[h].(repeat := repeat));
    }

    /** One action of a callback; on a timer that was never initialised it does nothing. */
    method Act(a: TimerAction)
      requires Valid()
      modifies this, tree.repr
      ensures Valid() && fresh(tree.repr - old(tree.repr))
      ensures Acted(a, old(ready), old(timers), ready, timers)
    {
      hide tree.Valid, Listed, Acted;
      ReadyFacts(heap, timers, ready, counter);
      if a.UpdateTime? {
        time := a.now;
        ActedStays(a, ready, timers, timers);
      } else if a.h in timers {
        ActOn(a);
      } else {
        ActedStays(a, ready, timers, timers);
      }
    }

    method ActOn(a: TimerAction)
      requires Valid() && !a.UpdateTime? && a.h in timers
      modifies this, tree.repr
      ensures Valid() && fresh(tree.repr - old(tree.repr))
      ensures Acted(a, old(ready), old(timers), ready, timers)
    {
      hide tree.Valid, Listed, Acted, Linked;
      ReadyFacts(heap, timers, ready, counter);
      ghost var was, t := ready, timers;
      match a
      case StartTimer(h, callback, timeout, repeat) =>
        var code := Start(h, callback, timeout, repeat);
        if code == 0 {
          ActedGone(a, was, t, timers);
        } else {
          assert h in was ==> !callback;
          ActedStays(a, was, t, timers);
        }
      case StopTimer(h) =>
        Stop(h);
        ActedGone(a, was, t, timers);
      case AgainTimer(h) =>
        var code := Again(h);
        if code == 0 && t[h].repeat != 0 {
          ActedGone(a, was, t, timers);
        } else {
          ActedStays(a, was, t, timers);
        }
      case CloseTimer(h) =>
        Close(h);
        if t[h].closing {
          ActedStays(a, was, t, timers);
        } else {
          ActedGone(a, was, t, timers);
        }
      case SetRepeat(h, repeat) =>
        ChangeRepeat(h, repeat);
        ActedStays(a, was, t, timers);
    }

    /** One turn of the second loop of uv__run_timers. */
    method Fire(scripts: seq<seq<TimerAction>>, ghost t: map<Handle, Timer>, fired: seq<Handle>, seen: seq<Seen>)
      returns (fired': seq<Handle>, seen': seq<Seen>)
      requires Valid() && ready != [] && InTurn(t, scripts, |fired|, ready, timers) && AllSeenOk(seen, fired)
      modifies this, tree.repr
      ensures Valid() && fresh(tree.repr - old(tree.repr))
      ensures |ready| < |old(ready)| && InTurn(t, scripts, |fired'|, ready, timers) && AllSeenOk(seen', fired')
      ensures fired' + Firing(ready, scripts, t, |fired'|) == fired + Firing(old(ready), scripts, t, |fired|)
    {
      hide tree.Valid, Listed, Linked, Left, Firing, InTurn, SeenOk;
      var h := TakeReady();
      fired' := fired + [h];
      FiringHead(h, ready, timers, scripts, t, |fired|);
      ghost var waiting, before := ready, timers;
      var own := Repeat(h);
      seen' := seen + [Seen(time, own)];
      InTurnKept(t, scripts, |fired|, waiting, before, timers);
      ghost var now := timers;
      ghost var gone := Perform(if |fired| < |scripts| then scripts[|fired|] else []);
      TurnsPass(t, scripts, |fired|, waiting, now, gone, ready, timers);
      Associative(fired, [h], Firing(ready, scripts, t, |fired'|));
    }

    /** The first of the ready timers leaves their queue. */
    method TakeReady() returns (h: Handle)
      requires Valid() && ready != []
      modifies this`ready
      ensures Valid() && old(ready) == [h] + ready && h !in ready
      ensures h in timers && timers[h].callback && !timers[h].active && !timers[h].closing
    {
      hide tree.Valid;
      h := ready[0];
      assert ready == [h] + ready[1..] && ReadyOk(h, timers);
      NoDupAppend([h], ready[1..]);
      ready := ready[1..];
    }

    /** uv_timer_again on the timer that is about to be called back. */
    method Repeat(h: Handle) returns (own: Timer)
      requires Valid() && h in timers && h !in ready
      requires timers[h].callback && !timers[h].active && !timers[h].closing
      modifies this`timers, this`heap, this`ready, this`counter, tree.repr
      ensures Valid() && fresh(tree.repr - old(tree.repr)) && ready == old(ready) && SeenOk(Seen(time, own))
      ensures forall g :: g in old(timers) && g != h ==> g in timers && timers[g] == old(timers)[g]
    {
      hide tree.Valid, Listed, Linked;
      ReadyFacts(heap, timers, ready, counter);
      WithoutFacts(ready, h);
      var _ := Again(h);
      own := timers[h];
    }

    /** uv__run_timers; scripts[k] is what the k-th callback does.  due are the timers that are due at entry
        in (timeout, start id) order.  They fire in this order and once each, but for exactly those that the
        callbacks before their turn withdrew; nothing else fires.  A repeating timer is active again when its
        callback runs. */
    method RunTimers(scripts: seq<seq<TimerAction>>)
      returns (fired: seq<Handle>, seen: seq<Seen>, ghost due: seq<Handle>)
      requires Valid() && ready == []
      modifies this, tree.repr
      ensures Valid() && fresh(tree.repr - old(tree.repr))
      ensures ready == [] && Sorted(due, old(timers))
      ensures forall h :: h in due <==> h in old(heap) && old(timers)[h].timeout <= old(time)
      ensures fired == Firing(due, scripts, old(timers), 0)
      ensures AllSeenOk(seen, fired)
    {
      Collect();
      due := ready;
      fired, seen := FireAll(scripts, old(timers));
    }

    /** The second loop of uv__run_timers. */
    method FireAll(scripts: seq<seq<TimerAction>>, ghost t: map<Handle, Timer>)
      returns (fired: seq<Handle>, seen: seq<Seen>)
      requires Valid() && InTurn(t, scripts, 0, ready, timers)
      modifies this, tree.repr
      ensures Valid() && fresh(tree.repr - old(tree.repr))
      ensures ready == [] && fired == Firing(old(ready), scripts, t, 0) && AllSeenOk(seen, fired)
    {
      hide tree.Valid;
      fired, seen := [], [];
      while ready != []
        invariant Valid() && fresh(tree.repr - old(tree.repr))
        invariant InTurn(t, scripts, |fired|, ready, timers) && AllSeenOk(seen, fired)
        invariant fired + Firing(ready, scripts, t, |fired|) == Firing(old(ready), scripts, t, 0)
        decreases |ready|
      {
        fired, seen := Fire(scripts, t, fired, seen);
      }
      assert fired + [] == fired;
    }
  }

  /** In the order (timeout, start id), without ties. */
  ghost predicate Sorted(q: seq<Handle>, timers: map<Handle, Timer>) {
    && (forall h :: h in q ==> h in timers)
    && forall i, j :: 0 <= i < j < |q| ==> Less(timers[q[i]], timers[q[j]])
  }

  /** The ready timers are sorted and come before those in the heap. */
  ghost predicate InOrder(t: map<Handle, Timer>, heap: set<Handle>, ready: seq<Handle>) {
    && heap <= t.Keys && Sorted(ready, t)
    && forall g, h :: g in heap && h in ready ==> Less(t[h], t[g])
  }

  /** Some timers, in order and all due, have moved from the heap to the ready queue; it was heap0 with the
      timers t. */
  ghost predicate Collected(t: map<Handle, Timer>, heap0: set<Handle>, timers: map<Handle, Timer>, heap: set<Handle>,
                            ready: seq<Handle>, time: uint64)
  {
    && timers.Keys == t.Keys && heap <= heap0 && InOrder(t, heap, ready)
    && (forall h :: h in timers ==> timers[h] == t[h].(active := h in heap))
    && (forall h :: h in heap0 ==> h in heap || h in ready)
    && (forall h :: h in ready ==> h in heap0 && h !in heap && t[h].timeout <= time)
  }

  lemma CollectedStep(t: map<Handle, Timer>, heap0: set<Handle>, timers: map<Handle, Timer>, heap: set<Handle>,
                      ready: seq<Handle>, time: uint64, h: Handle)
    requires Collected(t, heap0, timers, heap, ready, time) && h in heap && t[h].timeout <= time
    requires forall g :: g in heap && g != h ==> Less(timers[h], timers[g])
    ensures Collected(t, heap0, timers[h := timers[h].(active := false)], heap - {h}, ready + [h], time)
  {}

  lemma WithoutTwice(q: seq<Handle>, h: Handle)
    requires NoDup(q)
    ensures Without(Without(q, h), h) == Without(q, h)
  {
    WithoutFacts(q, h);
    WithoutFacts(Without(q, h), h);
  }

  // ----- which of the ready timers fire

  /** A timer moved to the ready queue still waits there, with its present repeat, or has been withdrawn. */
  datatype Turn = Waiting(repeat: uint64) | Withdrawn

  /** Stopping, closing and starting it with a callback take the waiting timer h out of the queue; so does
      uv_timer_again, exactly if h repeats by then. */
  function AfterAction(turn: Turn, a: TimerAction, h: Handle): Turn {
    if turn.Withdrawn? || a.UpdateTime? || a.h != h then turn
    else
      match a
      case StartTimer(_, callback, _, _) => if callback then Withdrawn else turn
      case StopTimer(_) => Withdrawn
      case AgainTimer(_) => if turn.repeat != 0 then Withdrawn else turn
      case CloseTimer(_) => Withdrawn
      case SetRepeat(_, repeat) => Waiting(repeat)
  }

  function AfterScript(turn: Turn, script: seq<TimerAction>, h: Handle): Turn {
    if script == [] then turn
    else AfterAction(AfterScript(turn, script[..|script| - 1], h), script[|script| - 1], h)
  }

  /** What the k-th callback does. */
  function ScriptOf(scripts: seq<seq<TimerAction>>, k: nat): seq<TimerAction> {
    if k < |scripts| then scripts[k] else []
  }

  /** After the first n callbacks. */
  function AfterCallbacks(turn: Turn, scripts: seq<seq<TimerAction>>, n: nat, h: Handle): Turn {
    if n == 0 then turn else AfterScript(AfterCallbacks(turn, scripts, n - 1, h), ScriptOf(scripts, n - 1), h)
  }

  /** h, with the timers t when it became due, has been withdrawn by the first n callbacks. */
  predicate Gone(scripts: seq<seq<TimerAction>>, t: map<Handle, Timer>, n: nat, h: Handle) {
    h in t && AfterCallbacks(Waiting(t[h].repeat), scripts, n, h).Withdrawn?
  }

  /** Those of q that fire when n callbacks have run: each is passed over exactly if it is gone at its turn. */
  function Firing(q: seq<Handle>, scripts: seq<seq<TimerAction>>, t: map<Handle, Timer>, n: nat): seq<Handle> {
    if q == [] then []
    else if Gone(scripts, t, n, q[0]) then Firing(q[1..], scripts, t, n)
    else [q[0]] + Firing(q[1..], scripts, t, n + 1)
  }

  lemma {:induction false} FiringSplit(q: seq<Handle>, r: seq<Handle>, scripts: seq<seq<TimerAction>>,
                                       t: map<Handle, Timer>, n: nat)
    ensures Firing(q + r, scripts, t, n)
         == Firing(q, scripts, t, n) + Firing(r, scripts, t, n + |Firing(q, scripts, t, n)|)
  {
    if q == [] {
      assert q + r == r;
    } else {
      assert (q + r)[1..] == q[1..] + r;
      FiringSplit(q[1..], r, scripts, t, if Gone(scripts, t, n, q[0]) then n else n + 1);
    }
  }

  lemma {:induction false} FiringFrom(q: seq<Handle>, scripts: seq<seq<TimerAction>>, t: map<Handle, Timer>, n: nat)
    ensures forall h :: h in Firing(q, scripts, t, n) ==> h in q
  {
    if q != [] {
      FiringFrom(q[1..], scripts, t, if Gone(scripts, t, n, q[0]) then n else n + 1);
    }
  }

  /** A due timer fires if and only if the callbacks of those that fire before it do not withdraw it. */
  lemma FiresIff(due: seq<Handle>, scripts: seq<seq<TimerAction>>, t: map<Handle, Timer>, i: nat)
    requires NoDup(due) && i < |due|
    ensures var n := |Firing(due[..i], scripts, t, 0)|;
            due[i] in Firing(due, scripts, t, 0) <==> !Gone(scripts, t, n, due[i])
  {
    var q, r := due[..i], due[i..];
    assert due == q + r && r == [due[i]] + r[1..];
    NoDupAppend(q, r);
    NoDupAppend([due[i]], r[1..]);
    FiringSplit(q, r, scripts, t, 0);
    var n := |Firing(q, scripts, t, 0)|;
    FiringFrom(q, scripts, t, 0);
    FiringFrom(r[1..], scripts, t, n);
  }

  lemma {:induction false} StaysWithdrawn(script: seq<TimerAction>, h: Handle)
    ensures AfterScript(Withdrawn, script, h) == Withdrawn
  {
    if script != [] {
      StaysWithdrawn(script[..|script| - 1], h);
    }
  }

  /** Passing over those that are gone changes nothing. */
  lemma {:induction false} FiringKeep(q: seq<Handle>, gone: set<Handle>, scripts: seq<seq<TimerAction>>,
                                      t: map<Handle, Timer>, n: nat)
    requires forall h :: h in q && h in gone ==> Gone(scripts, t, n, h)
    ensures Firing(Keep(q, gone), scripts, t, n) == Firing(q, scripts, t, n)
  {
    if q != [] {
      assert forall h :: h in q[1..] ==> h in q;
      if Gone(scripts, t, n, q[0]) {
        FiringKeep(q[1..], gone, scripts, t, n);
      } else {
        forall h | h in q && h in gone
          ensures Gone(scripts, t, n + 1, h)
        {
          StaysWithdrawn(ScriptOf(scripts, n), h);
        }
        FiringKeep(q[1..], gone, scripts, t, n + 1);
      }
    }
  }

  /** One action, on the ready queue and the timers. */
  ghost predicate Acted(a: TimerAction, ready: seq<Handle>, timers: map<Handle, Timer>, ready': seq<Handle>,
                        timers': map<Handle, Timer>)
  {
    && (ready' == ready || (!a.UpdateTime? && ready' == Without(ready, a.h)))
    && (forall h :: h in ready ==> h in timers)
    && forall h :: h in ready ==> Stands(AfterAction(Waiting(timers[h].repeat), a, h), h, h in ready', timers')
  }

  predicate Stands(turn: Turn, h: Handle, waits: bool, timers: map<Handle, Timer>) {
    if turn.Withdrawn? then !waits else waits && h in timers && timers[h].repeat == turn.repeat
  }

  lemma ReadyFacts(heap: set<Handle>, timers: map<Handle, Timer>, ready: seq<Handle>, counter: nat)
    requires Listed(heap, timers, ready, counter)
    ensures NoDup(ready) && forall h :: h in ready ==> ReadyOk(h, timers)
  {}

  lemma ActedGone(a: TimerAction, ready: seq<Handle>, timers: map<Handle, Timer>, timers': map<Handle, Timer>)
    requires NoDup(ready) && !a.UpdateTime? && forall h :: h in ready ==> h in timers
    requires forall h :: h in ready && h != a.h ==> h in timers' && timers'[h] == timers[h]
    requires a.h in ready ==> AfterAction(Waiting(timers[a.h].repeat), a, a.h).Withdrawn?
    ensures Acted(a, ready, timers, Without(ready, a.h), timers')
  {
    WithoutFacts(ready, a.h);
  }

  lemma ActedStays(a: TimerAction, ready: seq<Handle>, timers: map<Handle, Timer>, timers': map<Handle, Timer>)
    requires forall h :: h in ready ==> h in timers && h in timers'
    requires forall h :: h in ready ==> AfterAction(Waiting(timers[h].repeat), a, h) == Waiting(timers'[h].repeat)
    ensures Acted(a, ready, timers, ready, timers')
  {}

  /** A script has withdrawn exactly those in gone from q; it began with the timers t. */
  ghost predicate Left(q: seq<Handle>, t: map<Handle, Timer>, script: seq<TimerAction>, gone: set<Handle>,
                       ready: seq<Handle>, timers: map<Handle, Timer>)
  {
    && NoDup(q) && ready == Keep(q, gone)
    && (forall h :: h in q ==> h in t)
    && forall h :: h in q ==> Stands(AfterScript(Waiting(t[h].repeat), script, h), h, h !in gone, timers)
  }

  lemma LeftNone(q: seq<Handle>, t: map<Handle, Timer>)
    requires NoDup(q) && forall h :: h in q ==> h in t
    ensures Left(q, t, [], {}, q, t)
  {
    KeepFacts(q, {});
  }

  lemma LeftOne(q: seq<Handle>, t: map<Handle, Timer>, script: seq<TimerAction>, gone: set<Handle>,
                ready: seq<Handle>, timers: map<Handle, Timer>, a: TimerAction, ready': seq<Handle>,
                timers': map<Handle, Timer>)
    returns (gone': set<Handle>)
    requires Left(q, t, script, gone, ready, timers) && Acted(a, ready, timers, ready', timers')
    ensures Left(q, t, script + [a], gone', ready', timers')
  {
    KeepFacts(q, gone);
    gone' := gone;
    if ready' != ready {
      WithoutFacts(ready, a.h);
      KeepLess(q, gone, a.h);
      gone' := gone + {a.h};
    }
    assert (script + [a])[..|script|] == script;
  }

  /** The ready timers still wait after n callbacks, with these repeats; they became due with the timers t. */
  ghost predicate InTurn(t: map<Handle, Timer>, scripts: seq<seq<TimerAction>>, n: nat, ready: seq<Handle>,
                         timers: map<Handle, Timer>)
  {
    forall h :: h in ready ==>
      h in t && h in timers && AfterCallbacks(Waiting(t[h].repeat), scripts, n, h) == Waiting(timers[h].repeat)
  }

  lemma InTurnKept(t: map<Handle, Timer>, scripts: seq<seq<TimerAction>>, n: nat, ready: seq<Handle>,
                   timers: map<Handle, Timer>, timers': map<Handle, Timer>)
    requires InTurn(t, scripts, n, ready, timers)
    requires forall h :: h in ready ==> h in timers' && h in timers && timers'[h] == timers[h]
    ensures InTurn(t, scripts, n, ready, timers')
  {}

  lemma FiringHead(h: Handle, rest: seq<Handle>, timers: map<Handle, Timer>, scripts: seq<seq<TimerAction>>,
                   t: map<Handle, Timer>, n: nat)
    requires InTurn(t, scripts, n, [h] + rest, timers)
    ensures Firing([h] + rest, scripts, t, n) == [h] + Firing(rest, scripts, t, n + 1)
    ensures InTurn(t, scripts, n, rest, timers)
  {
    assert ([h] + rest)[1..] == rest && h in [h] + rest && forall g :: g in rest ==> g in [h] + rest;
  }

  lemma TurnsPass(t: map<Handle, Timer>, scripts: seq<seq<TimerAction>>, n: nat, waiting: seq<Handle>,
                  now: map<Handle, Timer>, gone: set<Handle>, ready: seq<Handle>, timers: map<Handle, Timer>)
    requires InTurn(t, scripts, n, waiting, now)
    requires Left(waiting, now, ScriptOf(scripts, n), gone, ready, timers)
    ensures InTurn(t, scripts, n + 1, ready, timers) && |ready| <= |waiting|
    ensures Firing(ready, scripts, t, n + 1) == Firing(waiting, scripts, t, n + 1)
  {
    KeepFacts(waiting, gone);
    KeepShorter(waiting, gone);
    FiringKeep(waiting, gone, scripts, t, n + 1);
  }

  lemma {:induction false} KeepShorter(q: seq<Handle>, s: set<Handle>)
    ensures |Keep(q, s)| <= |q|
  {
    if q != [] {
      KeepShorter(q[1..], s);
    }
  }
}
