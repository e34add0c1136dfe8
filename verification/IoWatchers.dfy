/** The interest of a loop in file descriptors: maybe_resize, uv__io_start and uv__io_stop of
    src/unix/core.c.  A mask is the set of its poll flags. */
module IoWatchers {
  import opened Basics
  import opened NextPower

  datatype Flag = In | Pri | Out | RdHup
  type Mask = set<Flag>

  class Watcher {
    const fd: int
    var events: Mask    // what the kernel was last asked for
    var pevents: Mask   // what is wanted

    constructor (fd: int)
      requires fd >= -1
      ensures this.fd == fd && events == {} && pevents == {}
    {
      this.fd := fd;
      events, pevents := {}, {};
    }
  }

  function Count(q: seq<Watcher?>): (n: nat) {
    if q == [] then 0 else (if q[0] == null then 0 else 1) + Count(q[1..])
  }

  lemma {:induction false} CountSet(q: seq<Watcher?>, i: nat, w: Watcher?)
    requires i < |q|
    ensures Count(q[i := w]) == Count(q) - (if q[i] == null then 0 else 1) + (if w == null then 0 else 1)
  {
    if i == 0 {
      assert q[i := w][1..] == q[1..];
    } else {
      assert q[i := w][1..] == q[1..][i - 1 := w];
      CountSet(q[1..], i - 1, w);
    }
  }

  lemma {:induction false} CountHas(q: seq<Watcher?>, i: nat)
    requires i < |q| && q[i] != null
    ensures Count(q) >= 1
  {
    if i > 0 {
      CountHas(q[1..], i - 1);
    }
  }

  function Nulls(n: nat): (q: seq<Watcher?>)
    ensures |q| == n && forall i :: 0 <= i < n ==> q[i] == null
  {
    if n == 0 then [] else [null] + Nulls(n - 1)
  }

  lemma {:induction false} CountPad(q: seq<Watcher?>, n: nat)
    ensures Count(q + Nulls(n)) == Count(q)
  {
    if q != [] {
      assert (q + Nulls(n))[1..] == q[1..] + Nulls(n);
      CountPad(q[1..], n);
    } else if n > 0 {
      assert q + Nulls(n) == Nulls(n) && q + Nulls(n - 1) == Nulls(n - 1);
      CountPad(q, n - 1);
    }
  }

  class IoLoop {
    var watchers: seq<Watcher?>   // loop->watchers[0 .. nwatchers)
    var nfds: int
    var queue: seq<Watcher>       // loop->watcher_queue
    ghost var known: set<Watcher>

    /** A watcher whose wanted mask is not the kernel's is queued, and one that wants nothing is not. */
    ghost predicate WatcherOk(w: Watcher)
      reads this`watchers, this`queue, w
    {
      if w.pevents == {} then w.events == {} && w !in queue
      else 0 <= w.fd < |watchers| && (w.pevents != w.events ==> w in queue)
    }

    ghost predicate SlotOk(i: int)
      requires 0 <= i < |watchers|
      reads this`watchers, this`known, known`pevents
    {
      var w := watchers[i];
      w != null ==> w in known && w.fd == i && w.pevents != {}
    }

    ghost predicate Valid()
      reads this, known
    {
      && nfds == Count(watchers) && |watchers| + 2 <= Power(WIDTH - 1)
      && (forall i :: 0 <= i < |watchers| ==> SlotOk(i))
      && NoDup(queue) && (forall w :: w in queue ==> w in known)
      && (forall w :: w in known ==> WatcherOk(w))
    }

    /** Every watcher that wants something holds the slot of its descriptor, as long as no two of them have the
        same one. */
    ghost predicate Exclusive()
      reads this`watchers, this`known, known`pevents
    {
      forall w :: w in known && w.pevents != {} ==> 0 <= w.fd < |watchers| && watchers[w.fd] == w
    }

    constructor ()
      ensures Valid() && Exclusive() && known == {} && queue == [] && watchers == []
    {
      watchers, nfds, queue, known := [], 0, [], {};
      new;
      PowerOfWord();
    }

    /** maybe_resize; false where it aborts because the allocation is empty. */
    method Resize(len: nat) returns (ok: bool)
      requires len < Power(WIDTH - 1) && |watchers| + 2 <= Power(WIDTH - 1)
      modifies this`watchers
      ensures ok <==> len + 2 <= Power(WIDTH - 1)
      ensures if ok then |watchers| >= len && old(watchers) <= watchers else watchers == old(watchers)
      ensures |watchers| + 2 <= Power(WIDTH - 1)
      ensures forall i :: |old(watchers)| <= i < |watchers| ==> watchers[i] == null
      ensures Count(watchers) == old(Count(watchers))
    {
      if len <= |watchers| {
        return true;
      }
      GrowsIff(len, WIDTH);
      var n := Slots(len, WIDTH);
      if PlusTwo(n, WIDTH) == 0 {
        return false;
      }
      CountPad(watchers, n - |watchers|);
      watchers := watchers + Nulls(n - |watchers|);
      ok := true;
    }

    /** The bookkeeping is right for every watcher but perhaps w. */
    ghost predicate ValidBut(w: Watcher)
      reads this, known
    {
      && nfds == Count(watchers) && |watchers| + 2 <= Power(WIDTH - 1)
      && (forall i :: 0 <= i < |watchers| ==> SlotOk(i))
      && NoDup(queue) && (forall v :: v in queue ==> v in known)
      && (forall v :: v in known && v != w ==> WatcherOk(v))
    }

    /** The first part of uv__io_start. */
    method Want(w: Watcher, events: Mask) returns (ok: bool)
      requires Valid() && w in known && events != {} && 0 <= w.fd && w.fd + 1 < Power(WIDTH - 1)
      modifies this`watchers, w`pevents
      ensures ok <==> w.fd + 3 <= Power(WIDTH - 1)
      ensures w.pevents == old(w.pevents) + events && w.pevents != {}
      ensures ok ==> ValidBut(w) && w.fd < |watchers| && old(watchers) <= watchers
      ensures ok ==> forall i :: |old(watchers)| <= i < |watchers| ==> watchers[i] == null
    {
      assert WatcherOk(w);
      w.pevents := w.pevents + events;
      assert events <= w.pevents;
      ok := Resize(w.fd + 1);
      if ok {
        forall i | 0 <= i < |watchers|
          ensures SlotOk(i)
        {
          assert i < |old(watchers)| ==> old(SlotOk(i));
        }
      }
    }

    /** uv__io_start; false where it aborts.  The slots stay exclusive unless the descriptor has another
        watcher. */
    method Start(w: Watcher, events: Mask) returns (ok: bool)
      requires Valid() && w in known && events != {} && 0 <= w.fd && w.fd + 1 < Power(WIDTH - 1)
      modifies this`watchers, this`nfds, this`queue, w`pevents
      ensures ok <==> w.fd + 3 <= Power(WIDTH - 1)
      ensures w.pevents == old(w.pevents) + events && (ok ==> Valid() && |watchers| >= |old(watchers)|)
      ensures ok ==> queue == if w.pevents == w.events || w in old(queue) then old(queue) else old(queue) + [w]
      ensures ok && old(Exclusive()) && old(w.fd < |watchers| ==> watchers[w.fd] == null || watchers[w.fd] == w) ==>
                Exclusive()
    {
      hide Count, Power, Nulls;
      assert WatcherOk(w);
      ok := Want(w, events);
      if !ok {
        return;
      }
      label Wanted:
      if w.events == w.pevents {
        return;
      }
      if w !in queue {
        NoDupSnoc(queue, w);
        queue := queue + [w];
      }
      if watchers[w.fd] == null {
        CountSet(watchers, w.fd, w);
        watchers := watchers[w.fd := w];
        nfds := nfds + 1;
      }
      forall i | 0 <= i < |watchers|
        ensures SlotOk(i)
      {
        assert old@Wanted(SlotOk(i));
      }
    }

    /** uv__io_stop */
    method Stop(w: Watcher, events: Mask)
      requires Valid() && w in known && events != {} && w.fd >= -1
      modifies this`watchers, this`nfds, this`queue, w`pevents, w`events
      ensures Valid() && w.pevents == old(w.pevents) - events && (old(Exclusive()) ==> Exclusive())
      ensures w.events == if w.pevents == {} then {} else old(w.events)
      ensures |watchers| == |old(watchers)|
      ensures w.pevents == {} ==> queue == Without(old(queue), w)
      ensures w.pevents != {} ==> queue == if w in old(queue) then old(queue) else old(queue) + [w]
    {
      hide Count, Power, Nulls, Without;
      WithoutFacts(queue, w);
      assert WatcherOk(w);
      if w.fd == -1 {
        return;
      }
      if w.fd >= |watchers| {
        return;
      }
      assert SlotOk(w.fd);
      w.pevents := w.pevents - events;
      if w.pevents == {} {
        queue := Without(queue, w);
        w.events := {};
        if w == watchers[w.fd] {
          CountSet(watchers, w.fd, null);
          assert nfds > 0;
          watchers := watchers[w.fd := null];
          nfds := nfds - 1;
        }
      } else if w !in queue {
        NoDupSnoc(queue, w);
        queue := queue + [w];
      }
      forall i | 0 <= i < |watchers|
        ensures SlotOk(i)
      {
        assert old(SlotOk(i));
      }
    }

    /** With no slot taken nothing is queued, so the poll that returns early then loses no change. */
    lemma IdleMeansNothingQueued()
      requires Valid() && Exclusive() && nfds == 0
      ensures queue == []
    {
      if queue != [] {
        var w := queue[0];
        assert WatcherOk(w);
        CountHas(watchers, w.fd);
      }
    }
  }
}
