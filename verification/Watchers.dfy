/** Walks over handle lists while callbacks change them, and prepare, check and idle handles of
    src/unix/loop-watcher.c on the rings of Rings. */
module Watchers {
  import opened Basics
  import Rings

  type Handle = nat

  const UV_EINVAL := -22

  // ----- lists

  /** The elements that are not in s, in order. */
  function Keep(q: seq<Handle>, s: set<Handle>): (r: seq<Handle>) {
    if q == [] then [] else if q[0] in s then Keep(q[1..], s) else [q[0]] + Keep(q[1..], s)
  }

  lemma {:induction false} WithoutAppend(q: seq<Handle>, r: seq<Handle>, h: Handle)
    requires h !in q
    ensures Without(q + r, h) == q + Without(r, h)
  {
    if q == [] {
      assert q + r == r;
    } else {
      assert (q + r)[1..] == q[1..] + r;
      WithoutAppend(q[1..], r, h);
    }
  }

  lemma {:induction false} KeepFacts(q: seq<Handle>, s: set<Handle>)
    requires NoDup(q)
    ensures NoDup(Keep(q, s)) && forall x :: x in Keep(q, s) <==> x in q && x !in s
    ensures s == {} ==> Keep(q, s) == q
  {
    if q != [] {
      assert q == [q[0]] + q[1..];
      NoDupAppend([q[0]], q[1..]);
      KeepFacts(q[1..], s);
      NoDupAppend([q[0]], Keep(q[1..], s));
    }
  }

  lemma {:induction false} KeepLess(q: seq<Handle>, s: set<Handle>, h: Handle)
    requires NoDup(q) && h !in s
    ensures Keep(q, s + {h}) == Without(Keep(q, s), h)
  {
    if q != [] {
      assert q == [q[0]] + q[1..];
      NoDupAppend([q[0]], q[1..]);
      if q[0] == h {
        KeepFacts(q[1..], s);
        KeepSame(q[1..], s, h);
        assert ([h] + Keep(q[1..], s))[1..] == Keep(q[1..], s);
      } else {
        KeepLess(q[1..], s, h);
        if q[0] !in s {
          assert ([q[0]] + Keep(q[1..], s))[1..] == Keep(q[1..], s);
        }
      }
    }
  }

  lemma {:induction false} KeepSame(q: seq<Handle>, s: set<Handle>, h: Handle)
    requires h !in q
    ensures Keep(q, s + {h}) == Keep(q, s)
  {
    if q != [] {
      KeepSame(q[1..], s, h);
    }
  }

  /** a stands before b. */
  predicate Before(q: seq<Handle>, a: Handle, b: Handle) {
    exists i, j :: 0 <= i < j < |q| && q[i] == a && q[j] == b
  }

  lemma {:induction false} KeepOrder(q: seq<Handle>, s: set<Handle>, i: int, j: int)
    requires 0 <= i < j < |Keep(q, s)|
    ensures Before(q, Keep(q, s)[i], Keep(q, s)[j])
  {
    var d := if q[0] in s then 0 else 1;
    var k := Keep(q[1..], s);
    assert forall n :: d <= n < |Keep(q, s)| ==> Keep(q, s)[n] == k[n - d];
    if i >= d {
      KeepOrder(q[1..], s, i - d, j - d);
      var m, n :| 0 <= m < n < |q[1..]| && q[1..][m] == Keep(q, s)[i] && q[1..][n] == Keep(q, s)[j];
      assert q[m + 1] == q[1..][m] && q[n + 1] == q[1..][n];
    } else {
      KeepIn(q[1..], s, j - d);
      var n :| 0 <= n < |q[1..]| && q[1..][n] == k[j - d];
      assert q[0] == Keep(q, s)[i] && q[n + 1] == Keep(q, s)[j];
    }
  }

  lemma {:induction false} KeepIn(q: seq<Handle>, s: set<Handle>, j: int)
    requires 0 <= j < |Keep(q, s)|
    ensures Keep(q, s)[j] in q
  {
    var d := if q[0] in s then 0 else 1;
    if j >= d {
      KeepIn(q[1..], s, j - d);
    }
  }

  // ----- prepare, check and idle handles

  /** What a callback does to handles of the kind that is walked.  A start says whether it gives a
      callback, or which watch descriptor the kernel returns for its path. */
  datatype Action = Start(h: Handle, callback: bool) | Watch(h: Handle, wd: nat) | Stop(h: Handle)

  /** A walk in progress: initial is the list it started from, visited the handles called back so far,
      early those that were stopped before their turn. */
  ghost predicate Walking(initial: seq<Handle>, visited: seq<Handle>, early: set<Handle>, queue: seq<Handle>) {
    NoDup(initial) && Keep(initial, early) == visited + queue
  }

  class LoopHandles {
    const rings: Rings.Pair        // loop->prepare_handles, or check or idle, and the local list of the walk
    ghost var handles: seq<Handle>
    ghost var queue: seq<Handle>
    var active: set<Handle>

    /** The handles of the two rings. */
    ghost predicate Linked()
      reads this`handles, this`queue, rings, rings.repr
    {
      rings.Valid() && this !in rings.repr && rings.first == handles && rings.second == queue
    }

    ghost predicate Valid()
      reads this, rings, rings.repr
    {
      Linked() && NoDup(handles + queue) && forall h :: h in active <==> h in handles + queue
    }

    constructor ()
      ensures Valid() && fresh(rings.repr) && handles == queue == []
    {
      rings := new Rings.Pair();
      handles, queue, active := [], [], {};
    }

    /** uv_prepare_start and its kind; a handle is initialised before its first start. */
    method StartHandle(h: Handle, callback: bool) returns (code: int)
      requires Valid()
      modifies this, rings.repr
      ensures Valid() && fresh(rings.repr - old(rings.repr)) && queue == old(queue)
      ensures code == if h !in old(active) && !callback then UV_EINVAL else 0
      ensures if h !in old(active) && callback then handles == [h] + old(handles) && active == old(active) + {h}
              else handles == old(handles) && active == old(active)
    {
      hide rings.Valid;
      if h in active {
        return 0;
      }
      if !callback {
        return UV_EINVAL;
      }
      NoDupCons(h, handles + queue);
      Associative([h], handles, queue);
      InsertHead(h);
      active := active + {h};
      return 0;
    }

    method InsertHead(h: Handle)
      requires Linked() && h !in handles + queue
      modifies this`handles, rings.repr
      ensures Linked() && fresh(rings.repr - old(rings.repr)) && handles == [h] + old(handles)
    {
      if h !in rings.linkOf {
        rings.Init(h);
      }
      rings.InsertHead(h);
      handles := [h] + handles;
    }

    method StopHandle(h: Handle)
      requires Valid()
      modifies this, rings.repr
      ensures Valid() && fresh(rings.repr - old(rings.repr)) && active == old(active) - {h}
      ensures handles == Without(old(handles), h) && queue == Without(old(queue), h)
    {
      hide rings.Valid;
      NoDupAppend(handles, queue);
      WithoutFacts(handles, h);
      WithoutFacts(queue, h);
      if h !in active {
        return;
      }
      rings.Remove(h);
      handles, queue := Without(handles, h), Without(queue, h);
      NoDupAppend(handles, queue);
      active := active - {h};
    }

    /** A callback. */
    method Perform(script: seq<Action>, ghost initial: seq<Handle>, ghost visited: seq<Handle>, ghost early: set<Handle>)
      returns (ghost early': set<Handle>)
      requires Valid() && Walking(initial, visited, early, queue)
      modifies this, rings.repr
      ensures Valid() && fresh(rings.repr - old(rings.repr))
      ensures Walking(initial, visited, early', queue) && |queue| <= |old(queue)|
      ensures early <= early' && forall h :: h in early' - early ==> Stop(h) in script && h in old(queue)
      ensures forall h :: h in queue ==> Stop(h) !in script && h in old(queue)
    {
      hide rings.Valid;
      early' := early;
      for k := 0 to |script|
        invariant Valid() && fresh(rings.repr - old(rings.repr))
        invariant Walking(initial, visited, early', queue) && |queue| <= |old(queue)|
        invariant early <= early' && forall h :: h in early' - early ==> Stop(h) in script && h in old(queue)
        invariant forall h :: h in queue ==> Stop(h) !in script[..k] && h in old(queue)
      {
        match script[k] {
          case Start(h, callback) =>
            var _ := StartHandle(h, callback);
          case Watch(_, _) =>
          case Stop(h) =>
            NoDupAppend(handles, queue);
            WithoutFacts(queue, h);
            if h in queue {
              StopWhileQueued(initial, visited, early', queue, h);
              early' := early' + {h};
            }
            StopHandle(h);
        }
        assert script[..k + 1] == script[..k] + [script[k]];
      }
      assert script[..|script|] == script;
    }

    /** One turn of the walk. */
    method Turn(scripts: seq<seq<Action>>, ghost initial: seq<Handle>, visited: seq<Handle>, ghost early: set<Handle>)
      returns (visited': seq<Handle>, ghost early': set<Handle>)
      requires Valid() && queue != [] && Walking(initial, visited, early, queue)
      requires History(initial, scripts, visited, early, queue)
      modifies this, rings.repr
      ensures Valid() && fresh(rings.repr - old(rings.repr))
      ensures |queue| < |old(queue)| && Walking(initial, visited', early', queue)
      ensures History(initial, scripts, visited', early', queue)
    {
      hide rings.Valid;
      var h := rings.Rotate();
      assert queue == [h] + queue[1..];
      assert handles + queue == (handles + [h]) + queue[1..];
      assert visited + queue == (visited + [h]) + queue[1..];
      queue, handles := queue[1..], handles + [h];
      visited' := visited + [h];
      ghost var waiting := queue;
      early' := Perform(if |visited| < |scripts| then scripts[|visited|] else [], initial, visited', early);
      HistoryStep(initial, scripts, visited, h, early, early', waiting, queue);
    }

    /** The list moves to the local one. */
    method Detach()
      requires Valid() && queue == []
      modifies this, rings.repr
      ensures Valid() && rings.repr == old(rings.repr) && queue == old(handles) && NoDup(queue)
    {
      assert handles + queue == handles == queue + handles;
      rings.Move();
      queue, handles := handles, [];
    }

    /** The loop over the local list. */
    method Walk(scripts: seq<seq<Action>>) returns (visited: seq<Handle>, ghost early: set<Handle>)
      requires Valid() && NoDup(queue)
      modifies this, rings.repr
      ensures Valid() && fresh(rings.repr - old(rings.repr)) && queue == [] && visited == Keep(old(queue), early)
      ensures History(old(queue), scripts, visited, early, [])
    {
      hide rings.Valid;
      ghost var initial := queue;
      visited, early := [], {};
      KeepFacts(initial, {});
      assert visited + queue == queue;
      var done := rings.Empty();
      while !done
        invariant Valid() && fresh(rings.repr - old(rings.repr)) && (done <==> queue == [])
        invariant Walking(initial, visited, early, queue) && History(initial, scripts, visited, early, queue)
        decreases |queue|, !done
      {
        visited, early := Turn(scripts, initial, visited, early);
        done := rings.Empty();
      }
      assert visited + queue == visited;
    }

    /** uv__run_prepare and its kind; scripts[k] is what the k-th callback does.  The handles called back
        are those of the list at the start, in order and once each, but for those stopped before their
        turn; nothing started during the walk is called back. */
    method Run(scripts: seq<seq<Action>>) returns (visited: seq<Handle>, ghost early: set<Handle>)
      requires Valid() && queue == []
      modifies this, rings.repr
      ensures Valid() && fresh(rings.repr - old(rings.repr)) && queue == [] && visited == Keep(old(handles), early)
      ensures forall h :: h in early ==> StoppedEarly(old(handles), scripts, visited, h)
      ensures forall i, k :: 0 <= k < i < |visited| && k < |scripts| ==> Stop(visited[i]) !in scripts[k]
    {
      Detach();
      visited, early := Walk(scripts);
    }
  }

  /** The scripts so far: what was stopped early was stopped by one of them, before its turn; they stopped
      nothing that was called back later or still waits. */
  ghost predicate History(initial: seq<Handle>, scripts: seq<seq<Action>>, visited: seq<Handle>, early: set<Handle>,
                          queue: seq<Handle>)
  {
    && (forall h :: h in early ==> StoppedEarly(initial, scripts, visited, h))
    && (forall i, k :: 0 <= k < i < |visited| && k < |scripts| ==> Stop(visited[i]) !in scripts[k])
    && (forall h, k :: h in queue && 0 <= k < |visited| && k < |scripts| ==> Stop(h) !in scripts[k])
  }

  ghost predicate StoppedEarly(initial: seq<Handle>, scripts: seq<seq<Action>>, visited: seq<Handle>, h: Handle) {
    exists k {:trigger StoppedBy(scripts, visited, k, h)} ::
      StoppedBy(scripts, visited, k, h) && Before(initial, visited[k], h)
  }

  lemma StoppedEarlier(initial: seq<Handle>, scripts: seq<seq<Action>>, visited: seq<Handle>, x: Handle, h: Handle)
    requires StoppedEarly(initial, scripts, visited, h)
    ensures StoppedEarly(initial, scripts, visited + [x], h)
  {
    var k :| StoppedBy(scripts, visited, k, h) && Before(initial, visited[k], h);
    assert StoppedBy(scripts, visited + [x], k, h) && (visited + [x])[k] == visited[k];
  }

  /** h is called back, its script stops early' - early of the waiting ones, and queue still waits. */
  lemma HistoryStep(initial: seq<Handle>, scripts: seq<seq<Action>>, visited: seq<Handle>, h: Handle,
                    early: set<Handle>, early': set<Handle>, waiting: seq<Handle>, queue: seq<Handle>)
    requires History(initial, scripts, visited, early, [h] + waiting)
    requires Walking(initial, visited + [h], early, waiting)
    requires var script := if |visited| < |scripts| then scripts[|visited|] else [];
             && (forall x :: x in early' - early ==> Stop(x) in script && x in waiting)
             && (forall x :: x in queue ==> Stop(x) !in script && x in waiting)
    ensures History(initial, scripts, visited + [h], early', queue)
  {
    var n := |visited|;
    var v := visited + [h];
    assert h in [h] + waiting && forall x :: x in waiting ==> x in [h] + waiting;
    forall x | x in early'
      ensures StoppedEarly(initial, scripts, v, x)
    {
      if x in early {
        StoppedEarlier(initial, scripts, visited, h, x);
      } else {
        assert x in early' - early;
        assert StoppedBy(scripts, v, n, x) && v[n] == h;
        var j :| 0 <= j < |waiting| && waiting[j] == x;
        assert Keep(initial, early)[n] == h && Keep(initial, early)[n + 1 + j] == x;
        KeepOrder(initial, early, n, n + 1 + j);
      }
    }
    forall x, k | x in queue && 0 <= k < |v| && k < |scripts|
      ensures Stop(x) !in scripts[k]
    {
      assert x in [h] + waiting;
    }
  }

  /** Callback k stopped h. */
  ghost predicate StoppedBy(scripts: seq<seq<Action>>, visited: seq<Handle>, k: int, h: Handle) {
    0 <= k < |visited| && k < |scripts| && Stop(h) in scripts[k]
  }

  lemma StopWhileQueued(initial: seq<Handle>, visited: seq<Handle>, early: set<Handle>, queue: seq<Handle>, h: Handle)
    requires Walking(initial, visited, early, queue) && h in queue
    ensures Walking(initial, visited, early + {h}, Without(queue, h)) && h !in early && h !in visited
  {
    KeepFacts(initial, early);
    NoDupAppend(visited, queue);
    assert h in Keep(initial, early);
    KeepLess(initial, early, h);
    WithoutAppend(visited, queue, h);
  }
}
