/** The watcher lists of inotify in src/unix/linux.c: one list a watch descriptor, freed with its last
    handle but not while it is walked. */
module Inotify {
  import opened Basics
  import opened Watchers

  class Lists {
    var lists: map<nat, seq<Handle>>   // the tree of watcher_list and their watchers
    var iterating: int                 // the descriptor whose list has its flag set, or -1
    var queue: seq<Handle>             // the local list of the walk
    var at: map<Handle, nat>           // the active handles and their wd

    ghost predicate ListOk(wd: nat)
      requires wd in lists
      reads this`lists, this`at, this`iterating
    {
      && NoDup(lists[wd]) && (forall h :: h in lists[wd] ==> h in at && at[h] == wd)
      && (wd != iterating ==> lists[wd] != [])
    }

    ghost predicate Waiting(h: Handle)
      reads this`lists, this`at, this`iterating
    {
      h in at && at[h] == iterating && at[h] in lists && h !in lists[at[h]]
    }

    /** Every list in the tree has a handle or is walked, a walked list is in the tree, and an active handle
        is in the list of its descriptor or waits in the walk of that list. */
    ghost predicate Valid()
      reads this
    {
      && (iterating == -1 || iterating in lists) && (iterating == -1 ==> queue == [])
      && (forall wd :: wd in lists ==> ListOk(wd))
      && NoDup(queue) && (forall h :: h in queue ==> Waiting(h))
      && (forall h :: h in at ==> at[h] in lists && (h in lists[at[h]] || h in queue))
    }

    constructor ()
      ensures Valid() && iterating == -1 && lists == map[]
    {
      lists, iterating, queue, at := map[], -1, [], map[];
    }

    /** Valid, but the list of wd may be empty although it is not walked. */
    ghost predicate ValidBut(wd: nat)
      reads this
    {
      && (iterating == -1 || iterating in lists) && (iterating == -1 ==> queue == [])
      && (forall v :: v in lists ==> NoDup(lists[v]) && forall g :: g in lists[v] ==> g in at && at[g] == v)
      && (forall v :: v in lists && v != wd && v != iterating ==> lists[v] != [])
      && NoDup(queue) && (forall h :: h in queue ==> Waiting(h))
      && (forall h :: h in at ==> at[h] in lists && (h in lists[at[h]] || h in queue))
    }

    /** maybe_free_watcher_list: no empty list stays behind but the walked one, and no list is freed that an
        active handle or the walk needs. */
    method MaybeFree(wd: nat)
      requires ValidBut(wd) && wd in lists
      modifies this`lists
      ensures Valid() && lists - {wd} == old(lists) - {wd}
      ensures wd in lists <==> wd == iterating || exists h :: h in at && at[h] == wd
      ensures wd in lists ==> lists[wd] == old(lists)[wd]
    {
      assert forall h :: h in queue ==> Waiting(h);
      if wd != iterating && lists[wd] == [] {
        lists := lists - {wd};
      } else if wd != iterating {
        assert lists[wd][0] in lists[wd];
      }
      forall v | v in lists
        ensures ListOk(v)
      {}
      forall h | h in queue
        ensures Waiting(h)
      {
        assert old(Waiting(h));
      }
    }

    /** uv_fs_event_start, for the watch descriptor that the kernel returns. */
    method StartHandle(h: Handle, wd: nat) returns (code: int)
      requires Valid()
      modifies this`lists, this`at
      ensures Valid()
      ensures if h in old(at) then code == UV_EINVAL && lists == old(lists) && at == old(at)
              else code == 0 && at == old(at)[h := wd]
                   && lists == old(lists)[wd := (if wd in old(lists) then old(lists)[wd] else []) + [h]]
    {
      if h in at {
        return UV_EINVAL;
      }
      var list := if wd in lists then lists[wd] else [];
      assert wd in lists ==> ListOk(wd);
      assert h !in list && forall v :: v in queue ==> Waiting(v) && v != h;
      NoDupAppend(list, [h]);
      lists := lists[wd := list + [h]];
      at := at[h := wd];
      forall v | v in lists
        ensures ListOk(v)
      {
        assert v in old(lists) ==> old(ListOk(v));
      }
      forall g | g in queue
        ensures Waiting(g)
      {
        assert old(Waiting(g));
      }
      return 0;
    }

    /** The list of wd loses h. */
    method Unlink(h: Handle)
      requires Valid() && h in at
      modifies this`lists, this`at, this`queue
      ensures at == old(at) - {h} && lists == old(lists)[old(at)[h] := Without(old(lists)[old(at)[h]], h)]
      ensures queue == Without(old(queue), h)
      ensures ValidBut(old(at)[h])
    {
      hide Without;
      var wd := at[h];
      assert ListOk(wd);
      WithoutFacts(lists[wd], h);
      WithoutFacts(queue, h);
      at := at - {h};
      lists, queue := lists[wd := Without(lists[wd], h)], Without(queue, h);
      forall v | v in lists
        ensures NoDup(lists[v]) && forall g :: g in lists[v] ==> g in at && at[g] == v
      {
        assert old(ListOk(v));
      }
      forall g | g in queue
        ensures Waiting(g)
      {
        assert old(Waiting(g));
      }
    }

    /** uv_fs_event_stop */
    method StopHandle(h: Handle)
      requires Valid()
      modifies this`lists, this`at, this`queue
      ensures Valid() && at == old(at) - {h} && queue == Without(old(queue), h)
    {
      hide Without;
      WithoutFacts(queue, h);
      if h !in at {
        assert forall g :: g in queue ==> Waiting(g);
        return;
      }
      var wd := at[h];
      Unlink(h);
      MaybeFree(wd);
    }

    /** A callback; the walked list stays in the tree whatever it does. */
    method Perform(script: seq<Action>, ghost initial: seq<Handle>, ghost visited: seq<Handle>, ghost early: set<Handle>)
      returns (ghost early': set<Handle>)
      requires Valid() && Walking(initial, visited, early, queue)
      modifies this`lists, this`at, this`queue
      ensures Valid() && Walking(initial, visited, early', queue) && |queue| <= |old(queue)|
      ensures early <= early' && forall h :: h in early' - early ==> Stop(h) in script && h in old(queue)
      ensures forall h :: h in queue ==> Stop(h) !in script && h in old(queue)
    {
      early' := early;
      for k := 0 to |script|
        invariant Valid() && Walking(initial, visited, early', queue) && |queue| <= |old(queue)|
        invariant early <= early' && forall h :: h in early' - early ==> Stop(h) in script && h in old(queue)
        invariant forall h :: h in queue ==> Stop(h) !in script[..k] && h in old(queue)
      {
        assert script[..k + 1] == script[..k] + [script[k]];
        match script[k] {
          case Start(_, _) =>
          case Watch(h, wd) =>
            var _ := StartHandle(h, wd);
          case Stop(h) =>
            WithoutFacts(queue, h);
            if h in queue {
              StopWhileQueued(initial, visited, early', queue, h);
              early' := early' + {h};
            }
            StopHandle(h);
        }
      }
      assert script[..|script|] == script;
    }

    /** One turn of the walk. */
    method Turn(scripts: seq<seq<Action>>, ghost initial: seq<Handle>, visited: seq<Handle>, ghost early: set<Handle>)
      returns (visited': seq<Handle>, ghost early': set<Handle>)
      requires Valid() && queue != [] && Walking(initial, visited, early, queue)
      requires History(initial, scripts, visited, early, queue)
      modifies this`lists, this`at, this`queue
      ensures Valid() && |queue| < |old(queue)| && Walking(initial, visited', early', queue)
      ensures History(initial, scripts, visited', early', queue)
    {
      var h := queue[0];
      assert queue == [h] + queue[1..];
      assert visited + queue == (visited + [h]) + queue[1..];
      Rotate(h);
      visited' := visited + [h];
      ghost var waiting := queue;
      early' := Perform(if |visited| < |scripts| then scripts[|visited|] else [], initial, visited', early);
      HistoryStep(initial, scripts, visited, h, early, early', waiting, queue);
    }

    /** The head of the local list goes back to the tail of the watcher list. */
    method Rotate(h: Handle)
      requires Valid() && queue != [] && h == queue[0]
      modifies this`lists, this`queue
      ensures Valid() && queue == old(queue)[1..]
    {
      assert Waiting(h) && ListOk(iterating);
      assert queue == [h] + queue[1..];
      NoDupAppend([h], queue[1..]);
      NoDupAppend(lists[iterating], [h]);
      queue := queue[1..];
      lists := lists[iterating := lists[iterating] + [h]];
      forall v | v in lists
        ensures ListOk(v)
      {
        assert old(ListOk(v));
      }
      forall g | g in queue
        ensures Waiting(g)
      {
        assert old(Waiting(g));
      }
    }

    /** One event of uv__inotify_read.  A stale descriptor is ignored.  Otherwise the handles called back are
        those of the list, in order and once each, but for those stopped before their turn; the list is in
        the tree until the walk is over and then stays exactly if it has a handle. */
    method Dispatch(wd: nat, scripts: seq<seq<Action>>) returns (visited: seq<Handle>, ghost early: set<Handle>)
      requires Valid() && iterating == -1
      modifies this
      ensures Valid() && iterating == -1
      ensures wd !in old(lists) ==> visited == [] && lists == old(lists) && at == old(at)
      ensures wd in old(lists) ==>
                && visited == Keep(old(lists)[wd], early)
                && forall h :: h in early ==> StoppedEarly(old(lists)[wd], scripts, visited, h)
      ensures forall i, k :: 0 <= k < i < |visited| && k < |scripts| ==> Stop(visited[i]) !in scripts[k]
    {
      visited, early := [], {};
      if wd !in lists {
        return;
      }
      ghost var initial := lists[wd];
      Detach(wd);
      KeepFacts(initial, {});
      assert visited + queue == queue;
      while queue != []
        invariant Valid() && iterating == wd && Walking(initial, visited, early, queue)
        invariant History(initial, scripts, visited, early, queue)
        decreases |queue|
      {
        visited, early := Turn(scripts, initial, visited, early);
      }
      assert visited + queue == visited;
      Release(wd);
    }

    /** Before the walk: the flag is set and the handles move to the local list. */
    method Detach(wd: nat)
      requires Valid() && iterating == -1 && wd in lists
      modifies this`lists, this`queue, this`iterating
      ensures Valid() && iterating == wd && queue == old(lists)[wd] && NoDup(queue)
    {
      assert ListOk(wd);
      iterating, queue := wd, lists[wd];
      lists := lists[wd := []];
      forall v | v in lists
        ensures ListOk(v)
      {
        assert old(ListOk(v));
      }
    }

    /** After the walk. */
    method Release(wd: nat)
      requires Valid() && iterating == wd && queue == []
      modifies this`lists, this`iterating
      ensures Valid() && iterating == -1
    {
      iterating := -1;
      forall v | v in lists
        ensures NoDup(lists[v]) && forall g :: g in lists[v] ==> g in at && at[g] == v
        ensures v != wd ==> lists[v] != []
      {
        assert old(ListOk(v));
      }
      MaybeFree(wd);
    }
  }
}
