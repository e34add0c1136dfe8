/** The heap of timers in src/timer.c: the linked tree of Heap, whose nodes are embedded in the handles. */
module TimerHeap {
  import opened Basics
  import opened Heap
  import opened Watchers

  /** What timer_less_than looks at, and the handle that container_of finds. */
  datatype Key = Key(timeout: uint64, startId: nat, handle: Handle)

  /** timer_less_than */
  predicate Less(a: Key, b: Key) {
    if a.timeout < b.timeout then true
    else if b.timeout < a.timeout then false
    else a.startId < b.startId
  }

  lemma TimerOrder()
    ensures StrictWeakOrder(Less)
  {}

  /** Each handle in the heap has its node there. */
  ghost predicate Embedded(nodeOf: map<Handle, Node<Key>>, nodes: seq<Node<Key>>) {
    && (forall h :: h in nodeOf ==> nodeOf[h] in nodes && nodeOf[h].key.handle == h)
    && (forall n :: n in nodes ==> n.key.handle in nodeOf && nodeOf[n.key.handle] == n)
  }

  /** The keys of the handles in the heap. */
  ghost function KeysOf(nodeOf: map<Handle, Node<Key>>): map<Handle, Key> {
    map h | h in nodeOf :: nodeOf[h].key
  }

  lemma EmbedOne(nodeOf: map<Handle, Node<Key>>, nodes: seq<Node<Key>>, nodes': seq<Node<Key>>, n: Node<Key>)
    requires Embedded(nodeOf, nodes) && multiset(nodes') == multiset(nodes) + multiset{n}
    requires n.key.handle !in nodeOf
    ensures Embedded(nodeOf[n.key.handle := n], nodes')
  {
    OneMore(nodes, nodes', n);
  }

  lemma TakeOne(nodeOf: map<Handle, Node<Key>>, nodes: seq<Node<Key>>, nodes': seq<Node<Key>>, h: Handle)
    requires Embedded(nodeOf, nodes) && h in nodeOf && NoDup(nodes)
    requires multiset(nodes') == multiset(nodes) - multiset{nodeOf[h]}
    ensures Embedded(nodeOf - {h}, nodes')
  {
    OneLess(nodes, nodes', nodeOf[h]);
  }

  lemma KeysWith(nodeOf: map<Handle, Node<Key>>, n: Node<Key>)
    ensures KeysOf(nodeOf[n.key.handle := n]) == KeysOf(nodeOf)[n.key.handle := n.key]
  {}

  lemma KeysWithout(nodeOf: map<Handle, Node<Key>>, h: Handle)
    ensures KeysOf(nodeOf - {h}) == KeysOf(nodeOf) - {h}
  {}

  class Tree {
    const heap: MinHeap<Key>
    var nodeOf: map<Handle, Node<Key>>   // the nodes of the handles in the heap
    ghost var repr: set<object>

    ghost predicate Valid()
      reads this, repr
    {
      && heap in repr && repr == {this, heap} + (set x | x in heap.nodes)
      && heap.Valid(Less) && Embedded(nodeOf, heap.nodes)
    }

    ghost function Keys(): map<Handle, Key>
      reads this`nodeOf
    {
      KeysOf(nodeOf)
    }

    constructor ()
      ensures Valid() && fresh(repr) && Keys() == map[]
    {
      heap := new MinHeap();
      nodeOf := map[];
      new;
      repr := {this, heap};
    }

    method Insert(key: Key)
      requires Valid() && key.handle !in nodeOf
      modifies repr
      ensures Valid() && fresh(repr - old(repr)) && Keys() == old(Keys())[key.handle := key]
    {
      TimerOrder();
      var node := new Node(key);
      ghost var before := heap.nodes;
      heap.Insert(node, Less);
      EmbedOne(nodeOf, before, heap.nodes, node);
      OneMore(before, heap.nodes, node);
      KeysWith(nodeOf, node);
      nodeOf := nodeOf[key.handle := node];
      repr := {this, heap} + (set x | x in heap.nodes);
    }

    method Remove(h: Handle)
      requires Valid() && h in nodeOf
      modifies repr
      ensures Valid() && repr <= old(repr) && Keys() == old(Keys()) - {h}
    {
      TimerOrder();
      heap.NodesOnce();
      ghost var before := heap.nodes;
      heap.Remove(nodeOf[h], Less);
      TakeOne(nodeOf, before, heap.nodes, h);
      OneLess(before, heap.nodes, nodeOf[h]);
      KeysWithout(nodeOf, h);
      nodeOf := nodeOf - {h};
      repr := {this, heap} + (set x | x in heap.nodes);
    }

    /** The handle at the root, of which there is one unless the heap is empty. */
    method Min() returns (h: Option<Handle>)
      requires Valid()
      ensures h.None? <==> Keys() == map[]
      ensures h.Some? ==> h.value in Keys() && forall g :: g in Keys() ==> !Less(Keys()[g], Keys()[h.value])
    {
      TimerOrder();
      heap.MinIsLeast(Less);
      if heap.min == null {
        assert forall g :: g !in nodeOf;
        return None;
      }
      h := Some(heap.min.key.handle);
    }
  }
}
