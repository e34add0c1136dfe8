/** The binary min heap of src/heap-inl.h: a linked complete binary tree.

    The ghost sequence `nodes` lists the tree level by level, so that the node at position n of
    the tree (the root is 1, the children of n are 2n and 2n + 1) is nodes[n - 1].  `Shape` ties
    every link of every node to that sequence. */
module Heap {
  import opened Basics

  class Node<K> {
    var left: Node?<K>
    var right: Node?<K>
    var parent: Node?<K>
    const key: K
    ghost var index: int  // the position in the list of the tree this node is in

    constructor (key: K)
      ensures this.key == key
    {
      this.key := key;
      left, right, parent := null, null, null;
    }
  }

  // ----- order, on the sequence of keys

  ghost predicate StrictWeakOrder<K(!new)>(less: (K, K) -> bool) {
    && (forall a, b :: less(a, b) ==> !less(b, a))
    && (forall a, b, c :: less(a, b) && less(b, c) ==> less(a, c))
    && (forall a, b, c :: !less(a, b) && !less(b, c) ==> !less(a, c))
  }

  function Up(c: int): int { (c - 1) / 2 }

  /** No key is less than its parent's. */
  ghost predicate Ordered<K>(less: (K, K) -> bool, k: seq<K>) {
    forall c :: 1 <= c < |k| ==> !less(k[c], k[Up(c)])
  }

  /** Ordered but for the edge from i to its parent. */
  ghost predicate OrderedAbove<K>(less: (K, K) -> bool, k: seq<K>, i: int) {
    && (forall c :: 1 <= c < |k| && c != i ==> !less(k[c], k[Up(c)]))
    && (forall c :: 1 <= c < |k| && Up(c) == i && 1 <= i ==> !less(k[c], k[Up(i)]))
  }

  /** Ordered but for the edges that touch i. */
  ghost predicate OrderedAround<K>(less: (K, K) -> bool, k: seq<K>, i: int) {
    && (forall c :: 1 <= c < |k| && c != i && Up(c) != i ==> !less(k[c], k[Up(c)]))
    && (forall c :: 1 <= c < |k| && Up(c) == i && 1 <= i < |k| ==> !less(k[c], k[Up(i)]))
  }

  function Swapped<T>(k: seq<T>, i: int, j: int): (r: seq<T>)
    requires 0 <= i < |k| && 0 <= j < |k|
    ensures |r| == |k|
  {
    k[i := k[j]][j := k[i]]
  }

  lemma SiftUp<K(!new)>(less: (K, K) -> bool, k: seq<K>, i: int)
    requires StrictWeakOrder(less) && 1 <= i < |k| && OrderedAbove(less, k, i)
    requires less(k[i], k[Up(i)])
    ensures OrderedAbove(less, Swapped(k, i, Up(i)), Up(i))
  {}

  lemma UpDone<K>(less: (K, K) -> bool, k: seq<K>, i: int)
    requires OrderedAbove(less, k, i) && 0 <= i < |k|
    requires i == 0 || !less(k[i], k[Up(i)])
    ensures Ordered(less, k)
  {}

  /** Child m is less than its parent i and not more than its sibling. */
  lemma SiftDown<K(!new)>(less: (K, K) -> bool, k: seq<K>, i: int, m: int)
    requires StrictWeakOrder(less) && 0 <= i < m < |k| && Up(m) == i && OrderedAround(less, k, i)
    requires less(k[m], k[i])
    requires forall c :: 1 <= c < |k| && Up(c) == i ==> !less(k[c], k[m])
    ensures OrderedAround(less, Swapped(k, i, m), m)
  {}

  lemma DownDone<K>(less: (K, K) -> bool, k: seq<K>, i: int)
    requires OrderedAround(less, k, i)
    requires forall c :: 1 <= c < |k| && Up(c) == i ==> !less(k[c], k[i])
    ensures OrderedAbove(less, k, i)
  {}

  /** Putting any key in the place of an element and dropping the last. */
  lemma ReplaceKeeps<K(!new)>(less: (K, K) -> bool, k: seq<K>, i: int, x: K)
    requires StrictWeakOrder(less) && Ordered(less, k) && 0 <= i < |k| - 1
    ensures OrderedAround(less, k[..|k| - 1][i := x], i)
  {}

  /** The root is a least element. */
  lemma {:induction false} RootIsLeast<K(!new)>(less: (K, K) -> bool, k: seq<K>, i: int)
    requires StrictWeakOrder(less) && Ordered(less, k) && 0 <= i < |k|
    ensures !less(k[i], k[0])
    decreases i
  {
    if i > 0 {
      assert !less(k[i], k[Up(i)]);
      RootIsLeast(less, k, Up(i));
    }
  }

  // ----- the path to a position

  /** Where the k low bits of path lead from position n. */
  function Walk(n: nat, path: nat, k: nat): nat
    decreases k
  {
    if k == 0 then n else Walk(2 * n + path % 2, path / 2, k - 1)
  }

  lemma {:induction false} WalkGoesDown(n: nat, path: nat, k: nat)
    requires n >= 1
    ensures Walk(n, path, k) >= n && (k > 0 ==> Walk(n, path, k) >= 2 * n + path % 2)
    decreases k
  {
    if k > 0 {
      WalkGoesDown(2 * n + path % 2, path / 2, k - 1);
    }
  }

  // ----- the linked tree

  function Nth<K>(nodes: seq<Node<K>>, i: int): Node?<K> {
    if 0 <= i < |nodes| then nodes[i] else null
  }

  /** The links of nodes[i] are those of position i + 1 of a complete binary tree. */
  ghost predicate LinkedAt<K>(nodes: seq<Node<K>>, i: int)
    requires 0 <= i < |nodes|
    reads nodes
  {
    nodes[i].index == i && LinksAt(nodes, i)
  }

  ghost predicate LinksAt<K>(nodes: seq<Node<K>>, i: int)
    requires 0 <= i < |nodes|
    reads nodes`left, nodes`right, nodes`parent
  {
    && nodes[i].left == Nth(nodes, 2 * i + 1)
    && nodes[i].right == Nth(nodes, 2 * i + 2)
    && nodes[i].parent == Nth(nodes, Up(i))
  }

  /** A position and its neighbours are linked. */
  ghost predicate Around<K>(nodes: seq<Node<K>>, i: int)
    requires 0 <= i < |nodes|
    reads nodes
  {
    && LinkedAt(nodes, i)
    && (i > 0 ==> LinkedAt(nodes, Up(i)))
    && (2 * i + 1 < |nodes| ==> LinkedAt(nodes, 2 * i + 1))
    && (2 * i + 2 < |nodes| ==> LinkedAt(nodes, 2 * i + 2))
  }

  /** Position j is linked as in a complete binary tree, but for the link to position q, which is x. */
  ghost predicate EditedAt<K>(nodes: seq<Node<K>>, q: int, x: Node?<K>, j: int)
    requires 0 <= j < |nodes|
    reads nodes
  {
    && nodes[j].index == j && nodes[j].parent == Nth(nodes, Up(j))
    && nodes[j].left == (if 2 * j + 1 == q then x else Nth(nodes, 2 * j + 1))
    && nodes[j].right == (if 2 * j + 2 == q then x else Nth(nodes, 2 * j + 2))
  }

  function Keys<K>(nodes: seq<Node<K>>): (r: seq<K>)
    ensures |r| == |nodes| && forall i :: 0 <= i < |r| ==> r[i] == nodes[i].key
  {
    seq(|nodes|, i requires 0 <= i < |nodes| => nodes[i].key)
  }

  class MinHeap<K(!new)> {
    var min: Node?<K>
    var nelts: nat
    ghost var nodes: seq<Node<K>>

    ghost predicate Shape()
      reads this, nodes
    {
      && nelts == |nodes| && min == Nth(nodes, 0)
      && forall i {:trigger LinkedAt(nodes, i)} :: 0 <= i < |nodes| ==> LinkedAt(nodes, i)
    }

    ghost predicate Valid(less: (K, K) -> bool)
      reads this, nodes
    {
      Shape() && Ordered(less, Keys(nodes))
    }

    constructor ()
      ensures Shape() && nodes == []
    {
      min, nelts, nodes := null, 0, [];
    }

    method SetParent(n: Node?<K>, p: Node<K>)
      modifies (if n == null then {} else {n})`parent
      ensures n != null ==> n.parent == p
    {
      if n != null {
        n.parent := p;
      }
    }

    /** The first half of heap_node_swap: parent and child exchange their links. */
    method Exchange(parent: Node<K>, child: Node<K>) returns (sibling: Node?<K>)
      requires parent != child && child.parent == parent && (parent.left == child || parent.right == child)
      requires parent.left != parent.right
      modifies parent`left, parent`right, parent`parent, child`left, child`right, child`parent
      ensures parent.left == old(child.left) && parent.right == old(child.right) && parent.parent == child
      ensures child.left == if old(parent.left) == child then parent else old(parent.left)
      ensures child.right == if old(parent.right) == child then parent else old(parent.right)
      ensures child.parent == old(parent.parent)
      ensures sibling == if old(parent.left) == child then old(parent.right) else old(parent.left)
    {
      var tl, tr, tp := parent.left, parent.right, parent.parent;
      parent.left, parent.right, parent.parent := child.left, child.right, child.parent;
      child.left, child.right, child.parent := tl, tr, tp;
      parent.parent := child;
      if child.left == child {
        child.left := parent;
        sibling := child.right;
      } else {
        child.right := parent;
        sibling := child.left;
      }
    }

    /** The last part of heap_node_swap: what pointed at parent points at child. */
    method Hook(parent: Node<K>, child: Node<K>)
      requires child.parent != null ==> child.parent.left == parent || child.parent.right == parent
      modifies this`min, (if child.parent == null then {} else {child.parent})`left,
               (if child.parent == null then {} else {child.parent})`right
      ensures min == if child.parent == null then child else old(min)
      ensures child.parent != null ==>
                if old(child.parent.left) == parent
                then child.parent.left == child && child.parent.right == old(child.parent.right)
                else child.parent.right == child && child.parent.left == old(child.parent.left)
    {
      if child.parent == null {
        min := child;
      } else if child.parent.left == parent {
        child.parent.left := child;
      } else {
        child.parent.right := child;
      }
    }

    /** heap_node_swap on the links alone; all is the set of nodes of the tree. */
    method SwapLinks(parent: Node<K>, child: Node<K>, ghost all: set<Node<K>>)
      requires parent in all && child in all && parent != child && child.parent == parent
      requires parent.left != parent.right && (parent.left == child || parent.right == child)
      requires forall x :: x in {parent.left, parent.right, parent.parent, child.left, child.right} ==>
                             x == null || (x in all && x != parent)
      requires child !in {parent.parent, child.left, child.right}
      requires parent.parent != null ==> parent.parent.left == parent || parent.parent.right == parent
      modifies this`min, all`left, all`right, all`parent
      ensures min == if old(parent.parent) == null then child else old(min)
      ensures parent.left == old(child.left) && parent.right == old(child.right) && parent.parent == child
      ensures child.left == if old(parent.left) == child then parent else old(parent.left)
      ensures child.right == if old(parent.right) == child then parent else old(parent.right)
      ensures child.parent == old(parent.parent)
      ensures forall x {:trigger x.left} :: x in all && x != parent && x != child ==>
                x.left == if x == old(parent.parent) && old(x.left) == parent then child else old(x.left)
      ensures forall x {:trigger x.right} :: x in all && x != parent && x != child ==>
                x.right == if x == old(parent.parent) && old(x.left) != parent then child else old(x.right)
      ensures forall x {:trigger x.parent} :: x in all && x != parent && x != child ==>
                x.parent == if x == old(child.left) || x == old(child.right) then parent
                            else if x == old(parent.left) || x == old(parent.right) then child else old(x.parent)
    {
      var sibling := Exchange(parent, child);
      SetParent(sibling, child);
      SetParent(parent.left, parent);
      SetParent(parent.right, parent);
      Hook(parent, child);
    }

    /** heap_node_swap: the child takes the parent's place and the parent the child's. */
    method Swap(parent: Node<K>, child: Node<K>, ghost i: int, ghost c: int)
      requires Shape() && 0 <= i < c < |nodes| && Up(c) == i && nodes[i] == parent && nodes[c] == child
      modifies this`min, this`nodes, nodes`left, nodes`right, nodes`parent, nodes`index
      ensures Shape() && nodes == Swapped(old(nodes), i, c)
    {
      ghost var o := nodes;
      SwapPositions(parent, child, i, c);
      parent.index, child.index := c, i;
      nodes := Swapped(o, i, c);
      forall j | 0 <= j < |o|
        ensures LinkedAt(nodes, j)
      {
        assert LinksAt(nodes, j);
      }
    }

    method SwapPositions(parent: Node<K>, child: Node<K>, ghost i: int, ghost c: int)
      requires Shape() && 0 <= i < c < |nodes| && Up(c) == i && nodes[i] == parent && nodes[c] == child
      modifies this`min, nodes`left, nodes`right, nodes`parent
      ensures min == Nth(Swapped(nodes, i, c), 0)
      ensures forall j :: 0 <= j < |nodes| ==> LinksAt(Swapped(nodes, i, c), j)
      ensures forall j :: 0 <= j < |nodes| ==> nodes[j].index == j
    {
      ghost var was := Snapshot(nodes);
      SnapshotLinked();
      SwapReady(parent, child, i, c);
      SwapLinks(parent, child, was.Keys);
      SwappedLinks(nodes, was, i, c);
    }

    /** What heap_node_swap finds. */
    lemma SwapReady(parent: Node<K>, child: Node<K>, i: int, c: int)
      requires Shape() && 0 <= i < c < |nodes| && Up(c) == i && nodes[i] == parent && nodes[c] == child
      ensures child.parent == parent && parent.left != parent.right && (parent.left == child || parent.right == child)
      ensures forall x :: x in {parent.left, parent.right, parent.parent, child.left, child.right} ==>
                            x == null || (x in nodes && x != parent)
      ensures child !in {parent.parent, child.left, child.right}
      ensures parent.parent != null ==> parent.parent.left == parent || parent.parent.right == parent
    {
      assert Around(nodes, i) && Around(nodes, c);
    }

    lemma SnapshotLinked()
      requires Shape()
      ensures WasLinked(nodes, Snapshot(nodes))
    {
      forall j | 0 <= j < |nodes|
        ensures WasAt(nodes, Snapshot(nodes), j)
      {
        assert LinkedAt(nodes, j);
      }
    }

    // ----- slots: the `struct heap_node**` cursors

    method Load(slot: Slot<K>) returns (n: Node?<K>)
      ensures n == SlotValue(slot)
    {
      match slot
      case Root => n := min;
      case LeftOf(x) => n := x.left;
      case RightOf(x) => n := x.right;
    }

    ghost function SlotValue(slot: Slot<K>): Node?<K>
      reads this, if slot.Root? then {} else {slot.node}
    {
      match slot
      case Root => min
      case LeftOf(x) => x.left
      case RightOf(x) => x.right
    }

    /** The slot that holds the node at index q, or would hold it. */
    ghost predicate IsSlot(slot: Slot<K>, q: int)
      reads this
    {
      if q == 0 then slot == Root
      else 0 <= Up(q) < |nodes| && slot == if q % 2 == 1 then LeftOf(nodes[Up(q)]) else RightOf(nodes[Up(q)])
    }

    lemma SlotHolds(slot: Slot<K>, q: int)
      requires Shape() && q >= 0 && IsSlot(slot, q)
      ensures SlotValue(slot) == Nth(nodes, q)
    {
      if q > 0 {
        assert LinkedAt(nodes, Up(q));
      }
    }

    method Store(slot: Slot<K>, n: Node?<K>)
      modifies this`min, (if slot.Root? then {} else {slot.node})`left, (if slot.Root? then {} else {slot.node})`right
      ensures SlotValue(slot) == n
      ensures !slot.Root? ==> min == old(min)
      ensures slot.LeftOf? ==> slot.node.right == old(slot.node.right)
      ensures slot.RightOf? ==> slot.node.left == old(slot.node.left)
    {
      match slot
      case Root => min := n;
      case LeftOf(x) => x.left := n;
      case RightOf(x) => x.right := n;
    }

    /** The slot below the node at position p, to the right or the left. */
    method Below(slot: Slot<K>, right: bool, ghost p: int) returns (next: Slot<K>)
      requires Shape() && 1 <= p <= nelts && IsSlot(slot, p - 1)
      ensures IsSlot(next, if right then 2 * p else 2 * p - 1)
    {
      SlotHolds(slot, p - 1);
      var at := Load(slot);
      assert Up(2 * p) == Up(2 * p - 1) == p - 1;
      next := if right then RightOf(at) else LeftOf(at);
    }

    /** Both walks of the source: from the root along the bits of n to the slot of position n, and
        the slot before it. */
    method Descend(n: nat) returns (parent: Slot<K>, slot: Slot<K>)
      requires Shape() && 1 <= n <= nelts + 1
      ensures IsSlot(slot, n - 1)
      ensures if n == 1 then parent == Root else IsSlot(parent, n / 2 - 1)
    {
      var path, k := PathTo(n);
      parent, slot := Root, Root;
      ghost var p := 1;
      while k > 0
        invariant 1 <= p && Walk(p, path, k) == n && IsSlot(slot, p - 1)
        invariant if p == 1 then parent == Root else IsSlot(parent, p / 2 - 1)
        decreases k
      {
        WalkGoesDown(p, path, k);
        parent := slot;
        slot := Below(slot, path % 2 == 1, p);
        p := 2 * p + path % 2;
        path := path / 2;
        k := k - 1;
      }
    }

    // ----- insertion

    method FindFree() returns (above: Node?<K>, slot: Slot<K>)
      requires Shape()
      ensures above == Nth(nodes, Up(nelts)) && IsSlot(slot, nelts)
    {
      var parent;
      parent, slot := Descend(1 + nelts);
      if nelts > 0 {
        SlotHolds(parent, Up(nelts));
      }
      above := Load(parent);
    }

    /** Links the new node below the node before it on the path. */
    method Attach(newnode: Node<K>)
      requires Shape() && newnode !in nodes
      modifies this`min, nodes`left, nodes`right, newnode
      ensures newnode.left == null && newnode.right == null && newnode.parent == Nth(nodes, Up(nelts))
      ensures min == if nelts == 0 then newnode else old(min)
      ensures forall j {:trigger EditedAt(nodes, nelts, newnode, j)} ::
                0 <= j < |nodes| ==> EditedAt(nodes, nelts, newnode, j)
    {
      newnode.left, newnode.right, newnode.parent := null, null, null;
      var above, slot := FindFree();
      newnode.parent := above;
      ghost var g := Up(nelts);
      assert g >= 0 ==> LinkedAt(nodes, g);
      Store(slot, newnode);
      forall j | 0 <= j < |nodes|
        ensures EditedAt(nodes, nelts, newnode, j)
      {
        assert old(LinkedAt(nodes, j));
        assert g >= 0 && j != g ==> nodes[j] != nodes[g];
      }
    }

    /** The new node at the end of the last row. */
    method Append(newnode: Node<K>)
      requires Shape() && newnode !in nodes
      modifies this, nodes`left, nodes`right, newnode
      ensures Shape() && nodes == old(nodes) + [newnode]
    {
      ghost var o := nodes;
      Attach(newnode);
      newnode.index := nelts;
      nelts := nelts + 1;
      nodes := nodes + [newnode];
      forall j | 0 <= j < |nodes|
        ensures LinkedAt(nodes, j)
      {
        if j < |o| {
          assert EditedAt(o, |o|, newnode, j);
        }
      }
    }

    method StepUp(n: Node<K>, less: (K, K) -> bool, ghost i: int, ghost all: set<Node<K>>)
      requires Shape() && StrictWeakOrder(less) && 0 <= i < |nodes| && nodes[i] == n
      requires OrderedAbove(less, Keys(nodes), i)
      requires n.parent != null && less(n.key, n.parent.key)
      requires forall x :: x in nodes ==> x in all
      modifies this`min, this`nodes, all`left, all`right, all`parent, all`index
      ensures forall x :: x in nodes ==> x in all
      ensures Shape() && |nodes| == old(|nodes|) && 0 <= Up(i) < |nodes| && nodes[Up(i)] == n
      ensures multiset(nodes) == old(multiset(nodes))
      ensures OrderedAbove(less, Keys(nodes), Up(i))
    {
      assert LinkedAt(nodes, i);
      SiftUp(less, Keys(nodes), i);
      SwapFacts(nodes, Up(i), i);
      Swap(n.parent, n, Up(i), i);
      SameNodes(nodes, old(nodes));
    }

    /** The loop that walks up from index i. */
    method WalkUp(n: Node<K>, less: (K, K) -> bool, ghost i0: int, ghost all: set<Node<K>>)
      requires Shape() && StrictWeakOrder(less)
      requires 0 <= i0 < |nodes| && nodes[i0] == n && OrderedAbove(less, Keys(nodes), i0)
      requires forall x :: x in nodes ==> x in all
      modifies this`min, this`nodes, all`left, all`right, all`parent, all`index
      ensures Valid(less) && multiset(nodes) == old(multiset(nodes)) && |nodes| == old(|nodes|)
    {
      ghost var i := i0;
      while n.parent != null && less(n.key, n.parent.key)
        invariant forall x :: x in nodes ==> x in all
        invariant Shape() && 0 <= i < |nodes| && nodes[i] == n
        invariant OrderedAbove(less, Keys(nodes), i)
        invariant multiset(nodes) == old(multiset(nodes)) && |nodes| == old(|nodes|)
        decreases i
      {
        StepUp(n, less, i, all);
        i := Up(i);
      }
      assert LinkedAt(nodes, i);
      UpDone(less, Keys(nodes), i);
    }

    /** heap_insert: adds exactly the new node and keeps the order. */
    method Insert(newnode: Node<K>, less: (K, K) -> bool)
      requires Valid(less) && StrictWeakOrder(less) && newnode !in nodes
      modifies this, nodes`left, nodes`right, nodes`parent, nodes`index, newnode
      ensures Valid(less) && multiset(nodes) == old(multiset(nodes)) + multiset{newnode}
    {
      Append(newnode);
      AppendedKeys(old(nodes), newnode, less);
      WalkUp(newnode, less, |nodes| - 1, (set x | x in old(nodes)) + {newnode});
    }

    // ----- removal

    method FindLast() returns (slot: Slot<K>)
      requires Shape() && nodes != []
      ensures IsSlot(slot, nelts - 1) && SlotValue(slot) == nodes[nelts - 1]
    {
      var _, s := Descend(nelts);
      slot := s;
      SlotHolds(slot, nelts - 1);
    }

    /** Clears the slot of the last node of the last row. */
    method CutLast() returns (last: Node<K>)
      requires Shape() && nodes != []
      modifies this`min, nodes`left, nodes`right
      ensures last == nodes[nelts - 1] && min == if nelts == 1 then null else nodes[0]
      ensures forall j {:trigger EditedAt(nodes, nelts - 1, null, j)} ::
                0 <= j < |nodes| ==> EditedAt(nodes, nelts - 1, null, j)
    {
      var slot := FindLast();
      ghost var g := Up(nelts - 1);
      assert g >= 0 ==> LinkedAt(nodes, g);
      last := Load(slot);
      Store(slot, null);
      ghost var q := nelts - 1;
      forall j | 0 <= j < |nodes|
        ensures EditedAt(nodes, q, null, j)
      {
        assert old(LinkedAt(nodes, j));
        assert g >= 0 && j != g ==> nodes[j] != nodes[g];
      }
    }

    /** Unlinks the last node of the last row. */
    method Detach() returns (last: Node<K>)
      requires Shape() && nodes != []
      modifies this, nodes`left, nodes`right
      ensures Shape() && nodes == old(nodes)[..|old(nodes)| - 1] && last == old(nodes)[|old(nodes)| - 1]
      ensures last !in nodes
    {
      ghost var o := nodes;
      last := CutLast();
      nelts := nelts - 1;
      nodes := nodes[..nelts];
      assert EditedAt(o, nelts, null, nelts);
      forall j | 0 <= j < |nodes|
        ensures LinkedAt(nodes, j) && nodes[j] != last
      {
        assert EditedAt(o, nelts, null, j);
      }
    }

    /** Puts child in the place of node. */
    method Replace(node: Node<K>, child: Node<K>, ghost i: int)
      requires Shape() && 0 <= i < |nodes| && nodes[i] == node && child !in nodes
      modifies this`min, this`nodes, nodes`left, nodes`right, nodes`parent
      modifies child`left, child`right, child`parent, child`index
      ensures Shape() && nodes == old(nodes)[i := child]
    {
      ghost var o := nodes;
      ReplacePosition(node, child, i);
      child.index := i;
      nodes := o[i := child];
      forall j | 0 <= j < |o|
        ensures LinkedAt(nodes, j)
      {
        assert LinksAt(nodes, j);
      }
    }

    method ReplacePosition(node: Node<K>, child: Node<K>, ghost i: int)
      requires Shape() && 0 <= i < |nodes| && nodes[i] == node && child !in nodes
      modifies this`min, nodes`left, nodes`right, nodes`parent, child`left, child`right, child`parent
      ensures min == Nth(nodes[i := child], 0)
      ensures forall j {:trigger LinksAt(nodes[i := child], j)} :: 0 <= j < |nodes| ==> LinksAt(nodes[i := child], j)
      ensures forall j :: 0 <= j < |nodes| ==> nodes[j].index == j
    {
      assert Around(nodes, i);
      ghost var was := Snapshot(nodes);
      SnapshotLinked();
      ReplaceLinks(node, child, was.Keys);
      ReplacedLinks(nodes, was, i, child, nodes[i := child]);
    }

    /** The links of node are copied to child, and what pointed at node points at child. */
    method ReplaceLinks(node: Node<K>, child: Node<K>, ghost all: set<Node<K>>)
      requires node in all && child !in all
      requires forall x :: x in {node.left, node.right, node.parent} ==> x == null || (x in all && x != node)
      requires node.parent != null ==> node.parent.left == node || node.parent.right == node
      modifies this`min, all`left, all`right, all`parent, child`left, child`right, child`parent
      ensures min == if old(node.parent) == null then child else old(min)
      ensures child.left == old(node.left) && child.right == old(node.right) && child.parent == old(node.parent)
      ensures forall x {:trigger x.left} :: x in all && x != node ==>
                x.left == if x == old(node.parent) && old(x.left) == node then child else old(x.left)
      ensures forall x {:trigger x.right} :: x in all && x != node ==>
                x.right == if x == old(node.parent) && old(x.left) != node then child else old(x.right)
      ensures forall x {:trigger x.parent} :: x in all && x != node ==>
                x.parent == if x == old(node.left) || x == old(node.right) then child else old(x.parent)
    {
      child.left, child.right, child.parent := node.left, node.right, node.parent;
      SetParent(child.left, child);
      SetParent(child.right, child);
      ReplaceInParent(node, child);
    }

    method ReplaceInParent(node: Node<K>, child: Node<K>)
      requires node.parent != null ==> node.parent.left == node || node.parent.right == node
      modifies this`min, (if node.parent == null then {} else {node.parent})`left,
               (if node.parent == null then {} else {node.parent})`right
      ensures min == if node.parent == null then child else old(min)
      ensures node.parent != null ==>
                if old(node.parent.left) == node
                then node.parent.left == child && node.parent.right == old(node.parent.right)
                else node.parent.right == child && node.parent.left == old(node.parent.left)
    {
      if node.parent == null {
        min := child;
      } else if node.parent.left == node {
        node.parent.left := child;
      } else {
        node.parent.right := child;
      }
    }

    /** The smallest of a node and its children. */
    method Smallest(child: Node<K>, less: (K, K) -> bool, ghost i: int) returns (smallest: Node<K>, ghost m: int)
      requires Shape() && StrictWeakOrder(less) && 0 <= i < |nodes| && nodes[i] == child
      ensures 0 <= m < |nodes| && nodes[m] == smallest && (m == i || Up(m) == i < m)
      ensures m != i ==> less(nodes[m].key, nodes[i].key)
      ensures forall c :: 1 <= c < |nodes| && Up(c) == i ==> !less(Keys(nodes)[c], Keys(nodes)[m])
    {
      assert LinkedAt(nodes, i);
      smallest, m := child, i;
      if child.left != null && less(child.left.key, smallest.key) {
        smallest, m := child.left, 2 * i + 1;
      }
      if child.right != null && less(child.right.key, smallest.key) {
        smallest, m := child.right, 2 * i + 2;
      }
      forall c | 1 <= c < |nodes| && Up(c) == i
        ensures !less(Keys(nodes)[c], Keys(nodes)[m])
      {
        assert c == 2 * i + 1 || c == 2 * i + 2;
      }
    }

    /** The loop that walks down from index i; it ends where only the edge above may be wrong. */
    method WalkDown(child: Node<K>, less: (K, K) -> bool, ghost i0: int, ghost all: set<Node<K>>)
      returns (ghost i: int)
      requires Shape() && StrictWeakOrder(less) && 0 <= i0 < |nodes| && nodes[i0] == child
      requires OrderedAround(less, Keys(nodes), i0)
      requires forall x :: x in nodes ==> x in all
      modifies this`min, this`nodes, all`left, all`right, all`parent, all`index
      ensures forall x :: x in nodes ==> x in all
      ensures Shape() && |nodes| == old(|nodes|) && 0 <= i < |nodes| && nodes[i] == child
      ensures multiset(nodes) == old(multiset(nodes)) && OrderedAbove(less, Keys(nodes), i)
    {
      i := i0;
      while true
        invariant forall x :: x in nodes ==> x in all
        invariant Shape() && |nodes| == old(|nodes|) && 0 <= i < |nodes| && nodes[i] == child
        invariant multiset(nodes) == old(multiset(nodes)) && OrderedAround(less, Keys(nodes), i)
        decreases |nodes| - i
      {
        var smallest;
        ghost var m;
        smallest, m := Smallest(child, less, i);
        if smallest == child {
          break;
        }
        StepDown(child, smallest, less, i, m, all);
        i := m;
      }
      DownDone(less, Keys(nodes), i);
    }

    method StepDown(child: Node<K>, smallest: Node<K>, less: (K, K) -> bool, ghost i: int, ghost m: int,
                    ghost all: set<Node<K>>)
      requires Shape() && StrictWeakOrder(less) && 0 <= i < m < |nodes| && Up(m) == i
      requires nodes[i] == child && nodes[m] == smallest && less(smallest.key, child.key)
      requires forall c :: 1 <= c < |nodes| && Up(c) == i ==> !less(Keys(nodes)[c], Keys(nodes)[m])
      requires OrderedAround(less, Keys(nodes), i)
      requires forall x :: x in nodes ==> x in all
      modifies this`min, this`nodes, all`left, all`right, all`parent, all`index
      ensures forall x :: x in nodes ==> x in all
      ensures Shape() && |nodes| == old(|nodes|) && nodes[m] == child
      ensures multiset(nodes) == old(multiset(nodes)) && OrderedAround(less, Keys(nodes), m)
    {
      SiftDown(less, Keys(nodes), i, m);
      SwapFacts(nodes, i, m);
      Swap(child, smallest, i, m);
      SameNodes(nodes, old(nodes));
    }

    /** The two walks of heap_remove from index i0: only the edges at i0 may be wrong before. */
    method Settle(child: Node<K>, less: (K, K) -> bool, ghost i0: int, ghost all: set<Node<K>>)
      requires Shape() && StrictWeakOrder(less) && 0 <= i0 < |nodes| && nodes[i0] == child
      requires OrderedAround(less, Keys(nodes), i0)
      requires forall x :: x in nodes ==> x in all
      modifies this`min, this`nodes, all`left, all`right, all`parent, all`index
      ensures Valid(less) && multiset(nodes) == old(multiset(nodes))
    {
      ghost var i := WalkDown(child, less, i0, all);
      WalkUp(child, less, i, all);
    }

    /** The last node takes the place of the removed one and settles. */
    method Refill(node: Node<K>, child: Node<K>, less: (K, K) -> bool, ghost i: int, ghost all: set<Node<K>>)
      requires Shape() && StrictWeakOrder(less) && 0 <= i < |nodes| && nodes[i] == node && child !in nodes
      requires OrderedAround(less, Keys(nodes[i := child]), i)
      requires child in all && forall x :: x in nodes ==> x in all
      modifies this`min, this`nodes, all`left, all`right, all`parent, all`index
      ensures Valid(less) && multiset(nodes) == multiset(old(nodes)[i := child])
    {
      Replace(node, child, i);
      Settle(child, less, i, all);
    }

    /** heap_remove: takes exactly the given node out and keeps the order. */
    method Remove(node: Node<K>, less: (K, K) -> bool)
      requires Valid(less) && StrictWeakOrder(less) && (nelts > 0 ==> node in nodes)
      modifies this, nodes`left, nodes`right, nodes`parent, nodes`index
      ensures Valid(less) && multiset(nodes) == old(multiset(nodes)) - multiset{node}
    {
      if nelts == 0 {
        return;
      }
      ghost var o := nodes;
      ghost var all := set x | x in nodes;
      ghost var i := Index(node);
      var child := Detach();
      Dropped(o, i, less);
      if child == node {
        // The source clears min here when it is still this node; Detach has done so already.
        assert min != child;
        return;
      }
      Refill(node, child, less, i, all);
    }

    /** heap_dequeue: takes out a least element. */
    method Dequeue(less: (K, K) -> bool)
      requires Valid(less) && StrictWeakOrder(less)
      modifies this, nodes`left, nodes`right, nodes`parent, nodes`index
      ensures Valid(less)
      ensures old(min) == null ==> old(nodes) == [] == nodes
      ensures old(min) != null ==>
                && multiset(nodes) == old(multiset(nodes)) - multiset{old(min)}
                && forall x :: x in old(nodes) ==> !less(x.key, old(min).key)
    {
      MinIsLeast(less);
      if min != null {
        Remove(min, less);
      }
    }

    /** min is null exactly for the empty heap, and else a least element. */
    lemma MinIsLeast(less: (K, K) -> bool)
      requires Valid(less) && StrictWeakOrder(less)
      ensures min == null <==> nodes == []
      ensures min != null ==> min in nodes && forall x :: x in nodes ==> !less(x.key, min.key)
    {
      forall x | x in nodes
        ensures !less(x.key, nodes[0].key)
      {
        RootIsLeast(less, Keys(nodes), Index(x));
      }
    }

    /** No node is in the tree twice. */
    lemma NodesOnce()
      requires Shape()
      ensures NoDup(nodes)
    {
      forall i, j | 0 <= i < j < |nodes|
        ensures nodes[i] != nodes[j]
      {
        assert LinkedAt(nodes, i) && LinkedAt(nodes, j);
      }
    }

    ghost function Index(node: Node<K>): (i: int)
      requires node in nodes
      reads this
      ensures 0 <= i < |nodes| && nodes[i] == node
    {
      var i :| 0 <= i < |nodes| && nodes[i] == node;
      i
    }
  }

  /** Dropping the last node, or moving it to the place of the node at index i. */
  lemma Dropped<K(!new)>(o: seq<Node<K>>, i: int, less: (K, K) -> bool)
    requires StrictWeakOrder(less) && Ordered(less, Keys(o)) && 0 <= i < |o|
    ensures Ordered(less, Keys(o[..|o| - 1]))
    ensures i == |o| - 1 ==> multiset(o[..|o| - 1]) == multiset(o) - multiset{o[i]}
    ensures i < |o| - 1 ==>
              && OrderedAround(less, Keys(o[..|o| - 1][i := o[|o| - 1]]), i)
              && multiset(o[..|o| - 1][i := o[|o| - 1]]) == multiset(o) - multiset{o[i]}
  {
    var n := |o| - 1;
    var last := o[n];
    assert o == o[..n] + [last];
    forall c | 1 <= c < n
      ensures !less(Keys(o[..n])[c], Keys(o[..n])[Up(c)])
    {
      assert !less(Keys(o)[c], Keys(o)[Up(c)]);
    }
    if i < n {
      ReplaceKeeps(less, Keys(o), i, last.key);
      assert Keys(o[..n][i := last]) == Keys(o)[..n][i := last.key];
    }
  }

  lemma SameNodes<K>(a: seq<Node<K>>, b: seq<Node<K>>)
    requires multiset(a) == multiset(b)
    ensures forall x :: x in a <==> x in b
  {
    assert forall x :: x in a <==> x in multiset(a);
    assert forall x :: x in b <==> x in multiset(b);
  }

  lemma SwapFacts<K>(o: seq<Node<K>>, i: int, c: int)
    requires 0 <= i < c < |o|
    ensures Keys(Swapped(o, i, c)) == Swapped(Keys(o), i, c) == Swapped(Keys(o), c, i)
    ensures multiset(Swapped(o, i, c)) == multiset(o)
  {}

  lemma AppendedKeys<K>(o: seq<Node<K>>, n: Node<K>, less: (K, K) -> bool)
    requires Ordered(less, Keys(o))
    ensures OrderedAbove(less, Keys(o + [n]), |o|)
  {}

  /** A `struct heap_node**`: the address of heap->min or of a link of a node. */
  datatype Slot<!K> = Root | LeftOf(node: Node<K>) | RightOf(node: Node<K>)

  lemma Halves(path: nat, n: nat)
    ensures (2 * path + n % 2 + 1) * (n / 2) <= (path + 1) * n
  {
    var h, b := n / 2, n % 2;
    assert (path + 1) * (2 * h + b) == 2 * path * h + 2 * h + (path + 1) * b;
    assert (2 * path + b + 1) * h == 2 * path * h + h + b * h;
  }

  /** The bits of n below the leading one, last bit first: the path from the root to position n. */
  method PathTo(n0: nat) returns (path: nat, k: nat)
    requires n0 >= 1
    ensures Walk(1, path, k) == n0
    ensures path < n0  // it fits where n0 does
  {
    path, k := 0, 0;
    var n := n0;
    while n >= 2
      invariant n >= 1 && Walk(n, path, k) == n0 && (path + 1) * n <= n0
    {
      Halves(path, n);
      path := 2 * path + n % 2;
      k := k + 1;
      n := n / 2;
    }
  }

  ghost function Snapshot<K>(o: seq<Node<K>>): (was: map<Node<K>, Links<K>>)
    reads o
    ensures was.Keys == set x | x in o
  {
    map x | x in o :: Links(x.left, x.right, x.parent)
  }

  // ----- what swapping the links does to the positions

  datatype Links<!K> = Links(left: Node?<K>, right: Node?<K>, parent: Node?<K>)

  /** The links after heap_node_swap, in terms of those before. */
  ghost predicate LinksSwapped<K>(was: map<Node<K>, Links<K>>, parent: Node<K>, child: Node<K>)
    requires parent in was && child in was
    reads was.Keys
  {
    && parent.left == was[child].left && parent.right == was[child].right && parent.parent == child
    && child.left == (if was[parent].left == child then parent else was[parent].left)
    && child.right == (if was[parent].right == child then parent else was[parent].right)
    && child.parent == was[parent].parent
    && (forall x {:trigger x.left} :: x in was.Keys && x != parent && x != child ==>
          x.left == if x == was[parent].parent && was[x].left == parent then child else was[x].left)
    && (forall x {:trigger x.right} :: x in was.Keys && x != parent && x != child ==>
          x.right == if x == was[parent].parent && was[x].left != parent then child else was[x].right)
    && (forall x {:trigger x.parent} :: x in was.Keys && x != parent && x != child ==>
          x.parent == if x == was[child].left || x == was[child].right then parent
                      else if x == was[parent].left || x == was[parent].right then child else was[x].parent)
  }

  /** The links after Replace, in terms of those before. */
  ghost predicate LinksReplaced<K>(was: map<Node<K>, Links<K>>, node: Node<K>, child: Node<K>)
    requires node in was
    reads was.Keys, child
  {
    && child.left == was[node].left && child.right == was[node].right && child.parent == was[node].parent
    && (forall x {:trigger x.left} :: x in was.Keys && x != node ==>
          x.left == if x == was[node].parent && was[x].left == node then child else was[x].left)
    && (forall x {:trigger x.right} :: x in was.Keys && x != node ==>
          x.right == if x == was[node].parent && was[x].left != node then child else was[x].right)
    && (forall x {:trigger x.parent} :: x in was.Keys && x != node ==>
          x.parent == if x == was[node].left || x == was[node].right then child else was[x].parent)
  }

  lemma ReplacedLeft<K>(o: seq<Node<K>>, was: map<Node<K>, Links<K>>, i: int, child: Node<K>, j: int)
    requires 0 <= i < |o| && 0 <= j < |o| && WasAround(o, was, i) && WasAround(o, was, j)
    requires LinksReplaced(was, o[i], child)
    ensures o[i := child][j].left == Nth(o[i := child], 2 * j + 1)
  {}

  lemma ReplacedRight<K>(o: seq<Node<K>>, was: map<Node<K>, Links<K>>, i: int, child: Node<K>, j: int)
    requires 0 <= i < |o| && 0 <= j < |o| && WasAround(o, was, i) && WasAround(o, was, j)
    requires LinksReplaced(was, o[i], child)
    ensures o[i := child][j].right == Nth(o[i := child], 2 * j + 2)
  {}

  lemma ReplacedParent<K>(o: seq<Node<K>>, was: map<Node<K>, Links<K>>, i: int, child: Node<K>, j: int)
    requires 0 <= i < |o| && 0 <= j < |o| && WasAround(o, was, i) && WasAround(o, was, j)
    requires LinksReplaced(was, o[i], child)
    ensures o[i := child][j].parent == Nth(o[i := child], Up(j))
  {}

  lemma ReplacedLinks<K>(o: seq<Node<K>>, was: map<Node<K>, Links<K>>, i: int, child: Node<K>, r: seq<Node<K>>)
    requires WasLinked(o, was) && 0 <= i < |o| && WasAt(o, was, i) && LinksReplaced(was, o[i], child)
    requires r == o[i := child]
    ensures forall j {:trigger LinksAt(r, j)} :: 0 <= j < |o| ==> LinksAt(r, j)
    ensures forall j :: 0 <= j < |o| ==> o[j].index == j
  {
    forall j | 0 <= j < |o|
      ensures o[j].index == j && LinksAt(r, j)
    {
      assert WasAround(o, was, i) && WasAround(o, was, j);
      ReplacedLeft(o, was, i, child, j);
      ReplacedRight(o, was, i, child, j);
      ReplacedParent(o, was, i, child, j);
    }
  }

  /** The snapshot of position j is that of a complete binary tree. */
  ghost predicate WasAt<K>(o: seq<Node<K>>, was: map<Node<K>, Links<K>>, j: int)
    requires 0 <= j < |o|
    reads o`index
  {
    && o[j].index == j && o[j] in was
    && was[o[j]] == Links(Nth(o, 2 * j + 1), Nth(o, 2 * j + 2), Nth(o, Up(j)))
  }

  ghost predicate WasLinked<K>(o: seq<Node<K>>, was: map<Node<K>, Links<K>>)
    reads o`index
  {
    forall j {:trigger WasAt(o, was, j)} :: 0 <= j < |o| ==> WasAt(o, was, j)
  }

  ghost predicate WasAround<K>(o: seq<Node<K>>, was: map<Node<K>, Links<K>>, j: int)
    requires 0 <= j < |o|
    reads o`index
  {
    && WasAt(o, was, j) && (j > 0 ==> WasAt(o, was, Up(j)))
    && (2 * j + 1 < |o| ==> WasAt(o, was, 2 * j + 1))
    && (2 * j + 2 < |o| ==> WasAt(o, was, 2 * j + 2))
  }

  lemma SwappedAt<T>(o: seq<T>, i: int, c: int, j: int)
    requires 0 <= i < c < |o| && 0 <= j < |o|
    ensures Swapped(o, i, c)[j] == if j == i then o[c] else if j == c then o[i] else o[j]
  {}

  lemma SwappedLeft<K>(o: seq<Node<K>>, was: map<Node<K>, Links<K>>, i: int, c: int, j: int)
    requires 0 <= i < c < |o| && Up(c) == i && 0 <= j < |o|
    requires WasAround(o, was, i) && WasAround(o, was, c) && WasAround(o, was, j) && LinksSwapped(was, o[i], o[c])
    ensures Swapped(o, i, c)[j].left == Nth(Swapped(o, i, c), 2 * j + 1)
  {}

  lemma SwappedRight<K>(o: seq<Node<K>>, was: map<Node<K>, Links<K>>, i: int, c: int, j: int)
    requires 0 <= i < c < |o| && Up(c) == i && 0 <= j < |o|
    requires WasAround(o, was, i) && WasAround(o, was, c) && WasAround(o, was, j) && LinksSwapped(was, o[i], o[c])
    ensures Swapped(o, i, c)[j].right == Nth(Swapped(o, i, c), 2 * j + 2)
  {}

  lemma SwappedParent<K>(o: seq<Node<K>>, was: map<Node<K>, Links<K>>, i: int, c: int, j: int)
    requires 0 <= i < c < |o| && Up(c) == i && 0 <= j < |o|
    requires WasAround(o, was, i) && WasAround(o, was, c) && WasAround(o, was, j) && LinksSwapped(was, o[i], o[c])
    ensures Swapped(o, i, c)[j].parent == Nth(Swapped(o, i, c), Up(j))
  {
    hide Swapped;
    SwappedAt(o, i, c, j);
    if j > 0 {
      SwappedAt(o, i, c, Up(j));
    }
    if j == i {
      assert Up(i) != c;
    } else if j != c {
      OtherParent(o, was, i, c, j);
    }
  }

  lemma OtherParent<K>(o: seq<Node<K>>, was: map<Node<K>, Links<K>>, i: int, c: int, j: int)
    requires 0 <= i < c < |o| && Up(c) == i && 0 <= j < |o| && j != i && j != c
    requires WasAround(o, was, i) && WasAround(o, was, c) && WasAround(o, was, j) && LinksSwapped(was, o[i], o[c])
    ensures o[j].parent == if j > 0 && Up(j) == c then o[i] else if j > 0 && Up(j) == i then o[c] else Nth(o, Up(j))
  {
    assert o[j] != o[i] && o[j] != o[c];
  }

  lemma SwappedLinks<K>(o: seq<Node<K>>, was: map<Node<K>, Links<K>>, i: int, c: int)
    requires WasLinked(o, was) && 0 <= i < c < |o| && Up(c) == i
    requires WasAt(o, was, i) && WasAt(o, was, c) && LinksSwapped(was, o[i], o[c])
    ensures forall j :: 0 <= j < |o| ==> LinksAt(Swapped(o, i, c), j)
    ensures forall j :: 0 <= j < |o| ==> o[j].index == j
  {
    forall j | 0 <= j < |o|
      ensures o[j].index == j && LinksAt(Swapped(o, i, c), j)
    {
      assert WasAround(o, was, i) && WasAround(o, was, c) && WasAround(o, was, j);
      SwappedLeft(o, was, i, c, j);
      SwappedRight(o, was, i, c, j);
      SwappedParent(o, was, i, c, j);
    }
  }
}
