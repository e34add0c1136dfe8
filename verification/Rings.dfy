/** The list of a loop's handles of one kind and the local list of a walk over it, as in src/unix/loop-watcher.c:
    two rings of Queue whose links are embedded in the handles. */
module Rings {
  import opened Basics
  import Queue

  type Handle = nat
  type Link = Queue.Link

  /** The handles of a list of links. */
  function Data(q: seq<Link>): (r: seq<Handle>)
    ensures |r| == |q| && forall i :: 0 <= i < |q| ==> r[i] == q[i].data
  {
    seq(|q|, i requires 0 <= i < |q| => q[i].data)
  }

  /** The links of a ring behind its head are those of their handles. */
  ghost predicate Embedded(linkOf: map<Handle, Link>, r: seq<Link>) {
    forall i :: 1 <= i < |r| ==> r[i].data in linkOf && linkOf[r[i].data] == r[i]
  }

  ghost predicate Disjoint(a: seq<Link>, b: seq<Link>) {
    forall i, j :: 0 <= i < |a| && 0 <= j < |b| ==> a[i] != b[j]
  }

  ghost predicate Within(r: seq<Link>, repr: set<object>) {
    forall i :: 0 <= i < |r| ==> r[i] in repr
  }

  /** A ring none of whose links has been touched. */
  twostate lemma Kept(r: seq<Link>)
    requires old(Queue.IsRing(r)) && forall i :: 0 <= i < |r| ==> unchanged(r[i])
    ensures Queue.IsRing(r)
  {
    forall i | 0 <= i < |r|
      ensures Queue.LinkedAt(r, i)
    {
      assert old(Queue.LinkedAt(r, i));
    }
  }

  lemma {:induction false} WithoutAt(q: seq<Handle>, i: nat)
    requires NoDup(q) && i < |q|
    ensures Without(q, q[i]) == q[..i] + q[i + 1..]
  {
    if i == 0 {
      assert q[..0] + q[1..] == q[1..];
    } else {
      NoDupTail(q);
      hide NoDup;
      var t := q[1..];
      assert t[i - 1] == q[i] && q[i] in t;
      WithoutAt(t, i - 1);
      Associative([q[0]], t[..i - 1], t[i..]);
      assert q[..i] == [q[0]] + t[..i - 1] && t[i..] == q[i + 1..];
    }
  }

  ghost function Position(q: seq<Handle>, h: Handle): (i: nat)
    requires h in q
    ensures i < |q| && q[i] == h
  {
    if q[0] == h then 0 else 1 + Position(q[1..], h)
  }

  /** A ring without its i-th link. */
  function Cut(r: seq<Link>, i: nat): (s: seq<Link>)
    requires 1 <= i < |r|
    ensures |s| == |r| - 1 && forall j :: 0 <= j < |s| ==> s[j] == if j < i then r[j] else r[j + 1]
  {
    r[..i] + r[i + 1..]
  }

  lemma CutData(r: seq<Link>, i: nat)
    requires 1 <= i < |r| && NoDup(Data(r[1..]))
    ensures Data(Cut(r, i)[1..]) == Without(Data(r[1..]), r[i].data)
  {
    var q := Data(r[1..]);
    assert q[i - 1] == r[i].data;
    WithoutAt(q, i - 1);
    hide Without, NoDup;
    assert Data(Cut(r, i)[1..]) == q[..i - 1] + q[i..];
  }

  /** The two rings and the handles in them. */
  ghost predicate Listed(linkOf: map<Handle, Link>, head: Link, local: Link, a: seq<Link>, b: seq<Link>,
                         first: seq<Handle>, second: seq<Handle>)
  {
    && a != [] && a[0] == head && b != [] && b[0] == local && Disjoint(a, b)
    && Embedded(linkOf, a) && Embedded(linkOf, b)
    && first == Data(a[1..]) && second == Data(b[1..]) && NoDup(first + second)
  }

  class Pair {
    const head: Link                    // loop->prepare_handles, or check or idle
    const local: Link                   // the local queue of uv__run_prepare and its kind
    var linkOf: map<Handle, Link>       // handle->queue
    ghost var a: seq<Link>              // the two rings from their heads
    ghost var b: seq<Link>
    ghost var first: seq<Handle>        // the handles behind the heads
    ghost var second: seq<Handle>
    ghost var repr: set<object>

    ghost predicate Owned()
      reads this`linkOf, this`repr
    {
      && head in repr && local in repr
      && forall h :: h in linkOf ==> linkOf[h] in repr && linkOf[h].data == h && linkOf[h] != head && linkOf[h] != local
    }

    ghost predicate Valid()
      reads this, repr
    {
      && this in repr && Owned() && Listed(linkOf, head, local, a, b, first, second) && Within(a, repr) && Within(b, repr)
      && Queue.IsRing(a) && Queue.IsRing(b)
    }

    constructor ()
      ensures Valid() && fresh(repr) && first == second == [] && linkOf == map[]
    {
      head := new Queue.Link(0);
      local := new Queue.Link(0);
      linkOf, first, second := map[], [], [];
      new;
      repr, a, b := {this, head, local}, [head], [local];
      assert Queue.LinkedAt([head], 0) && Queue.LinkedAt([local], 0);
    }

    /** A new handle, in no list. */
    method Init(h: Handle)
      requires Valid() && h !in linkOf
      modifies this
      ensures Valid() && fresh(repr - old(repr)) && first == old(first) && second == old(second)
      ensures linkOf.Keys == old(linkOf.Keys) + {h}
    {
      hide Queue.LinkedAt;
      var link := new Queue.Link(h);
      linkOf := linkOf[h := link];
      repr := repr + {link};
    }

    /** uv__queue_empty on the local list */
    method Empty() returns (empty: bool)
      requires Valid()
      ensures empty <==> second == []
    {
      empty := Queue.Empty(local, b);
    }

    /** uv__queue_insert_head of a handle in no list */
    method InsertHead(h: Handle)
      requires Valid() && h in linkOf && h !in first + second
      modifies repr
      ensures Valid() && repr == old(repr) && linkOf == old(linkOf)
      ensures first == [h] + old(first) && second == old(second)
    {
      hide Queue.IsRing;
      ghost var x := linkOf[h];
      FreeLink(h);
      NoDupCons(h, first + second);
      Associative([h], first, second);
      Queue.InsertHead(head, linkOf[h], a);
      Kept(b);
      a := [head, x] + a[1..];
      first := [h] + first;
      assert first == Data(a[1..]);
    }

    /** The link of a handle in no list is in no ring. */
    lemma FreeLink(h: Handle)
      requires Valid() && h in linkOf && h !in first + second
      ensures linkOf[h] !in a && linkOf[h] !in b
    {
      hide Queue.IsRing;
      assert forall i :: 0 <= i < |first| ==> first[i] in first + second;
      assert forall i :: 0 <= i < |second| ==> second[i] in first + second;
    }

    /** uv__queue_remove, from whichever list the handle is in */
    method Remove(h: Handle)
      requires Valid() && h in first + second
      modifies repr
      ensures Valid() && repr == old(repr) && linkOf == old(linkOf)
      ensures first == Without(old(first), h) && second == Without(old(second), h)
    {
      hide Queue.IsRing, Cut, Without, Disjoint, Listed, Owned;
      ghost var here, i := TakenOut(h);
      ghost var a', b' := if here then Cut(a, i) else a, if here then b else Cut(b, i);
      Take(linkOf[h], here, i, a', b');
      a, b, first, second := a', b', Without(first, h), Without(second, h);
    }

    /** The links are taken out of one ring, and the other stays. */
    method Take(q: Link, ghost here: bool, ghost i: nat, ghost a': seq<Link>, ghost b': seq<Link>)
      requires Queue.IsRing(a) && Queue.IsRing(b) && Disjoint(a, b)
      requires var r := if here then a else b; 1 <= i < |r| && r[i] == q
      requires a' == (if here then Cut(a, i) else a) && b' == if here then b else Cut(b, i)
      modifies a`next, a`prev, b`next, b`prev
      ensures Queue.IsRing(a') && Queue.IsRing(b')
    {
      hide Queue.IsRing;
      ghost var r, other := if here then a else b, if here then b else a;
      assert forall k :: 0 <= k < |other| ==> other[k] !in r;
      Queue.Remove(q, r, i);
      Kept(other);
    }

    /** Where the link of a handle is, and what is left when it is cut out. */
    lemma TakenOut(h: Handle) returns (here: bool, i: nat)
      requires Valid() && h in first + second
      ensures var r := if here then a else b; 1 <= i < |r| && h in linkOf && r[i] == linkOf[h]
      ensures var a', b' := if here then Cut(a, i) else a, if here then b else Cut(b, i);
              && Listed(linkOf, head, local, a', b', Without(first, h), Without(second, h))
              && Within(a', repr) && Within(b', repr) && Disjoint(a, b)
    {
      hide Queue.IsRing;
      here := h in first;
      i := 1 + Position(if here then first else second, h);
      NoDupAppend(first, second);
      WithoutFacts(first, h);
      WithoutFacts(second, h);
      NoDupAppend(Without(first, h), Without(second, h));
      hide Without;
      if here {
        CutData(a, i);
      } else {
        CutData(b, i);
      }
    }

    /** uv__queue_move to the local list */
    method Move()
      requires Valid() && second == []
      modifies repr
      ensures Valid() && repr == old(repr) && linkOf == old(linkOf) && first == [] && second == old(first)
    {
      hide Queue.IsRing;
      assert first + second == first == [] + first;
      Queue.Move(head, local, a);
      a, b := [head], [local] + a[1..];
      first, second := [], first;
      assert second == Data(b[1..]);
    }

    /** One turn of the walk: the first handle of the local list goes to the tail of the other. */
    method Rotate() returns (h: Handle)
      requires Valid() && second != []
      modifies repr
      ensures Valid() && repr == old(repr) && linkOf == old(linkOf) && h == old(second)[0]
      ensures first == old(first) + [h] && second == old(second)[1..]
    {
      hide Queue.IsRing, Cut, Disjoint, Listed, Owned;
      Rotated();
      ghost var c, d, was := a + [b[1]], Cut(b, 1), second;
      var q := Pass(head, local, a, b);
      h := q.data;
      a, b := c, d;
      first, second := first + [was[0]], was[1..];
    }

    /** What the turn leaves. */
    lemma Rotated()
      requires Valid() && second != []
      ensures a != [] && a[0] == head && |b| >= 2 && b[0] == local && b[1].data == second[0]
      ensures var a', b' := a + [b[1]], Cut(b, 1);
              && Listed(linkOf, head, local, a', b', first + [second[0]], second[1..])
              && Within(a', repr) && Within(b', repr) && Disjoint(a, b) && Disjoint(a', b')
    {
      hide Queue.IsRing;
      assert second == [second[0]] + second[1..];
      Associative(first, [second[0]], second[1..]);
      NoDupAppend(first, second);
      forall j | 2 <= j < |b|
        ensures b[j] != b[1]
      {
        assert second[j - 1] != second[0];
      }
    }
  }

  /** A link goes from the front of one ring to the end of the other. */
  method Pass(head: Link, local: Link, ghost a: seq<Link>, ghost b: seq<Link>) returns (q: Link)
    requires Queue.IsRing(a) && a[0] == head && Queue.IsRing(b) && b[0] == local && |b| >= 2
    requires Disjoint(a, b) && Disjoint(a + [b[1]], Cut(b, 1))
    modifies a`next, a`prev, b`next, b`prev
    ensures q == b[1] && Queue.IsRing(a + [q]) && Queue.IsRing(Cut(b, 1))
  {
    hide Queue.IsRing;
    assert forall k :: 0 <= k < |a| ==> a[k] !in b;
    q := Queue.Head(local, b);
    Queue.Remove(q, b, 1);
    Kept(a);
    ghost var rest := Cut(b, 1);
    assert forall k :: 0 <= k < |rest| ==> rest[k] !in a + [q];
    label Removed:
    Queue.InsertTail(head, q, a);
    Kept@Removed(rest);
  }
}
