/** The intrusive circular lists of src/queue.h.  A ring is listed from its head: r[0] is the head that
    stands for the queue, r[1..] are its elements in order. */
module Queue {
  import opened Basics

  class Link {
    var next: Link
    var prev: Link
    const data: nat   // uv__queue_data: what the link is embedded in

    /** uv__queue_init on a new node */
    constructor (data: nat)
      ensures next == this && prev == this && this.data == data
    {
      next, prev := this, this;
      this.data := data;
    }
  }

  function Succ(i: int, n: int): int {
    if i + 1 == n then 0 else i + 1
  }

  ghost predicate LinkedAt(r: seq<Link>, i: int)
    requires 0 <= i < |r|
    reads r
  {
    r[i].next == r[Succ(i, |r|)] && r[Succ(i, |r|)].prev == r[i]
  }

  ghost predicate IsRing(r: seq<Link>)
    reads r
  {
    r != [] && NoDup(r) && forall i :: 0 <= i < |r| ==> LinkedAt(r, i)
  }

  method Init(q: Link)
    modifies q`next, q`prev
    ensures IsRing([q])
  {
    q.next := q;
    q.prev := q;
  }

  method Empty(q: Link, ghost r: seq<Link>) returns (b: bool)
    requires IsRing(r) && r[0] == q
    ensures b <==> r == [q]
  {
    assert LinkedAt(r, 0);
    b := q == q.next;
  }

  method Head(q: Link, ghost r: seq<Link>) returns (x: Link)
    requires IsRing(r) && r[0] == q && |r| > 1
    ensures x == r[1]
  {
    assert LinkedAt(r, 0);
    x := q.next;
  }

  /** The one next to r[i], which is the head of the list behind the last element. */
  method Next(q: Link, ghost r: seq<Link>, ghost i: int) returns (x: Link)
    requires IsRing(r) && 0 <= i < |r| && r[i] == q
    ensures x == r[Succ(i, |r|)]
  {
    assert LinkedAt(r, i);
    x := q.next;
  }

  method InsertHead(h: Link, q: Link, ghost r: seq<Link>)
    requires IsRing(r) && r[0] == h && q !in r
    modifies q`next, q`prev, r`next, r`prev
    ensures IsRing([h, q] + r[1..])
  {
    assert LinkedAt(r, 0);
    ghost var s := [h, q] + r[1..];
    q.next := h.next;
    q.prev := h;
    q.next.prev := q;
    h.next := q;
    forall i | 0 <= i < |s|
      ensures LinkedAt(s, i)
    {
      assert i >= 2 ==> old(LinkedAt(r, i - 1));
    }
  }

  method InsertTail(h: Link, q: Link, ghost r: seq<Link>)
    requires IsRing(r) && r[0] == h && q !in r
    modifies q`next, q`prev, r`next, r`prev
    ensures IsRing(r + [q])
  {
    ghost var n := |r|;
    assert LinkedAt(r, n - 1);
    ghost var s := r + [q];
    q.next := h;
    q.prev := h.prev;
    q.prev.next := q;
    h.prev := q;
    forall i | 0 <= i < |s|
      ensures LinkedAt(s, i)
    {
      assert i < n - 1 ==> old(LinkedAt(r, i));
    }
  }

  /** Takes element i out; its own links stay as they are. */
  method Remove(q: Link, ghost r: seq<Link>, ghost i: int)
    requires IsRing(r) && 1 <= i < |r| && r[i] == q
    modifies r`next, r`prev
    ensures IsRing(r[..i] + r[i + 1..])
  {
    ghost var s := r[..i] + r[i + 1..];
    assert LinkedAt(r, i - 1) && LinkedAt(r, i);
    q.prev.next := q.next;
    q.next.prev := q.prev;
    forall j | 0 <= j < |s|
      ensures LinkedAt(s, j)
    {
      ghost var n := |r|;
      if j < i - 1 {
        assert old(LinkedAt(r, j)) && s[j] == r[j] && s[j + 1] == r[j + 1];
        assert r[j + 1] != r[Succ(i, n)];
      } else if j >= i {
        assert old(LinkedAt(r, j + 1)) && s[j] == r[j + 1] && s[Succ(j, n - 1)] == r[Succ(j + 1, n)];
        assert r[Succ(j + 1, n)] != r[Succ(i, n)];
      } else {
        assert s[j] == r[i - 1] && s[Succ(j, n - 1)] == r[Succ(i, n)];
      }
    }
  }

  /** The elements from i on go to the list n, the others stay. */
  method Split(h: Link, q: Link, n: Link, ghost r: seq<Link>, ghost i: int)
    requires IsRing(r) && r[0] == h && 1 <= i < |r| && r[i] == q && n !in r
    modifies n`next, n`prev, r`next, r`prev
    ensures IsRing(r[..i]) && IsRing([n] + r[i..])
  {
    ghost var a, b := r[..i], [n] + r[i..];
    assert LinkedAt(r, |r| - 1) && LinkedAt(r, i - 1);
    n.prev := h.prev;
    n.prev.next := n;
    n.next := q;
    h.prev := q.prev;
    h.prev.next := h;
    q.prev := n;
    forall j | 0 <= j < |a|
      ensures LinkedAt(a, j)
    {
      assert j < i - 1 ==> old(LinkedAt(r, j));
    }
    forall j | 0 <= j < |b|
      ensures LinkedAt(b, j)
    {
      assert 1 <= j < |b| - 1 ==> old(LinkedAt(r, i + j - 1));
    }
  }

  /** All elements go to the list n. */
  method Move(h: Link, n: Link, ghost r: seq<Link>)
    requires IsRing(r) && r[0] == h && n !in r
    modifies n`next, n`prev, r`next, r`prev
    ensures IsRing([h]) && IsRing([n] + r[1..])
  {
    var empty := Empty(h, r);
    assert LinkedAt(r, 0);
    if empty {
      Init(n);
      assert [n] + r[1..] == [n];
    } else {
      Split(h, h.next, n, r, 1);
    }
    assert r[..1] == [h] && (empty ==> r == [h]);
  }

  /** The elements of the list n go behind those of h. */
  method Add(h: Link, n: Link, ghost r: seq<Link>, ghost s: seq<Link>)
    requires IsRing(r) && r[0] == h && IsRing(s) && s[0] == n && forall x :: x in r ==> x !in s
    modifies r`next, r`prev, s`next, s`prev
    ensures IsRing(r + s[1..])
  {
    ghost var t, m, k := r + s[1..], |r|, |s|;
    NoDupAppend(r, s[1..]);
    forall i, j | 0 <= i < m && 0 <= j < k
      ensures r[i] != s[j]
    {
      assert r[i] in r && s[j] in s;
    }
    assert LinkedAt(r, |r| - 1) && LinkedAt(s, 0) && LinkedAt(s, |s| - 1);
    h.prev.next := n.next;
    n.next.prev := h.prev;
    h.prev := n.prev;
    h.prev.next := h;
    forall j | 0 <= j < |t|
      ensures LinkedAt(t, j)
    {
      if j < m - 1 {
        assert old(LinkedAt(r, j)) && t[j] == r[j] && t[j + 1] == r[j + 1];
      } else if j == m - 1 {
        assert t[j] == r[m - 1] && (k > 1 ==> t[j + 1] == s[1]);
      } else {
        assert old(LinkedAt(s, j - m + 1)) && t[j] == s[j - m + 1] && (j < |t| - 1 ==> t[j + 1] == s[j - m + 2]);
      }
    }
  }
}
