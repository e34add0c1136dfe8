/** Words, optional values and facts about sequences that several modules use. */
module Basics {

  type byte = x: int | 0 <= x < 0x100
  type uint32 = x: int | 0 <= x < 0x1_0000_0000

  const UINT64 := 0x1_0000_0000_0000_0000

  type uint64 = x: int | 0 <= x < UINT64

  datatype Option<+T> = None | Some(value: T)

  predicate NoDup<T(==)>(q: seq<T>) {
    forall i, j :: 0 <= i < j < |q| ==> q[i] != q[j]
  }

  /** q without the first x in it. */
  function Without<T(==)>(q: seq<T>, x: T): (r: seq<T>)
    ensures |r| <= |q|
  {
    if q == [] then [] else if q[0] == x then q[1..] else [q[0]] + Without(q[1..], x)
  }

  lemma Associative<T>(a: seq<T>, b: seq<T>, c: seq<T>)
    ensures (a + b) + c == a + (b + c)
  {}

  lemma NoDupAppend<T>(q: seq<T>, r: seq<T>)
    ensures NoDup(q + r) <==> NoDup(q) && NoDup(r) && forall x :: x in q ==> x !in r
  {
    var s := q + r;
    if NoDup(q) && NoDup(r) && forall x :: x in q ==> x !in r {
      forall i, j | 0 <= i < j < |s|
        ensures s[i] != s[j]
      {
        if i < |q| <= j {
          assert q[i] in q && r[j - |q|] in r;
        }
      }
    }
    if NoDup(s) {
      assert forall i :: 0 <= i < |q| ==> s[i] == q[i];
      assert forall j :: 0 <= j < |r| ==> s[|q| + j] == r[j];
    }
  }

  lemma NoDupCons<T>(x: T, q: seq<T>)
    requires NoDup(q) && x !in q
    ensures NoDup([x] + q)
  {}

  lemma NoDupSnoc<T>(q: seq<T>, x: T)
    requires NoDup(q) && x !in q
    ensures NoDup(q + [x])
    ensures forall y :: y in q + [x] <==> y in q || y == x
  {}

  lemma NoDupTail<T>(q: seq<T>)
    requires NoDup(q) && q != []
    ensures NoDup(q[1..]) && q[0] !in q[1..]
    ensures forall x :: x in q[1..] <==> x in q && x != q[0]
  {}

  lemma {:induction false} NoDupOnce<T>(q: seq<T>, x: T)
    requires NoDup(q)
    ensures multiset(q)[x] == if x in q then 1 else 0
  {
    if q != [] {
      NoDupTail(q);
      NoDupOnce(q[1..], x);
      assert q == [q[0]] + q[1..];
    }
  }

  lemma OneMore<T>(q: seq<T>, r: seq<T>, x: T)
    requires multiset(r) == multiset(q) + multiset{x}
    ensures forall y :: y in r <==> y in q || y == x
  {
    assert forall y :: y in q <==> y in multiset(q);
    assert forall y :: y in r <==> y in multiset(r);
  }

  lemma OneLess<T>(q: seq<T>, r: seq<T>, x: T)
    requires NoDup(q) && multiset(r) == multiset(q) - multiset{x}
    ensures forall y :: y in r <==> y in q && y != x
  {
    NoDupOnce(q, x);
    assert forall y :: y in q <==> y in multiset(q);
    assert forall y :: y in r <==> y in multiset(r);
  }

  lemma {:induction false} WithoutFacts<T>(q: seq<T>, x: T)
    requires NoDup(q)
    ensures NoDup(Without(q, x)) && (x !in q ==> Without(q, x) == q)
    ensures |Without(q, x)| == |q| - if x in q then 1 else 0
    ensures forall y :: y in Without(q, x) <==> y in q && y != x
  {
    if q != [] {
      NoDupTail(q);
      assert q == [q[0]] + q[1..];
      if q[0] != x {
        WithoutFacts(q[1..], x);
        NoDupCons(q[0], Without(q[1..], x));
      }
    }
  }
}
