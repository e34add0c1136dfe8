/** next_power_of_two of src/unix/core.c, on unsigned words of 32 bits, and the sizes maybe_resize asks for. */
module NextPower {

  const WIDTH: nat := 32

  function Power(k: nat): (p: nat)
    ensures p >= 1
  {
    if k == 0 then 1 else 2 * Power(k - 1)
  }

  /** The word of w bits, lowest bit first, that stands for n, and the number a word stands for. */
  function Bits(n: nat, w: nat): (b: seq<bool>)
    ensures |b| == w
  {
    if w == 0 then [] else [n % 2 == 1] + Bits(n / 2, w - 1)
  }

  function Value(b: seq<bool>): nat {
    if b == [] then 0 else (if b[0] then 1 else 0) + 2 * Value(b[1..])
  }

  function Or(a: seq<bool>, b: seq<bool>): (r: seq<bool>)
    requires |a| == |b|
    ensures |r| == |a|
  {
    seq(|a|, i requires 0 <= i < |a| => a[i] || b[i])
  }

  function ShiftRight(a: seq<bool>, k: nat): (r: seq<bool>)
    ensures |r| == |a|
  {
    seq(|a|, i requires 0 <= i < |a| => i + k < |a| && a[i + k])
  }

  lemma {:induction false} ValueBound(b: seq<bool>)
    ensures Value(b) < Power(|b|)
  {
    if b != [] {
      ValueBound(b[1..]);
    }
  }

  /** Truncation to a word, for a sum that exceeds it by at most one. */
  function Wrap(x: nat, m: nat): (r: nat)
    requires 0 < m && x <= m
    ensures r < m
  {
    if x == m then 0 else x
  }

  /** The five steps `val |= val >> k`. */
  function Smear(v: seq<bool>): (r: seq<bool>)
    ensures |r| == |v|
  {
    var a := Or(v, ShiftRight(v, 1));
    var b := Or(a, ShiftRight(a, 2));
    var c := Or(b, ShiftRight(b, 4));
    var d := Or(c, ShiftRight(c, 8));
    Or(d, ShiftRight(d, 16))
  }

  function Filled(n: nat, w: nat): (r: nat)
    ensures r < Power(w)
  {
    ValueBound(Smear(Bits(n, w)));
    Value(Smear(Bits(n, w)))
  }

  /** In words of w bits, 32 in the source. */
  function NextPowerOfTwo(n: nat, w: nat): nat
    requires n < Power(w)
  {
    Wrap(Filled(if n == 0 then Power(w) - 1 else n - 1, w) + 1, Power(w))
  }

  // ----- what the steps compute

  /** One of the n bits from i on is set. */
  predicate Window(v: seq<bool>, i: nat, n: nat) {
    exists j :: i <= j < i + n && j < |v| && v[j]
  }

  /** Each bit of a is a window of n bits of v. */
  predicate Windows(v: seq<bool>, a: seq<bool>, n: nat) {
    |a| == |v| && forall i :: 0 <= i < |v| ==> (a[i] <==> Window(v, i, n))
  }

  lemma Doubled(v: seq<bool>, a: seq<bool>, n: nat)
    requires Windows(v, a, n)
    ensures Windows(v, Or(a, ShiftRight(a, n)), 2 * n)
  {}

  /** Afterwards a bit is set exactly if it or a higher one was. */
  lemma SmearFills(v: seq<bool>)
    requires |v| <= WIDTH
    ensures Windows(v, Smear(v), WIDTH)
  {
    assert Windows(v, v, 1);
    var a := Or(v, ShiftRight(v, 1));
    Doubled(v, v, 1);
    var b := Or(a, ShiftRight(a, 2));
    Doubled(v, a, 2);
    var c := Or(b, ShiftRight(b, 4));
    Doubled(v, b, 4);
    var d := Or(c, ShiftRight(c, 8));
    Doubled(v, c, 8);
    Doubled(v, d, 16);
  }

  function Length(n: nat): (h: nat)
    ensures n < Power(h) && (h > 0 ==> Power(h - 1) <= n)
  {
    if n == 0 then 0 else Length(n / 2) + 1
  }

  predicate AnyFrom(b: seq<bool>, i: nat) {
    exists j :: i <= j < |b| && b[j]
  }

  lemma AnyBehind(x: bool, c: seq<bool>, i: nat)
    requires i <= |c|
    ensures AnyFrom([x] + c, i) <==> if i == 0 then x || AnyFrom(c, 0) else AnyFrom(c, i - 1)
    ensures c == [] ==> !AnyFrom(c, 0)
  {
    var b := [x] + c;
    assert forall j :: 0 <= j < |c| ==> b[j + 1] == c[j];
    if AnyFrom(b, i) {
      var j :| i <= j < |b| && b[j];
      assert j > 0 ==> c[j - 1];
    }
    var from := if i == 0 then 0 else i - 1;
    if AnyFrom(c, from) {
      var j :| from <= j < |c| && c[j];
      assert b[j + 1];
    }
    assert i == 0 && x ==> b[0];
  }

  /** Bit i or a higher one of n is set exactly for i below the length of n. */
  lemma {:induction false} HighestBit(n: nat, w: nat, i: nat)
    requires n < Power(w) && i < w
    ensures AnyFrom(Bits(n, w), i) <==> i < Length(n)
  {
    var m := n / 2;
    var c := Bits(m, w - 1);
    assert Bits(n, w) == [n % 2 == 1] + c;
    hide Bits, AnyFrom;
    AnyBehind(n % 2 == 1, c, i);
    if w > 1 {
      HighestBit(m, w - 1, if i == 0 then 0 else i - 1);
    }
  }

  /** A word whose h low bits are set and no other. */
  lemma {:induction false} OnesValue(b: seq<bool>, h: nat)
    requires h <= |b| && forall i :: 0 <= i < |b| ==> (b[i] <==> i < h)
    ensures Value(b) == Power(h) - 1
  {
    if b != [] {
      OnesValue(b[1..], if h == 0 then 0 else h - 1);
    }
  }

  lemma {:induction false} LengthBound(n: nat, w: nat)
    requires n < Power(w)
    ensures Length(n) <= w
  {
    if n > 0 {
      LengthBound(n / 2, w - 1);
    }
  }

  lemma {:induction false} PowerOrder(h: nat, k: nat)
    requires h < k
    ensures Power(h) < Power(k)
  {
    if h > 0 {
      PowerOrder(h - 1, k - 1);
    } else if k > 1 {
      PowerOrder(0, k - 1);
    }
  }

  lemma SmearOnes(n: nat, w: nat)
    requires n < Power(w) && w <= WIDTH
    ensures Filled(n, w) == Power(Length(n)) - 1
  {
    var b := Bits(n, w);
    LengthBound(n, w);
    SmearFills(b);
    forall i | 0 <= i < w
      ensures Smear(b)[i] <==> i < Length(n)
    {
      HighestBit(n, w, i);
      assert Window(b, i, WIDTH) <==> AnyFrom(b, i);
    }
    OnesValue(Smear(b), Length(n));
  }

  lemma WrapPower(h: nat, w: nat)
    requires h <= w
    ensures Power(h) <= Power(w) && Wrap(Power(h), Power(w)) == if h == w then 0 else Power(h)
  {
    if h < w {
      PowerOrder(h, w);
    }
  }

  lemma RoundsUp(n: nat, w: nat)
    requires 1 <= n < Power(w) && w <= WIDTH
    ensures NextPowerOfTwo(n, w) == if Length(n - 1) == w then 0 else Power(Length(n - 1))
  {
    hide Filled, Smear, Bits, Power, Length, Wrap;
    LengthBound(n - 1, w);
    SmearOnes(n - 1, w);
    WrapPower(Length(n - 1), w);
  }

  /** The least power of two that is at least n, truncated to the width of a word. */
  lemma LeastPower(n: nat, w: nat) returns (h: nat)
    requires 1 <= n < Power(w) && w <= WIDTH
    ensures NextPowerOfTwo(n, w) == if h == w then 0 else Power(h)
    ensures n <= Power(h) && (h > 0 ==> Power(h - 1) < n) && h <= w
  {
    hide NextPowerOfTwo, Filled, Smear, Bits, Power;
    h := Length(n - 1);
    LengthBound(n - 1, w);
    RoundsUp(n, w);
  }

  /** Of 0 the source takes one less first, and ends at 0 again. */
  lemma ZeroWraps(w: nat)
    requires 1 <= w <= WIDTH
    ensures NextPowerOfTwo(0, w) == 0
  {
    hide Filled, Smear, Bits, Power, Length;
    var n := Power(w) - 1;
    var h := Length(n);
    LengthBound(n, w);
    SmearOnes(n, w);
    if h < w {
      PowerOrder(h, w);
    }
    WrapPower(w, w);
  }

  /** It covers n exactly up to the highest power of two of the word. */
  lemma CoversIff(n: nat, w: nat)
    requires n < Power(w) && 1 <= w <= WIDTH
    ensures NextPowerOfTwo(n, w) >= n <==> n <= Power(w - 1)
  {
    hide Filled, Smear, Bits;
    if n > 0 {
      var h := LeastPower(n, w);
      if h < w {
        PowerOrder(h, w);
        if h < w - 1 {
          PowerOrder(h, w - 1);
        }
      }
    }
  }

  // ----- maybe_resize

  /** x + 2 and x - 2 as words of w bits. */
  function PlusTwo(x: nat, w: nat): (r: nat)
    requires 1 <= w && x < Power(w)
    ensures r < Power(w)
  {
    if x + 2 < Power(w) then x + 2 else x + 2 - Power(w)
  }

  function MinusTwo(x: nat, w: nat): (r: nat)
    requires 1 <= w && x < Power(w)
    ensures r < Power(w) && PlusTwo(r, w) == x
  {
    if x >= 2 then x - 2 else x + Power(w) - 2
  }

  /** The new number of watcher slots in maybe_resize, and the number of pointers it allocates: two for event
      invalidation are behind the slots. */
  function Slots(len: nat, w: nat): nat
    requires 1 <= w && len < Power(w)
  {
    MinusTwo(NextPowerOfTwo(PlusTwo(len, w), w), w)
  }

  function Pointers(len: nat, w: nat): nat
    requires 1 <= w && len < Power(w)
  {
    PlusTwo(Slots(len, w), w)
  }

  /** For a length that is not negative as a signed number, the allocation is not empty exactly if two more
      slots fit the highest power of two, and then it has room for the length. */
  lemma GrowsIff(len: nat, w: nat)
    requires 2 <= w <= WIDTH && len < Power(w - 1)
    ensures len < Power(w)
    ensures Pointers(len, w) != 0 <==> len + 2 <= Power(w - 1)
    ensures Pointers(len, w) != 0 ==> len <= Slots(len, w) && Slots(len, w) + 2 <= Power(w - 1)
  {
    hide NextPowerOfTwo;
    PowerOrder(w - 1, w);
    PointersAre(len, w);
    var h := LeastPower(len + 2, w);
    PowerUpTo(h, w);
  }

  lemma PointersAre(len: nat, w: nat)
    requires 2 <= w && len + 2 < Power(w)
    ensures Pointers(len, w) == NextPowerOfTwo(len + 2, w)
    ensures Pointers(len, w) >= 2 ==> Slots(len, w) == Pointers(len, w) - 2
  {
    hide NextPowerOfTwo;
    assert PlusTwo(len, w) == len + 2;
  }

  lemma PowerUpTo(h: nat, w: nat)
    requires 1 <= w
    ensures h < w ==> Power(h) <= Power(w - 1)
  {
    if h < w - 1 {
      PowerOrder(h, w - 1);
    }
  }

  /** The length INT_MAX, for the descriptor INT_MAX - 1: nothing is allocated. */
  lemma LargestDescriptor()
    ensures 0x7FFF_FFFF < Power(WIDTH)
    ensures Slots(0x7FFF_FFFF, WIDTH) == 0xFFFF_FFFE && Pointers(0x7FFF_FFFF, WIDTH) == 0
  {
    PowerOfWord();
    GrowsIff(0x7FFF_FFFF, WIDTH);
  }

  lemma PowerOfWord()
    ensures Power(WIDTH - 1) == 0x8000_0000 && Power(WIDTH) == 0x1_0000_0000
  {
    assert Power(8) == 0x100;
    assert Power(16) == 0x1_0000;
    assert Power(24) == 0x100_0000;
    assert Power(31) == 0x8000_0000;
  }
}
