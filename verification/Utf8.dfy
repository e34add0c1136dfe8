/** UTF-8 decoding as done by uv__utf8_decode1 (src/idna.c).

    Bytes and 32-bit words are subset types of `int`, so an operation that would
    wrap in C is a proof obligation here.  Bit masks and shifts of non-negative
    values are written with `/`, `%` and `*`. */
module Utf8 {
  import opened Basics

  const UINT_MAX: uint32 := 0xFFFF_FFFF

  /** The scalar values of Unicode: the code points that are not surrogates. */
  predicate IsScalar(c: int) {
    0 <= c <= 0x10FFFF && !(0xD800 <= c <= 0xDFFF)
  }

  /** A scalar value in the encoding of section 3 of RFC 3629. */
  function Encode(c: int): seq<byte>
    requires IsScalar(c)
  {
    if c < 0x80 then [c]
    else if c < 0x800 then [0xC0 + c / 64, 0x80 + c % 64]
    else if c < 0x1_0000 then [0xE0 + c / 4096, 0x80 + c / 64 % 64, 0x80 + c % 64]
    else [0xF0 + c / 262144, 0x80 + c / 4096 % 64, 0x80 + c / 64 % 64, 0x80 + c % 64]
  }

  // ----- the decoder

  /** Exclusive or of two 2-bit numbers. */
  function Xor2(x: int, y: int): int {
    if x == y then 0 else if x == 0 then y else if y == 0 then x else 6 - x - y
  }

  /** The checks after the switch: the top two bits of b ^ c ^ d must be binary 10, the
      value must not be overlong, above U+10FFFF or a surrogate. */
  function Assemble(min: int, a: int, b: byte, c: byte, d: byte): (r: uint32)
    requires 0 <= a < 8
    ensures r == UINT_MAX || (IsScalar(r) && r >= min)
  {
    var v := a * 262144 + b % 64 * 4096 + c % 64 * 64 + d % 64;
    if Xor2(Xor2(b / 64, c / 64), d / 64) != 2 then UINT_MAX
    else if v < min then UINT_MAX
    else if v > 0x10FFFF then UINT_MAX
    else if 0xD800 <= v <= 0xDFFF then UINT_MAX
    else v
  }

  /** The multi-byte part: the switch on the number of bytes left falls through, so a lead
      byte that announces more bytes than are left is read as a shorter sequence.  The second
      result is the moved cursor. */
  function Decode1Slow(s: seq<byte>, p: nat, pe: nat, a: byte): (r: (uint32, nat))
    requires p <= pe <= |s|
    ensures p <= r.1 <= pe && r.1 <= p + 3
    ensures r.0 == UINT_MAX || (IsScalar(r.0) && r.0 >= 0x80)
  {
    if a > 0xF7 then (UINT_MAX, p)
    else if pe - p >= 3 && a > 0xEF then
      (Assemble(0x10000, a % 8, s[p], s[p + 1], s[p + 2]), p + 3)
    else if pe - p >= 2 && a > 0xDF then
      (Assemble(0x800, 0, 0x80 + a % 16, s[p], s[p + 1]), p + 2)
    else if pe - p >= 1 && a > 0xBF then
      (Assemble(0x80, 0, 0x80, 0x80 + a % 32, s[p]), p + 1)
    else (UINT_MAX, p)
  }

  /** Decodes one character at cursor p of s, of which the bytes before pe may be read. */
  function Decode1(s: seq<byte>, p: nat, pe: nat): (r: (uint32, nat))
    requires p < pe <= |s|
    ensures p < r.1 <= pe && r.1 <= p + 4
    ensures r.0 == UINT_MAX || IsScalar(r.0)
    ensures s[p] >= 0x80 && r.0 != UINT_MAX ==> r.0 >= 0x80
  {
    if s[p] < 128 then (s[p], p + 1) else Decode1Slow(s, p + 1, pe, s[p])
  }

  // ----- what the decoder promises

  /** The base-64 digits of a code point put it back together. */
  lemma SixBitGroups(c: int)
    requires 0 <= c <= 0x10FFFF
    ensures c / 64 % 64 * 64 + c % 64 == c % 4096
    ensures c / 4096 % 64 * 4096 + c % 4096 == c % 262144
    ensures c / 262144 * 262144 + c % 262144 == c
    ensures c / 4096 * 4096 + c % 4096 == c
  {
    assert c / 64 / 64 == c / 4096;
    assert c / 4096 / 64 == c / 262144;
  }

  /** The checks pass for continuation bytes. */
  lemma AssembleValue(min: int, a: int, b: byte, c: byte, d: byte, v: int)
    requires 0 <= a < 8 && b / 64 == c / 64 == d / 64 == 2 && v >= min && IsScalar(v)
    requires v == a * 262144 + b % 64 * 4096 + c % 64 * 64 + d % 64
    ensures Assemble(min, a, b, c, d) == v
  {}

  lemma DecodesTwo(s: seq<byte>, p: nat, pe: nat, c: int)
    requires 0x80 <= c < 0x800 && p + 2 <= pe <= |s|
    requires s[p] == 0xC0 + c / 64 && s[p + 1] == 0x80 + c % 64
    ensures Decode1(s, p, pe) == (c, p + 2)
  {
    assert (0x80 + s[p] % 32) % 64 == c / 64;
    assert s[p + 1] % 64 == c % 64;
    assert s[p + 1] / 64 == 2 && (0x80 + s[p] % 32) / 64 == 2;
  }

  lemma MiddleBits(c: int)
    requires 0x800 <= c < 0x1_0000
    ensures (0x80 + (0xE0 + c / 4096) % 16) % 64 == c / 4096 && (0x80 + (0xE0 + c / 4096) % 16) / 64 == 2
  {}

  lemma DecodesThree(s: seq<byte>, p: nat, pe: nat, c: int)
    requires 0x800 <= c < 0x1_0000 && IsScalar(c) && p + 3 <= pe <= |s|
    requires s[p] == 0xE0 + c / 4096 && s[p + 1] == 0x80 + c / 64 % 64 && s[p + 2] == 0x80 + c % 64
    ensures Decode1(s, p, pe) == (c, p + 3)
  {
    var m := c / 64 % 64;
    var l := c % 64;
    SixBitGroups(c);
    MiddleBits(c);
    assert s[p + 1] / 64 == 2 && s[p + 1] % 64 == m;
    assert s[p + 2] / 64 == 2 && s[p + 2] % 64 == l;
    hide Assemble;
    AssembleValue(0x800, 0, 0x80 + s[p] % 16, s[p + 1], s[p + 2], c);
  }

  lemma DecodesFour(s: seq<byte>, p: nat, pe: nat, c: int)
    requires 0x1_0000 <= c <= 0x10FFFF && p + 4 <= pe <= |s|
    requires s[p] == 0xF0 + c / 262144 && s[p + 1] == 0x80 + c / 4096 % 64
    requires s[p + 2] == 0x80 + c / 64 % 64 && s[p + 3] == 0x80 + c % 64
    ensures Decode1(s, p, pe) == (c, p + 4)
  {
    var h := c / 4096 % 64;
    var m := c / 64 % 64;
    var l := c % 64;
    SixBitGroups(c);
    assert s[p] % 8 == c / 262144;
    assert s[p + 1] / 64 == 2 && s[p + 1] % 64 == h;
    assert s[p + 2] / 64 == 2 && s[p + 2] % 64 == m;
    assert s[p + 3] / 64 == 2 && s[p + 3] % 64 == l;
  }

  lemma DecodesWellFormed(s: seq<byte>, p: nat, pe: nat, c: int)
    requires IsScalar(c)
    requires p + |Encode(c)| <= pe <= |s|
    requires s[p..p + |Encode(c)|] == Encode(c)
    ensures Decode1(s, p, pe) == (c, p + |Encode(c)|)
  {
    var e := Encode(c);
    assert forall k :: 0 <= k < |e| ==> s[p + k] == e[k] by {
      forall k | 0 <= k < |e| ensures s[p + k] == e[k] {
        assert s[p..p + |e|][k] == s[p + k];
      }
    }
    assert s[p + 0] == e[0];
    if c < 0x80 {
    } else if c < 0x800 {
      assert s[p + 1] == e[1];
      DecodesTwo(s, p, pe, c);
    } else if c < 0x1_0000 {
      assert s[p + 1] == e[1] && s[p + 2] == e[2];
      DecodesThree(s, p, pe, c);
    } else {
      assert s[p + 1] == e[1] && s[p + 2] == e[2] && s[p + 3] == e[3];
      DecodesFour(s, p, pe, c);
    }
  }

  predicate IsContinuation(b: byte) { 0x80 <= b <= 0xBF }

  /** The length a lead byte announces, by the table in section 3 of RFC 3629. */
  function AnnouncedLength(lead: byte): nat {
    if lead < 0x80 then 1 else if 0xC0 <= lead <= 0xDF then 2
    else if 0xE0 <= lead <= 0xEF then 3 else if 0xF0 <= lead <= 0xF7 then 4 else 0
  }

  lemma GroupsOf(v: int, a: int, b: int, c: int, d: int)
    requires 0 <= a < 8 && 0 <= b < 64 && 0 <= c < 64 && 0 <= d < 64
    requires v == a * 262144 + b * 4096 + c * 64 + d
    ensures v / 262144 == a && v / 4096 % 64 == b && v / 64 % 64 == c && v % 64 == d
    ensures a == 0 ==> v / 4096 == b
    ensures a == 0 && b == 0 ==> v / 64 == c
  {
    assert v / 64 == a * 4096 + b * 64 + c;
    assert v / 4096 == a * 64 + b;
  }

  lemma AssembleDigits(min: int, a: int, b: byte, c: byte, d: byte, v: int)
    requires 0 <= a < 8 && Assemble(min, a, b, c, d) == v != UINT_MAX
    ensures v == a * 262144 + b % 64 * 4096 + c % 64 * 64 + d % 64
  {}

  lemma EncodeGroups(c: int, a: int, b: int, d: int, e: int)
    requires IsScalar(c) && 0 <= a < 8 && 0 <= b < 64 && 0 <= d < 64 && 0 <= e < 64
    requires c == a * 262144 + b * 4096 + d * 64 + e
    ensures c >= 0x1_0000 ==> Encode(c) == [0xF0 + a, 0x80 + b, 0x80 + d, 0x80 + e]
    ensures 0x800 <= c < 0x1_0000 && a == 0 ==> Encode(c) == [0xE0 + b, 0x80 + d, 0x80 + e]
    ensures 0x80 <= c < 0x800 && a == 0 && b == 0 ==> Encode(c) == [0xC0 + d, 0x80 + e]
  {
    GroupsOf(c, a, b, d, e);
  }

  lemma LowSix(b: byte)
    requires IsContinuation(b)
    ensures b % 64 == b - 0x80
  {}

  lemma LeadBits(b: byte)
    ensures 0xC0 <= b <= 0xDF ==> (0x80 + b % 32) % 64 == b - 0xC0
    ensures 0xE0 <= b <= 0xEF ==> (0x80 + b % 16) % 64 == b - 0xE0
    ensures 0xF0 <= b <= 0xF7 ==> b % 8 == b - 0xF0
  {}

  /** What was assembled, by the length of the character. */
  lemma Assembled(s: seq<byte>, p: nat, pe: nat, c: int)
    requires p < pe <= |s| && c != UINT_MAX && Decode1(s, p, pe).0 == c
    ensures 0xC0 <= s[p] <= 0xDF && Decode1(s, p, pe).1 == p + 2 ==>
              Assemble(0x80, 0, 0x80, 0x80 + s[p] % 32, s[p + 1]) == c
    ensures 0xE0 <= s[p] <= 0xEF && Decode1(s, p, pe).1 == p + 3 ==>
              Assemble(0x800, 0, 0x80 + s[p] % 16, s[p + 1], s[p + 2]) == c
    ensures 0xF0 <= s[p] <= 0xF7 && Decode1(s, p, pe).1 == p + 4 ==>
              Assemble(0x10000, s[p] % 8, s[p + 1], s[p + 2], s[p + 3]) == c
  {
    hide Assemble;
  }

  lemma StrictTwo(s: seq<byte>, p: nat, pe: nat, c: int)
    requires p + 2 <= pe <= |s| && Decode1(s, p, pe) == (c, p + 2) && c != UINT_MAX
    requires 0xC0 <= s[p] <= 0xDF && IsContinuation(s[p + 1])
    ensures Encode(c) == [s[p], s[p + 1]]
  {
    hide Encode, Decode1, Assemble;
    Assembled(s, p, pe, c);
    AssembleDigits(0x80, 0, 0x80, 0x80 + s[p] % 32, s[p + 1], c);
    LeadBits(s[p]);
    LowSix(s[p + 1]);
    EncodeGroups(c, 0, 0, s[p] - 0xC0, s[p + 1] - 0x80);
  }

  lemma StrictThree(s: seq<byte>, p: nat, pe: nat, c: int)
    requires p + 3 <= pe <= |s| && Decode1(s, p, pe) == (c, p + 3) && c != UINT_MAX
    requires 0xE0 <= s[p] <= 0xEF && IsContinuation(s[p + 1]) && IsContinuation(s[p + 2])
    ensures Encode(c) == [s[p], s[p + 1], s[p + 2]]
  {
    hide Encode, Decode1, Assemble;
    Assembled(s, p, pe, c);
    AssembleDigits(0x800, 0, 0x80 + s[p] % 16, s[p + 1], s[p + 2], c);
    LeadBits(s[p]);
    LowSix(s[p + 1]);
    LowSix(s[p + 2]);
    EncodeGroups(c, 0, s[p] - 0xE0, s[p + 1] - 0x80, s[p + 2] - 0x80);
  }

  lemma StrictFour(s: seq<byte>, p: nat, pe: nat, c: int)
    requires p + 4 <= pe <= |s| && Decode1(s, p, pe) == (c, p + 4) && c != UINT_MAX
    requires 0xF0 <= s[p] <= 0xF7
    requires IsContinuation(s[p + 1]) && IsContinuation(s[p + 2]) && IsContinuation(s[p + 3])
    ensures Encode(c) == [s[p], s[p + 1], s[p + 2], s[p + 3]]
  {
    hide Encode, Decode1, Assemble;
    Assembled(s, p, pe, c);
    AssembleDigits(0x10000, s[p] % 8, s[p + 1], s[p + 2], s[p + 3], c);
    LeadBits(s[p]);
    LowSix(s[p + 1]);
    LowSix(s[p + 2]);
    LowSix(s[p + 3]);
    EncodeGroups(c, s[p] - 0xF0, s[p + 1] - 0x80, s[p + 2] - 0x80, s[p + 3] - 0x80);
  }

  /** s[p..q] is a lead byte and as many continuation bytes as the lead byte announces. */
  predicate IsStrict(s: seq<byte>, p: nat, q: nat)
    requires p < q <= |s|
  {
    AnnouncedLength(s[p]) == q - p && forall k :: p < k < q ==> IsContinuation(s[k])
  }

  lemma StrictIsEncoded(s: seq<byte>, p: nat, pe: nat)
    requires p < pe <= |s| && Decode1(s, p, pe).0 != UINT_MAX && IsStrict(s, p, Decode1(s, p, pe).1)
    ensures s[p..Decode1(s, p, pe).1] == Encode(Decode1(s, p, pe).0)
  {
    var (c, q) := Decode1(s, p, pe);
    hide Decode1;
    if q == p + 1 {
      assert s[p..q] == [s[p]];
    } else if q == p + 2 {
      StrictTwo(s, p, pe, c);
      assert s[p..q] == [s[p], s[p + 1]];
    } else if q == p + 3 {
      StrictThree(s, p, pe, c);
      assert s[p..q] == [s[p], s[p + 1], s[p + 2]];
    } else {
      StrictFour(s, p, pe, c);
      assert s[p..q] == [s[p], s[p + 1], s[p + 2], s[p + 3]];
    }
  }

  lemma EncodedShape(c: int)
    requires IsScalar(c)
    ensures 1 <= |Encode(c)| <= 4 && AnnouncedLength(Encode(c)[0]) == |Encode(c)|
    ensures forall k :: 0 < k < |Encode(c)| ==> IsContinuation(Encode(c)[k])
  {}

  /** The byte at p announces a character that ends before pe, and continuation bytes follow it. */
  predicate StartsStrict(s: seq<byte>, p: nat, pe: nat)
    requires p < pe <= |s|
  {
    var n := AnnouncedLength(s[p]);
    n >= 1 && p + n <= pe && forall k :: p < k < p + n ==> IsContinuation(s[k])
  }

  /** The decoder reads as many bytes as the lead byte announces if they are continuation bytes. */
  lemma StrictLength(s: seq<byte>, p: nat, pe: nat)
    requires p < pe <= |s| && Decode1(s, p, pe).0 != UINT_MAX
    ensures StartsStrict(s, p, pe) ==> Decode1(s, p, pe).1 == p + AnnouncedLength(s[p])
  {}

  /** The decoder accepts more than RFC 3629 allows.  What it accepts is RFC 3629 text exactly
      when the bytes after the lead byte are continuation bytes and are as many as the lead
      byte announces. */
  lemma AcceptsStrictlyIff(s: seq<byte>, p: nat, pe: nat)
    requires p < pe <= |s|
    requires Decode1(s, p, pe).0 != UINT_MAX
    ensures var (c, q) := Decode1(s, p, pe);
            s[p..q] == Encode(c) <==> StartsStrict(s, p, pe)
  {
    var (c, q) := Decode1(s, p, pe);
    StrictLength(s, p, pe);
    if StartsStrict(s, p, pe) {
      StrictIsEncoded(s, p, pe);
    }
    if s[p..q] == Encode(c) {
      EncodedShape(c);
      var e := Encode(c);
      assert s[p] == s[p..q][0];
      forall k | p < k < q ensures IsContinuation(s[k]) {
        assert s[k] == s[p..q][k - p] == e[k - p];
      }
    }
  }

  // ----- what it rejects, on the bytes alone

  /** The bytes that are read: as many as the lead byte announces, or those that are left. */
  function LengthRead(s: seq<byte>, p: nat, pe: nat): nat
    requires p < pe <= |s|
  {
    if AnnouncedLength(s[p]) <= pe - p then AnnouncedLength(s[p]) else pe - p
  }

  /** The top bits of the bytes behind the lead byte: an odd number of them has the high one, an even number
      the other one. */
  predicate TopBitsPass(s: seq<byte>, p: nat, n: nat)
    requires 2 <= n <= 4 && p + n <= |s|
  {
    match n
    case 2 => 0x80 <= s[p + 1] <= 0xBF
    case 3 => s[p + 1] / 64 == s[p + 2] / 64
    case _ =>
      && (s[p + 1] >= 0x80) == ((s[p + 2] >= 0x80) == (s[p + 3] >= 0x80))
      && (s[p + 1] / 64 % 2 == 1) == ((s[p + 2] / 64 % 2 == 1) != (s[p + 3] / 64 % 2 == 1))
  }

  /** A shorter encoding exists; lead bytes are read by their low bits. */
  predicate Overlong(s: seq<byte>, p: nat, n: nat)
    requires 2 <= n <= 4 && p + n <= |s|
  {
    match n
    case 2 => s[p] % 32 < 2
    case 3 => s[p] % 16 == 0 && s[p + 1] % 64 < 32
    case _ => s[p] % 8 == 0 && s[p + 1] % 64 < 16
  }

  predicate Surrogate(s: seq<byte>, p: nat, n: nat)
    requires 2 <= n <= 4 && p + n <= |s|
  {
    n == 3 && s[p] % 16 == 13 && s[p + 1] % 64 >= 32
  }

  predicate TooLarge(s: seq<byte>, p: nat, n: nat)
    requires 2 <= n <= 4 && p + n <= |s|
  {
    n == 4 && (s[p] % 8 > 4 || (s[p] % 8 == 4 && s[p + 1] % 64 >= 16))
  }

  predicate Rejected(s: seq<byte>, p: nat, pe: nat)
    requires p < pe <= |s|
  {
    var n := LengthRead(s, p, pe);
    s[p] >= 0x80 &&
    (n < 2 || !TopBitsPass(s, p, n) || Overlong(s, p, n) || Surrogate(s, p, n) || TooLarge(s, p, n))
  }

  /** The number in the low bits of the bytes. */
  function LowBits(s: seq<byte>, p: nat, n: nat): int
    requires 1 <= n <= 4 && p + n <= |s|
  {
    var at := (k: int) requires 0 <= k < n => s[p + k] as int;
    match n
    case 1 => at(0)
    case 2 => at(0) % 32 * 64 + at(1) % 64
    case 3 => at(0) % 16 * 4096 + at(1) % 64 * 64 + at(2) % 64
    case _ => at(0) % 8 * 262144 + at(1) % 64 * 4096 + at(2) % 64 * 64 + at(3) % 64
  }

  lemma TopBit(b: byte)
    ensures b / 64 in {0, 1, 2, 3} && (b >= 0x80 <==> b / 64 >= 2) && (0x80 <= b <= 0xBF <==> b / 64 == 2)
  {}

  lemma XorOf(b: byte, c: byte, d: byte)
    ensures Xor2(Xor2(b / 64, c / 64), d / 64) == 2 <==>
            && (b >= 0x80) == ((c >= 0x80) == (d >= 0x80))
            && (b / 64 % 2 == 1) == ((c / 64 % 2 == 1) != (d / 64 % 2 == 1))
    ensures b / 64 == 2 ==> (Xor2(Xor2(b / 64, c / 64), d / 64) == 2 <==> c / 64 == d / 64)
  {
    TopBit(b);
    TopBit(c);
    TopBit(d);
  }

  lemma RejectedTwo(s: seq<byte>, p: nat, pe: nat)
    requires p + 2 <= pe <= |s| && s[p] >= 0x80 && LengthRead(s, p, pe) == 2
    ensures Decode1(s, p, pe) == (if Rejected(s, p, pe) then UINT_MAX else LowBits(s, p, 2), p + 2)
  {
    hide Xor2;
    var b: byte := 0x80 + s[p] % 32;
    XorOf(0x80, b, s[p + 1]);
    TopBit(s[p + 1]);
    assert b / 64 == 2 && b % 64 == s[p] % 32;
  }

  lemma RejectedThree(s: seq<byte>, p: nat, pe: nat)
    requires p + 3 <= pe <= |s| && s[p] >= 0x80 && LengthRead(s, p, pe) == 3
    ensures Decode1(s, p, pe) == (if Rejected(s, p, pe) then UINT_MAX else LowBits(s, p, 3), p + 3)
  {
    hide Xor2;
    var b: byte := 0x80 + s[p] % 16;
    XorOf(b, s[p + 1], s[p + 2]);
    assert b / 64 == 2 && b % 64 == s[p] % 16;
  }

  lemma RejectedFour(s: seq<byte>, p: nat, pe: nat)
    requires p + 4 <= pe <= |s| && s[p] >= 0x80 && LengthRead(s, p, pe) == 4
    ensures Decode1(s, p, pe) == (if Rejected(s, p, pe) then UINT_MAX else LowBits(s, p, 4), p + 4)
  {
    hide Xor2;
    XorOf(s[p + 1], s[p + 2], s[p + 3]);
  }

  /** Every input is decided by its bytes: it is rejected if and only if it starts with a byte that leads no
      character or with the last byte of the range, or the top bits behind the lead byte do not pass, or it is
      overlong, a surrogate or above U+10FFFF; otherwise the low bits are the result. */
  lemma RejectsIff(s: seq<byte>, p: nat, pe: nat)
    requires p < pe <= |s|
    ensures Decode1(s, p, pe).0 == UINT_MAX <==> Rejected(s, p, pe)
    ensures !Rejected(s, p, pe) ==>
              Decode1(s, p, pe) == (LowBits(s, p, LengthRead(s, p, pe)), p + LengthRead(s, p, pe))
  {
    var n := LengthRead(s, p, pe);
    if s[p] >= 0x80 && n >= 2 {
      if n == 2 {
        RejectedTwo(s, p, pe);
      } else if n == 3 {
        RejectedThree(s, p, pe);
      } else {
        RejectedFour(s, p, pe);
      }
    }
  }

  /** A two-byte lead needs a continuation byte. */
  lemma TwoBytesNeedContinuation(s: seq<byte>, p: nat, pe: nat)
    requires p < pe <= |s| && 0xC0 <= s[p] <= 0xDF
    ensures p + 1 == pe || !IsContinuation(s[p + 1]) ==> Decode1(s, p, pe).0 == UINT_MAX
  {
    RejectsIff(s, p, pe);
  }

  /** Two accepted inputs that are not RFC 3629 text: a four-byte lead before the last two bytes,
      and three bytes whose top bits only xor to binary 10. */
  lemma AcceptsMalformed()
    ensures Decode1([0xF1, 0x80, 0x80], 0, 3) == (0x1000, 3)
    ensures Decode1([0xF1, 0xC1, 0xC1, 0x81], 0, 4) == (0x41041, 4)
  {}

  /** A character read inside a label is the one read in the whole name: moving the end bound
      anywhere that does not cut the character leaves the result unchanged. */
  lemma BoundIrrelevant(s: seq<byte>, p: nat, pe: nat, pe': nat)
    requires p < pe <= |s|
    requires Decode1(s, p, pe).0 != UINT_MAX
    requires Decode1(s, p, pe).1 <= pe' <= pe
    ensures Decode1(s, p, pe') == Decode1(s, p, pe)
  {}

  // ----- whole byte ranges

  /** The code points of s[p..pe], or None when some character is rejected. */
  function CodePoints(s: seq<byte>, p: nat, pe: nat): (r: Option<seq<uint32>>)
    requires p <= pe <= |s|
    ensures r.Some? ==> |r.value| <= pe - p && forall k :: 0 <= k < |r.value| ==> IsScalar(r.value[k])
    decreases pe - p
  {
    if p == pe then Some([])
    else
      var (c, q) := Decode1(s, p, pe);
      if c == UINT_MAX then None
      else match CodePoints(s, q, pe)
        case None => None
        case Some(rest) => Some([c] + rest)
  }

  function EncodeAll(cs: seq<uint32>): seq<byte>
    requires forall k :: 0 <= k < |cs| ==> IsScalar(cs[k])
  {
    if cs == [] then [] else Encode(cs[0]) + EncodeAll(cs[1..])
  }

  lemma TextStep(s: seq<byte>, p: nat, c: int, rest: seq<byte>) returns (q: nat)
    requires p <= |s| && IsScalar(c) && s[p..] == Encode(c) + rest
    ensures p < q <= |s| && s[q..] == rest
    ensures Decode1(s, p, |s|) == (c, q)
  {
    var e := Encode(c);
    q := p + |e|;
    EncodedShape(c);
    assert s[p..q] == s[p..][..|e|] == e;
    DecodesWellFormed(s, p, |s|, c);
    assert s[q..] == s[p..][|e|..] == rest;
  }

  /** Well-formed text decodes to what was encoded. */
  lemma {:induction false} DecodesText(cs: seq<uint32>, s: seq<byte>, p: nat)
    requires forall k :: 0 <= k < |cs| ==> IsScalar(cs[k])
    requires p <= |s| && s[p..] == EncodeAll(cs)
    ensures CodePoints(s, p, |s|) == Some(cs)
  {
    if cs != [] {
      var q := TextStep(s, p, cs[0], EncodeAll(cs[1..]));
      DecodesText(cs[1..], s, q);
      assert cs == [cs[0]] + cs[1..];
    }
  }
}
