/** WTF-8 and UTF-16 in src/idna.c: uv__wtf8_decode1 and the conversions and lengths built on it.
    Units are 16 bit numbers; surrogates need not come in pairs. */
module Wtf8 {
  import opened Basics
  import Utf8

  type char16 = x: int | 0 <= x < 0x1_0000
  type point = x: int | 0 <= x <= 0x10_FFFF

  const UV_ENOBUFS := -105

  // ----- code points

  predicate High(u: int) { 0xD800 <= u <= 0xDBFF }
  predicate Low(u: int) { 0xDC00 <= u <= 0xDFFF }

  function Pair(h: int, l: int): (c: int)
    requires High(h) && Low(l)
    ensures 0x1_0000 <= c <= 0x10_FFFF
  {
    0x1_0000 + (h - 0xD800) * 0x400 + (l - 0xDC00)
  }

  /** The code points of units: pairs are joined, other surrogates stand for themselves. */
  function CodePoints(u: seq<char16>): (c: seq<point>)
    ensures |c| <= |u|
  {
    if u == [] then []
    else if |u| >= 2 && High(u[0]) && Low(u[1]) then [Pair(u[0], u[1])] + CodePoints(u[2..])
    else [u[0]] + CodePoints(u[1..])
  }

  /** The units of a code point. */
  function Units(c: point): (u: seq<char16>)
    ensures |u| == if c > 0xFFFF then 2 else 1
  {
    if c > 0xFFFF then [0xD800 + (c - 0x1_0000) / 0x400, 0xDC00 + (c - 0x1_0000) % 0x400] else [c]
  }

  function AllUnits(c: seq<point>): (u: seq<char16>) {
    if c == [] then [] else Units(c[0]) + AllUnits(c[1..])
  }

  /** Joining and splitting pairs. */
  lemma {:induction false} UnitsOfCodePoints(u: seq<char16>)
    ensures AllUnits(CodePoints(u)) == u
    decreases |u|
  {
    if u != [] {
      if |u| >= 2 && High(u[0]) && Low(u[1]) {
        UnitsOfCodePoints(u[2..]);
        UnitsOfPair(u[0], u[1]);
        assert u == [u[0], u[1]] + u[2..];
      } else {
        UnitsOfCodePoints(u[1..]);
      }
    }
  }

  lemma UnitsOfPair(h: int, l: int)
    requires High(h) && Low(l)
    ensures Units(Pair(h, l)) == [h, l]
  {}

  /** U+1F600 is the pair D83D DE00. */
  lemma PairSample()
    ensures Pair(0xD83D, 0xDE00) == 0x1F600 && Units(0x1F600) == [0xD83D, 0xDE00]
  {}

  // ----- bytes of a code point, surrogates included

  function Encode1(c: point): (b: seq<byte>)
    ensures 1 <= |b| <= 4 && (c != 0 ==> forall i :: 0 <= i < |b| ==> b[i] != 0)
  {
    if c < 0x80 then [c]
    else if c < 0x800 then [0xC0 + c / 64, 0x80 + c % 64]
    else if c < 0x1_0000 then [0xE0 + c / 4096, 0x80 + c / 64 % 64, 0x80 + c % 64]
    else [0xF0 + c / 262144, 0x80 + c / 4096 % 64, 0x80 + c / 64 % 64, 0x80 + c % 64]
  }

  function EncodeAll(c: seq<point>): (b: seq<byte>) {
    if c == [] then [] else Encode1(c[0]) + EncodeAll(c[1..])
  }

  /** The WTF-8 of units. */
  function Wtf8Of(u: seq<char16>): seq<byte> {
    EncodeAll(CodePoints(u))
  }

  predicate Continues(b: byte) { 0x80 <= b < 0xC0 }

  /** The bits of a lead byte, modulo what its mask leaves, and of the bytes after it. */
  function Two(a: int, b: int): int { a % 32 * 64 + b % 64 }
  function Three(a: int, b: int, c: int): int { a % 16 * 4096 + b % 64 * 64 + c % 64 }
  function Four(a: int, b: int, c: int, d: int): int { a % 8 * 262144 + b % 64 * 4096 + c % 64 * 64 + d % 64 }

  /** uv__wtf8_decode1 at the head of s, which a NUL terminates: the code point, or -1, and the number of
      bytes the cursor is advanced. */
  function Decode1(s: seq<byte>): (r: (int, nat))
    requires 0 in s
    ensures r.1 < |s| && -1 <= r.0 <= 0x10_FFFF && (s[0] == 0 ==> r == (0, 0))
    ensures s[0] != 0 && r.0 >= 0 ==> s[r.1] != 0 && 0 in s[r.1 + 1..]
  {
    if s[0] < 0x80 then (s[0], 0)
    else if s[0] < 0xC2 then (-1, 0)
    else if !Continues(s[1]) then (-1, 1)
    else if s[0] <= 0xDF then (Two(s[0], s[1]), 1)
    else if !Continues(s[2]) then (-1, 2)
    else if s[0] <= 0xEF then (Three(s[0], s[1], s[2]), 2)
    else if !Continues(s[3]) then (-1, 3)
    else if s[0] <= 0xF4 && Four(s[0], s[1], s[2], s[3]) <= 0x10_FFFF then (Four(s[0], s[1], s[2], s[3]), 3)
    else (-1, 3)
  }

  lemma TwoMasks(c: int)
    requires 0 <= c < 0x800
    ensures Two(0xC0 + c / 64, 0x80 + c % 64) == c
  {}

  lemma ThreeMasks(c: int)
    requires 0 <= c < 0x1_0000
    ensures Three(0xE0 + c / 4096, 0x80 + c / 64 % 64, 0x80 + c % 64) == c
  {
    Utf8.SixBitGroups(c);
    var m, l := c / 64 % 64, c % 64;
    assert (0x80 + m) % 64 == m && (0x80 + l) % 64 == l;
    assert (0xE0 + c / 4096) % 16 == c / 4096;
  }

  lemma FourMasks(c: int)
    requires 0 <= c <= 0x10_FFFF
    ensures Four(0xF0 + c / 262144, 0x80 + c / 4096 % 64, 0x80 + c / 64 % 64, 0x80 + c % 64) == c
  {
    Utf8.SixBitGroups(c);
    var h, m, l := c / 4096 % 64, c / 64 % 64, c % 64;
    assert (0x80 + h) % 64 == h && (0x80 + m) % 64 == m && (0x80 + l) % 64 == l;
    assert (0xF0 + c / 262144) % 8 == c / 262144;
  }

  lemma DecodesAt(b: seq<byte>, s: seq<byte>, c: int)
    requires 0 < c <= 0x10_FFFF && b == Encode1(c) && 0 in s
    requires |b| <= |s| && forall i :: 0 <= i < |b| ==> s[i] == b[i]
    ensures Decode1(s) == (c, |b| - 1)
  {
    if c < 0x800 {
      TwoMasks(c);
    } else if c < 0x1_0000 {
      ThreeMasks(c);
    } else {
      FourMasks(c);
    }
  }

  /** Every code point but 0, surrogates included, is decoded from its bytes. */
  lemma Decodes(c: int, t: seq<byte>)
    requires 0 < c <= 0x10_FFFF && 0 in t
    ensures 0 in Encode1(c) + t && Decode1(Encode1(c) + t) == (c, |Encode1(c)| - 1)
  {
    var b := Encode1(c);
    var s := b + t;
    assert t == s[|b|..];
    DecodesAt(b, s, c);
  }

  // ----- what it rejects, on the bytes alone

  /** A lead byte and as many continuation bytes as it announces, not above U+10FFFF. */
  predicate IsAccepted(s: seq<byte>) {
    var n := if s == [] then 0 else Utf8.AnnouncedLength(s[0]);
    && 1 <= n <= |s| && (forall k :: 1 <= k < n ==> Utf8.IsContinuation(s[k]))
    && (n == 2 ==> s[0] >= 0xC2) && (n == 4 ==> s[0] < 0xF4 || (s[0] == 0xF4 && s[1] < 0x90))
  }

  /** A three or four byte form of a code point that has a shorter one. */
  predicate IsOverlong(s: seq<byte>) {
    |s| >= 2 && ((s[0] == 0xE0 && s[1] < 0xA0) || (s[0] == 0xF0 && s[1] < 0x90))
  }

  lemma Announced(s: seq<byte>)
    requires s != [] && IsAccepted(s)
    ensures Utf8.AnnouncedLength(s[0]) >= 2 ==> |s| >= 2 && Utf8.IsContinuation(s[1])
    ensures Utf8.AnnouncedLength(s[0]) >= 3 ==> |s| >= 3 && Utf8.IsContinuation(s[2])
    ensures Utf8.AnnouncedLength(s[0]) == 4 ==> |s| >= 4 && Utf8.IsContinuation(s[3])
  {}

  /** Every input is decided by its bytes: the low bits of an accepted character are the code point, everything
      else is rejected. */
  lemma RejectsIff(s: seq<byte>)
    requires 0 in s
    ensures Decode1(s).0 == -1 <==> !IsAccepted(s)
    ensures IsAccepted(s) ==>
              var n := Utf8.AnnouncedLength(s[0]); Decode1(s) == (Utf8.LowBits(s, 0, n), n - 1)
  {
    if IsAccepted(s) {
      Announced(s);
      if Utf8.AnnouncedLength(s[0]) == 4 {
        FourBounded(s[0], s[1], s[2], s[3]);
      }
    } else if |s| >= 4 && 0xF0 <= s[0] <= 0xF4 && Utf8.IsContinuation(s[1]) {
      FourBounded(s[0], s[1], s[2], s[3]);
    }
  }

  lemma FourBounded(a: byte, b: byte, c: byte, d: byte)
    requires 0xF0 <= a <= 0xF4 && Utf8.IsContinuation(b)
    ensures Four(a, b, c, d) <= 0x10_FFFF <==> a < 0xF4 || b < 0x90
  {
    assert b % 64 == b - 0x80 && a % 8 == a - 0xF0;
  }

  /** Overlong forms of three and four bytes are accepted; the other accepted characters are the bytes of their
      code point. */
  lemma EncodedIff(s: seq<byte>)
    requires 0 in s && IsAccepted(s)
    ensures s[..Decode1(s).1 + 1] == Encode1(Decode1(s).0) <==> !IsOverlong(s)
  {
    RejectsIff(s);
    Announced(s);
    hide Decode1, IsAccepted, Encode1;
    var n := Utf8.AnnouncedLength(s[0]);
    var c := Utf8.LowBits(s, 0, n);
    match n {
      case 1 =>
        Lengths(c);
        assert s[..1] == [s[0]];
      case 2 =>
        EncodedTwo(s[0], s[1]);
        assert s[..2] == [s[0], s[1]];
      case 3 =>
        EncodedThree(s[0], s[1], s[2]);
        assert s[..3] == [s[0], s[1], s[2]];
      case _ =>
        EncodedFour(s[0], s[1], s[2], s[3]);
        assert s[..4] == [s[0], s[1], s[2], s[3]];
    }
  }

  lemma Lengths(c: point)
    ensures |Encode1(c)| == if c < 0x80 then 1 else if c < 0x800 then 2 else if c < 0x1_0000 then 3 else 4
    ensures c < 0x80 ==> Encode1(c) == [c]
  {}

  lemma EncodedTwo(a: byte, b: byte)
    requires 0xC2 <= a <= 0xDF && Utf8.IsContinuation(b)
    ensures Encode1(Two(a, b)) == [a, b]
  {
    Utf8.LowSix(b);
    assert a % 32 == a - 0xC0;
    Utf8.GroupsOf(Two(a, b), 0, 0, a - 0xC0, b - 0x80);
  }

  lemma EncodedThree(a: byte, b: byte, c: byte)
    requires 0xE0 <= a <= 0xEF && Utf8.IsContinuation(b) && Utf8.IsContinuation(c)
    ensures 0 <= Three(a, b, c) < 0x1_0000
    ensures Encode1(Three(a, b, c)) == [a, b, c] <==> !(a == 0xE0 && b < 0xA0)
  {
    Utf8.LowSix(b);
    Utf8.LowSix(c);
    assert a % 16 == a - 0xE0;
    Utf8.GroupsOf(Three(a, b, c), 0, a - 0xE0, b - 0x80, c - 0x80);
    assert Three(a, b, c) < 0x800 <==> a == 0xE0 && b < 0xA0;
  }

  lemma EncodedFour(a: byte, b: byte, c: byte, d: byte)
    requires 0xF0 <= a <= 0xF4 && (a == 0xF4 ==> b < 0x90)
    requires Utf8.IsContinuation(b) && Utf8.IsContinuation(c) && Utf8.IsContinuation(d)
    ensures 0 <= Four(a, b, c, d) <= 0x10_FFFF
    ensures Encode1(Four(a, b, c, d)) == [a, b, c, d] <==> !(a == 0xF0 && b < 0x90)
  {
    Utf8.LowSix(b);
    Utf8.LowSix(c);
    Utf8.LowSix(d);
    assert a % 8 == a - 0xF0;
    Utf8.GroupsOf(Four(a, b, c, d), a - 0xF0, b - 0x80, c - 0x80, d - 0x80);
    assert Four(a, b, c, d) < 0x1_0000 <==> a == 0xF0 && b < 0x90;
  }

  /** E0 80 80 is accepted as U+0000, and so it does not end the text. */
  lemma AcceptsOverlong()
    ensures Decode1([0xE0, 0x80, 0x80, 0x00]) == (0, 2) && DecodeAll([0xE0, 0x80, 0x80, 0x00]) == Some([0])
  {
    var s: seq<byte> := [0xE0, 0x80, 0x80, 0x00];
    assert s[3..] == [0x00] && DecodeAll(s[3..]) == Some([]);
    assert Decode1(s) == (0, 2) && 0 in s && s[0] != 0;
    var none: seq<point> := [];
    assert DecodeAll(s) == Some([0] + none) && [0] + none == [0];
  }

  // ----- from WTF-8 to UTF-16

  /** The code points before the NUL, or None where the bytes are not WTF-8. */
  function DecodeAll(s: seq<byte>): (r: Option<seq<point>>)
    requires 0 in s
    decreases |s|
  {
    if s[0] == 0 then Some([])
    else
      var (c, k) := Decode1(s);
      if c < 0 then None
      else
        match DecodeAll(s[k + 1..])
        case None => None
        case Some(rest) => Some([c] + rest)
  }

  lemma DecodeEncoded1(c: int, t: seq<byte>)
    requires 0 < c <= 0x10_FFFF && 0 in t && DecodeAll(t).Some?
    ensures 0 in Encode1(c) + t && DecodeAll(Encode1(c) + t) == Some([c] + DecodeAll(t).value)
  {
    Decodes(c, t);
    var b := Encode1(c);
    assert (b + t)[|b|..] == t && (b + t)[0] == b[0];
  }

  lemma Wtf8Head(u: seq<char16>) returns (c: point, rest: seq<char16>)
    requires u != [] && 0 !in u
    ensures c != 0 && |rest| < |u| && 0 !in rest
    ensures CodePoints(u) == [c] + CodePoints(rest) && Wtf8Of(u) == Encode1(c) + Wtf8Of(rest)
  {
    c := CodePoints(u)[0];
    rest := if |u| >= 2 && High(u[0]) && Low(u[1]) then u[2..] else u[1..];
    assert CodePoints(u) == [c] + CodePoints(rest);
  }

  /** Decoding what was encoded, up to the NUL behind it. */
  lemma {:induction false} DecodesEncoded(u: seq<char16>, z: seq<byte>)
    requires 0 !in u && z != [] && z[0] == 0
    ensures 0 in Wtf8Of(u) + z && DecodeAll(Wtf8Of(u) + z) == Some(CodePoints(u))
    decreases |u|
  {
    if u == [] {
      assert (Wtf8Of(u) + z)[0] == 0;
    } else {
      var c, rest := Wtf8Head(u);
      DecodesEncoded(rest, z);
      DecodeEncoded1(c, Wtf8Of(rest) + z);
      Associative(Encode1(c), Wtf8Of(rest), z);
    }
  }

  function Prepend(c: point, rest: Option<seq<point>>): Option<seq<point>> {
    match rest
    case None => None
    case Some(r) => Some([c] + r)
  }

  lemma Prepended(c: point, o: Option<seq<point>>, rest: seq<point>)
    requires Prepend(c, o) == Some(rest)
    ensures rest != [] && rest[0] == c && o == Some(rest[1..])
  {}

  /** The bytes from p on give rest. */
  ghost predicate Gives(s: seq<byte>, p: int, rest: Option<seq<point>>) {
    0 <= p < |s| && 0 in s[p..] && DecodeAll(s[p..]) == rest
  }

  /** uv__wtf8_decode1 moves its cursor to the last byte of the code point. */
  method Next(s: seq<byte>, p: int, ghost rest: Option<seq<point>>)
    returns (c: int, q: int, ghost more: Option<seq<point>>)
    requires Gives(s, p, rest)
    ensures -1 <= c <= 0x10_FFFF && p <= q < |s|
    ensures c < 0 ==> rest == None
    ensures c >= 0 && s[q] == 0 ==> c == 0 && rest == Some([])
    ensures c >= 0 && s[q] != 0 ==> rest == Prepend(c, more) && Gives(s, q + 1, more)
  {
    var r := Decode1(s[p..]);
    c, q, more := r.0, p + r.1, None;
    if s[p] != 0 && c >= 0 {
      assert s[p..][r.1 + 1..] == s[q + 1..];
      more := DecodeAll(s[q + 1..]);
    }
  }

  /** n units more than those of the code points and a final NUL, or -1. */
  function Counted(n: nat, rest: Option<seq<point>>): int {
    if rest == None then -1 else n + |AllUnits(rest.value)| + 1
  }

  lemma CountedIs(n: nat, rest: Option<seq<point>>)
    ensures Counted(n, rest) == if rest == None then -1 else n + |AllUnits(rest.value)| + 1
    ensures AllUnits([]) == [] && AllUnits([0]) == [0]
  {}

  lemma CountOne(n: nat, c: point, more: Option<seq<point>>)
    ensures Counted(n, Prepend(c, more)) == Counted(n + |Units(c)|, more)
  {}

  /** uv_wtf8_length_as_utf16: the units of the code points and a NUL, or -1 if they are not WTF-8. */
  method LengthAsUtf16(source: seq<byte>) returns (n: int)
    requires 0 in source
    ensures n == if DecodeAll(source) == None then -1 else |AllUnits(DecodeAll(source).value)| + 1
  {
    hide DecodeAll, AllUnits, Counted, Prepend, Units;
    var p := 0;
    n := 0;
    ghost var all, rest := DecodeAll(source), DecodeAll(source);
    CountedIs(0, all);
    assert source[0..] == source;
    while true
      invariant Gives(source, p, rest) && n >= 0 && Counted(n, rest) == Counted(0, all)
      decreases |source| - p
    {
      var c, q;
      ghost var more;
      c, q, more := Next(source, p, rest);
      CountedIs(n, rest);
      if c < 0 {
        return -1;
      }
      CountOne(n, c, more);
      n := n + if c > 0xFFFF then 2 else 1;
      if source[q] == 0 {
        break;
      }
      p, rest := q + 1, more;
    }
  }

  /** The units that uv_wtf8_to_utf16 writes for one code point; ok is false where it asserts. */
  method PutUnits(c: point, target: array<char16>, at: nat) returns (ok: bool, next: nat)
    requires at + |Units(c)| <= target.Length
    modifies target
    ensures ok <==> c != 0x10_FFFF
    ensures ok ==> next == at + (if c == 0x1_0000 then 1 else |Units(c)|) && target[..at] == old(target[..at])
    ensures ok && c != 0x1_0000 ==> target[..next] == old(target[..at]) + Units(c)
  {
    if c > 0x1_0000 {
      if c >= 0x10_FFFF {
        return false, at;
      }
      target[at] := (c - 0x1_0000) / 0x400 + 0xD800;
      target[at + 1] := (c - 0x1_0000) % 0x400 + 0xDC00;
      next := at + 2;
    } else {
      target[at] := c % 0x1_0000;
      next := at + 1;
    }
    ok := true;
  }

  /** The code points done have been written as units; lost of them were U+10000, which writes one unit
      where two were counted. */
  ghost predicate Converting(all: seq<point>, done: seq<point>, rest: seq<point>, lost: nat, units: seq<char16>) {
    && all == done + rest
    && 0x10_FFFF !in done && (lost == 0 <==> 0x1_0000 !in done)
    && |units| + |AllUnits(rest)| + lost == |AllUnits(all)|
    && (lost == 0 ==> units + AllUnits(rest) == AllUnits(all))
  }

  lemma Converted(all: seq<point>, done: seq<point>, rest: seq<point>, lost: nat, units: seq<char16>)
    requires Converting(all, done, rest, lost, units)
    ensures rest != [] && rest[0] == 0x10_FFFF ==> 0x10_FFFF in all
    ensures rest == [] ==>
              && 0x10_FFFF !in all && (lost == 0 <==> 0x1_0000 !in all)
              && |units| + lost == |AllUnits(all)| && (lost == 0 ==> units == AllUnits(all))
  {
    assert rest == [] ==> done == all;
    assert rest != [] ==> rest[0] in all;
  }

  lemma ConvertStep(all: seq<point>, done: seq<point>, rest: seq<point>, lost: nat, units: seq<char16>, units': seq<char16>)
    requires Converting(all, done, rest, lost, units) && rest != [] && rest[0] != 0x10_FFFF
    requires |units'| == |units| + if rest[0] == 0x1_0000 then 1 else |Units(rest[0])|
    requires rest[0] != 0x1_0000 ==> units' == units + Units(rest[0])
    ensures Converting(all, done + [rest[0]], rest[1..], lost + (if rest[0] == 0x1_0000 then 1 else 0), units')
  {}

  /** The next code point of text that is WTF-8; at its end the NUL. */
  method NextOf(s: seq<byte>, p: int, ghost rest: seq<point>) returns (c: point, q: int)
    requires Gives(s, p, Some(rest))
    ensures p <= q < |s| && (s[q] == 0 <==> rest == [])
    ensures rest == [] ==> c == 0
    ensures rest != [] ==> c == rest[0] && Gives(s, q + 1, Some(rest[1..]))
  {
    var d;
    ghost var more;
    d, q, more := Next(s, p, Some(rest));
    c := d;
    if s[q] != 0 {
      Prepended(c, more, rest);
    }
  }

  /** One turn of the loop of uv_wtf8_to_utf16. */
  method Turn(source: seq<byte>, p: int, target: array<char16>, at: nat, ghost all: seq<point>,
              ghost done: seq<point>, ghost rest: seq<point>, ghost lost: nat)
    returns (ok: bool, q: int, next: nat, ghost lost': nat)
    requires at <= |AllUnits(all)| < target.Length
    requires Gives(source, p, Some(rest)) && Converting(all, done, rest, lost, target[..at])
    modifies target
    ensures p <= q < |source| && (source[q] == 0 <==> rest == [])
    ensures rest == [] ==> ok && next == at + 1 && target[..next] == old(target[..at]) + [0]
    ensures rest != [] ==> (ok <==> rest[0] != 0x10_FFFF)
    ensures rest != [] && ok ==> Gives(source, q + 1, Some(rest[1..])) && at < next <= |AllUnits(all)|
                                 && Converting(all, done + [rest[0]], rest[1..], lost', target[..next])
  {
    ghost var units := target[..at];
    var c;
    c, q := NextOf(source, p, rest);
    ok, next := PutUnits(c, target, at);
    lost' := lost + if c == 0x1_0000 then 1 else 0;
    if ok && rest != [] {
      ConvertStep(all, done, rest, lost, units, target[..next]);
    }
  }

  /** uv_wtf8_to_utf16, for a length that uv_wtf8_length_as_utf16 has returned: it gives the units of the
      code points exactly if U+10000 and U+10FFFF are not among them; with either, an assertion of the
      source fails, and then ok is false. */
  method ToUtf16(source: seq<byte>, target: array<char16>, length: nat) returns (ok: bool)
    requires 0 in source && DecodeAll(source).Some?
    requires length == |AllUnits(DecodeAll(source).value)| + 1 <= target.Length
    modifies target
    ensures ok <==> 0x1_0000 !in DecodeAll(source).value && 0x10_FFFF !in DecodeAll(source).value
    ensures ok ==> target[..length] == AllUnits(DecodeAll(source).value) + [0]
  {
    var p, at, left := 0, 0, length;
    ghost var all, done, rest, lost := DecodeAll(source).value, [], DecodeAll(source).value, 0;
    assert source[0..] == source && Gives(source, 0, Some(all));
    assert Converting(all, done, rest, lost, target[..at]);
    hide AllUnits, DecodeAll, Gives, Converting;
    while true
      invariant Gives(source, p, Some(rest))
      invariant 0 <= at < length == |AllUnits(all)| + 1 && left == length - at
      invariant Converting(all, done, rest, lost, target[..at])
      decreases |source| - p
    {
      var q, next;
      ghost var lost';
      ghost var units := target[..at];
      ok, q, next, lost' := Turn(source, p, target, at, all, done, rest, lost);
      if !ok {
        Converted(all, done, rest, lost, units);
        return;
      }
      left := left - (next - at);
      at := next;
      if source[q] == 0 {
        Converted(all, done, rest, lost, units);
        break;
      }
      lost := lost';
      done, rest := done + [rest[0]], rest[1..];
      p := q + 1;
    }
    ok := left == 0;
  }

  // ----- the round trip

  predicate HasPair(u: seq<char16>, h: int, l: int) {
    exists i :: 0 <= i < |u| - 1 && u[i] == h && u[i + 1] == l
  }

  lemma PairIsInjective(h: int, l: int, h': int, l': int)
    requires High(h) && Low(l) && High(h') && Low(l')
    ensures Pair(h, l) == Pair(h', l') <==> h == h' && l == l'
  {}

  /** A high surrogate followed by a low one is always joined. */
  lemma {:induction false} JoinedPairs(u: seq<char16>, h: int, l: int)
    requires High(h) && Low(l)
    ensures Pair(h, l) in CodePoints(u) <==> HasPair(u, h, l)
    decreases |u|
  {
    if |u| >= 2 && High(u[0]) && Low(u[1]) {
      JoinedPairs(u[2..], h, l);
      PairIsInjective(h, l, u[0], u[1]);
      assert forall i :: 2 <= i < |u| ==> u[i] == u[2..][i - 2];
      assert CodePoints(u) == [Pair(u[0], u[1])] + CodePoints(u[2..]);
    } else if u != [] {
      JoinedPairs(u[1..], h, l);
      assert forall i :: 1 <= i < |u| ==> u[i] == u[1..][i - 1];
      assert CodePoints(u) == [u[0]] + CodePoints(u[1..]);
    }
  }

  /** What UTF-16 to WTF-8 to UTF-16 does to units without a NUL: the code points are those of u and their
      units are u again, so ToUtf16 returns u and the NUL exactly if u does not hold the pair D800 DC00 or
      the pair DBFF DFFF; and LengthAsUtf16 returns |u| + 1. */
  lemma RoundTrip(u: seq<char16>)
    requires 0 !in u
    ensures 0 in Wtf8Of(u) + [0] && DecodeAll(Wtf8Of(u) + [0]) == Some(CodePoints(u))
    ensures AllUnits(CodePoints(u)) == u
    ensures 0x1_0000 in CodePoints(u) <==> HasPair(u, 0xD800, 0xDC00)
    ensures 0x10_FFFF in CodePoints(u) <==> HasPair(u, 0xDBFF, 0xDFFF)
  {
    hide CodePoints, AllUnits, DecodeAll, EncodeAll, HasPair;
    DecodesEncoded(u, [0]);
    UnitsOfCodePoints(u);
    JoinedPairs(u, 0xD800, 0xDC00);
    JoinedPairs(u, 0xDBFF, 0xDFFF);
  }

  // ----- from UTF-16 to WTF-8

  /** A source of n units, or one that a NUL terminates if n is negative. */
  predicate IsSource(w: seq<char16>, n: int) {
    if n >= 0 then n <= |w| else 0 in w
  }

  function UpToNul(w: seq<char16>): (u: seq<char16>)
    ensures 0 !in u && u <= w
  {
    if w == [] || w[0] == 0 then [] else [w[0]] + UpToNul(w[1..])
  }

  function Given(w: seq<char16>, n: int): (u: seq<char16>)
    requires IsSource(w, n)
  {
    if n >= 0 then w[..n] else UpToNul(w)
  }

  /** What is left of n units, or of a NUL terminated source, when k have been read. */
  function Less(n: int, k: int): int { if n > 0 then n - k else n }

  /** uv__get_surrogate_value */
  method SurrogateValue(w: seq<char16>, n: int) returns (c: point)
    requires IsSource(w, n) && n != 0
    ensures if n < 0 then c == 0 <==> Given(w, n) == [] else Given(w, n) != []
    ensures Given(w, n) != [] ==> IsHead(w, n, c)
  {
    var u: int := w[0];
    if High(u) && n != 1 {
      var next: int := w[1];
      if Low(next) {
        c := 0x1_0000 + (u - 0xD800) * 0x400 + (next - 0xDC00);
        HeadPair(w, n);
        return;
      }
    }
    HeadSingle(w, n);
    c := u;
  }

  /** c is the first code point, and the others are those of the rest. */
  ghost predicate IsHead(w: seq<char16>, n: int, c: point)
    requires IsSource(w, n)
  {
    var k := if c > 0xFFFF then 2 else 1;
    && k <= |w| && IsSource(w[k..], Less(n, k)) && (n > 0 ==> k <= n)
    && CodePoints(Given(w, n)) == [c] + CodePoints(Given(w[k..], Less(n, k)))
  }

  lemma HeadPair(w: seq<char16>, n: int)
    requires IsSource(w, n) && n != 0 && n != 1 && |w| >= 2 && High(w[0]) && Low(w[1])
    ensures IsHead(w, n, Pair(w[0], w[1])) && Given(w, n) != []
  {
    var u := Given(w, n);
    if n > 0 {
      assert u[2..] == w[2..][..n - 2];
    } else {
      assert w == [w[0], w[1]] + w[2..];
      assert UpToNul(w) == [w[0]] + UpToNul(w[1..]) && UpToNul(w[1..]) == [w[1]] + UpToNul(w[1..][1..]);
      assert w[1..][1..] == w[2..] && u[2..] == UpToNul(w[2..]);
    }
  }

  lemma HeadSingle(w: seq<char16>, n: int)
    requires IsSource(w, n) && n != 0
    requires High(w[0]) && n != 1 ==> |w| >= 2 && !Low(w[1])
    ensures Given(w, n) != [] ==> IsHead(w, n, w[0])
  {
    var u := Given(w, n);
    assert w == [w[0]] + w[1..];
    if n > 0 {
      assert u[1..] == w[1..][..n - 1];
    } else if u != [] {
      assert u[1..] == UpToNul(w[1..]);
    }
  }

  /** uv_utf16_length_as_wtf8 */
  method LengthAsWtf8(source: seq<char16>, length: int) returns (size: nat)
    requires IsSource(source, length)
    ensures size == |Wtf8Of(Given(source, length))|
  {
    var w, n := source, length;
    size := 0;
    while n != 0
      invariant IsSource(w, n) && size + |Wtf8Of(Given(w, n))| == |Wtf8Of(Given(source, length))|
      decreases |w|
    {
      var c := SurrogateValue(w, n);
      if n < 0 && c == 0 {
        break;
      }
      size := size + if c < 0x80 then 1 else if c < 0x800 then 2 else if c < 0x1_0000 then 3 else 4;
      var k := if c < 0x1_0000 then 1 else 2;
      w, n := w[k..], Less(n, k);
    }
  }

  /** The bytes of one code point up to the end of the buffer; cut if they do not all fit. */
  method PutBytes(c: point, target: array<byte>, at: nat, end: nat) returns (next: nat, cut: bool)
    requires at < end < target.Length
    modifies target
    ensures cut <==> at + |Encode1(c)| > end
    ensures next == (if cut then end else at + |Encode1(c)|)
    ensures target[..next] == old(target[..at]) + Encode1(c)[..next - at]
  {
    var b := Encode1(c);
    next, cut := at, false;
    for i := 0 to |b|
      invariant next == at + i && next <= end && target[..next] == old(target[..at]) + b[..i]
    {
      if i > 0 && next == end {
        cut := true;
        return;
      }
      target[next] := b[i];
      next := next + 1;
    }
  }

  /** Whether the first code point of a source has room. */
  predicate FirstFits(u: seq<char16>, capacity: nat) {
    u != [] ==> |Encode1(CodePoints(u)[0])| <= capacity
  }

  /** In the loop of uv_utf16_to_wtf8: done is the text written so far, whole code points of all, and
      the rest is that of w; size is the variable target_len. */
  ghost predicate Filling(source: seq<char16>, length: int, w: seq<char16>, n: int, done: seq<byte>, size: nat,
                          capacity: nat)
    requires IsSource(source, length) && IsSource(w, n)
  {
    && Wtf8Of(Given(source, length)) == done + Wtf8Of(Given(w, n)) && |done| <= capacity
    && size == (if done == [] then capacity else |done|)
    && (if done == [] then Given(w, n) == Given(source, length) else FirstFits(Given(source, length), capacity))
  }

  lemma FillStart(source: seq<char16>, length: int, capacity: nat)
    requires IsSource(source, length)
    ensures Filling(source, length, source, length, [], capacity, capacity)
  {
    assert [] + Wtf8Of(Given(source, length)) == Wtf8Of(Given(source, length));
  }

  lemma FillEnd(source: seq<char16>, length: int, w: seq<char16>, n: int, done: seq<byte>, size: nat, capacity: nat)
    requires IsSource(source, length) && IsSource(w, n) && Filling(source, length, w, n, done, size, capacity)
    requires Given(w, n) == []
    ensures Filling(source, length, w, 0, done, size, capacity)
  {}

  lemma FillStep(source: seq<char16>, length: int, w: seq<char16>, n: int, done: seq<byte>, size: nat, capacity: nat,
                 c: point)
    requires IsSource(source, length) && IsSource(w, n) && Filling(source, length, w, n, done, size, capacity)
    requires Given(w, n) != [] && IsHead(w, n, c)
    ensures var k := if c > 0xFFFF then 2 else 1; k <= |w| && IsSource(w[k..], Less(n, k))
    ensures var k := if c > 0xFFFF then 2 else 1;
            |done| + |Encode1(c)| <= capacity ==>
              Filling(source, length, w[k..], Less(n, k), done + Encode1(c), |done + Encode1(c)|, capacity)
    ensures |done| + |Encode1(c)| > capacity ==>
              && |Wtf8Of(Given(source, length))| > capacity
              && Wtf8Of(Given(source, length))[..capacity] == done + Encode1(c)[..capacity - |done|]
              && (done == [] ==> !FirstFits(Given(source, length), capacity))
  {
    var k := if c > 0xFFFF then 2 else 1;
    var rest := Wtf8Of(Given(w[k..], Less(n, k)));
    assert Wtf8Of(Given(w, n)) == Encode1(c) + rest;
    Associative(done, Encode1(c), rest);
  }

  /** The loop of uv_utf16_to_wtf8, which ends with the source, at the end of the buffer, or within a code
      point. */
  method FillLoop(source: seq<char16>, length: int, target: array<byte>, capacity: nat)
    returns (w: seq<char16>, n: int, at: nat, size: nat, ghost done: seq<byte>)
    requires IsSource(source, length) && target.Length == capacity + 1
    modifies target
    ensures IsSource(w, n) && Filling(source, length, w, n, done, size, capacity)
    ensures at <= capacity && (n != 0 ==> at == capacity)
    ensures target[..at] == done || Cut(source, length, w, n, target[..at], done, capacity)
  {
    hide Wtf8Of, Encode1, FirstFits, Filling, Given, IsHead;
    w, n, at, size, done := source, length, 0, capacity, [];
    FillStart(source, length, capacity);
    while at != capacity && n != 0
      invariant IsSource(w, n) && Filling(source, length, w, n, done, size, capacity)
      invariant at == |done| <= capacity && target[..at] == done
      decreases |w|
    {
      var c := SurrogateValue(w, n);
      if n < 0 && c == 0 {
        FillEnd(source, length, w, n, done, size, capacity);
        n := 0;
        return;
      }
      FillStep(source, length, w, n, done, size, capacity, c);
      var cut;
      at, cut := PutBytes(c, target, at, capacity);
      if cut {
        return;
      }
      size := at;
      var k := if c < 0x1_0000 then 1 else 2;
      w, n := w[k..], Less(n, k);
      done := done + Encode1(c);
    }
  }

  /** The buffer ended within the code point at w. */
  ghost predicate Cut(source: seq<char16>, length: int, w: seq<char16>, n: int, written: seq<byte>, done: seq<byte>,
                      capacity: nat)
    requires IsSource(source, length) && IsSource(w, n)
  {
    && n != 0 && Given(w, n) != [] && |Wtf8Of(Given(source, length))| > capacity
    && written == Wtf8Of(Given(source, length))[..capacity]
    && (done == [] ==> !FirstFits(Given(source, length), capacity))
  }

  lemma NothingLeft(w: seq<char16>, n: int)
    requires IsSource(w, n)
    ensures Wtf8Of(Given(w, n)) == [] <==> n == 0 || (n < 0 && w[0] == 0)
  {}

  /** The size that uv_utf16_to_wtf8 reports for a buffer. */
  function ReportedSize(u: seq<char16>, capacity: nat): nat {
    |Wtf8Of(u)| + if FirstFits(u, capacity) then 0 else capacity
  }

  lemma FittingStarts(u: seq<char16>, capacity: nat)
    requires |Wtf8Of(u)| <= capacity
    ensures FirstFits(u, capacity)
  {
    if u != [] {
      assert Wtf8Of(u) == Encode1(CodePoints(u)[0]) + EncodeAll(CodePoints(u)[1..]);
    }
  }

  /** uv_utf16_to_wtf8 into a buffer of a given capacity, to which it adds a NUL.  If the text fits, it is
      written and its size reported.  Else as much as fits is written, and the size of the whole text is
      reported, but not when the first code point has no room: then the capacity is added to it. */
  method FillBuffer(source: seq<char16>, length: int, target: array<byte>, capacity: nat)
    returns (code: int, size: nat)
    requires IsSource(source, length) && target.Length == capacity + 1
    modifies target
    ensures var all := Wtf8Of(Given(source, length));
            && code == (if |all| <= capacity then 0 else UV_ENOBUFS)
            && (code == 0 ==> target[..|all| + 1] == all + [0] && size == |all|)
            && (code != 0 ==> target[..] == all[..capacity] + [0])
            && size == ReportedSize(Given(source, length), capacity)
  {
    var w, n, at;
    ghost var done;
    w, n, at, size, done := FillLoop(source, length, target, capacity);
    NothingLeft(w, n);
    if n < 0 && at == capacity && w[0] == 0 {
      n := 0;
    }
    target[at] := 0;
    assert target[..at + 1] == target[..at] + [0];
    if n == 0 {
      FittingStarts(Given(source, length), capacity);
      return 0, at;
    }
    var more := LengthAsWtf8(w, n);
    return UV_ENOBUFS, size + more;
  }

  /** uv_utf16_to_wtf8 when it allocates: the buffer always fits. */
  method Allocate(source: seq<char16>, length: int) returns (target: array<byte>, size: nat)
    requires IsSource(source, length)
    ensures fresh(target) && size == |Wtf8Of(Given(source, length))|
    ensures target[..] == Wtf8Of(Given(source, length)) + [0]
  {
    var needed := LengthAsWtf8(source, length);
    target := new byte[needed + 1](_ => 0);
    var code;
    code, size := FillBuffer(source, length, target, needed);
  }

  /** One unit of three bytes and a buffer for one: the size reported is four. */
  lemma SizeIsWrong()
    ensures var u: seq<char16> := [0x20AC];
            |Wtf8Of(u)| == 3 && ReportedSize(u, 1) == 4
  {}

  /** Exactly when the size is right. */
  lemma SizeIsRightIff(u: seq<char16>, capacity: nat)
    ensures ReportedSize(u, capacity) == |Wtf8Of(u)| <==>
              capacity == 0 || |Wtf8Of(u)| <= capacity || (u != [] && |Encode1(CodePoints(u)[0])| <= capacity)
  {
    if |Wtf8Of(u)| <= capacity {
      FittingStarts(u, capacity);
    }
  }
}
