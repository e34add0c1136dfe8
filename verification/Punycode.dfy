/** Punycode: the decoding procedure of section 6.2 of RFC 3492, the encoding order that
    uv__idna_toascii_label (src/idna.c) follows, and the proof that the first undoes the
    second.  Numbers are unbounded here; the encoder reports where a 32-bit delta would
    overflow. */
module Punycode {
  import opened Basics
  import opened Utf8

  const BASE := 36
  const TMIN := 1
  const TMAX := 26
  const SKEW := 38
  const DAMP := 700
  const INITIAL_BIAS := 72
  const INITIAL_N := 128
  const DELIMITER: byte := 0x2D

  // One past the largest code point.
  const CP_LIMIT := 0x11_0000

  // ----- parts shared by encoder and decoder (sections 5 and 6.1 of the RFC)

  /** The threshold of the digit at position k: k - bias clamped to TMIN..TMAX. */
  function Threshold(k: int, bias: int): (t: int)
    ensures 1 <= t <= 26 && (t == k - bias || (t == 1 && k - bias < 1) || (t == 26 && k - bias > 26))
  {
    if k <= bias + TMIN then TMIN else if k >= bias + TMAX then TMAX else k - bias
  }

  function Quotient(x: nat, y: nat): (q: nat)
    requires y > 0
  {
    x / y
  }

  function Remainder(x: nat, y: nat): (r: nat)
    requires y > 0
    ensures r < y
  {
    x % y
  }

  function AdaptLoop(delta: nat, k: nat): (bias: nat) {
    if delta > (BASE - TMIN) * TMAX / 2 then AdaptLoop(delta / (BASE - TMIN), k + BASE)
    else k + (BASE - TMIN + 1) * delta / (delta + SKEW)
  }

  function Adapt(delta: nat, numPoints: nat, first: bool): (bias: nat)
    requires numPoints > 0
  {
    var d := if first then delta / DAMP else delta / 2;
    AdaptLoop(d + Quotient(d, numPoints), 0)
  }

  /** The basic code point that stands for a digit: a-z for 0..25, 0-9 for 26..35. */
  function DigitChar(d: int): (c: byte)
    requires 0 <= d < BASE
  {
    if d < 26 then 0x61 + d else 0x30 + (d - 26)
  }

  function DigitValue(c: byte): Option<nat> {
    if 0x61 <= c <= 0x7A then Some(c - 0x61)
    else if 0x41 <= c <= 0x5A then Some(c - 0x41)
    else if 0x30 <= c <= 0x39 then Some(c - 0x30 + 26)
    else None
  }

  // ----- arithmetic

  lemma ProductNonNegative(a: int, b: int)
    requires a >= 0 && b >= 0
    ensures a * b >= 0
  {}

  lemma Distribute(a: int, b: int, c: int)
    ensures (a + b) * c == a * c + b * c
  {}

  // ----- the decoder (section 6.2 of the RFC)

  datatype Var = Var(i: nat, rest: seq<byte>)

  /** Reads one generalized variable-length integer and adds it to i. */
  function DecodeVar(text: seq<byte>, k: int, bias: nat, i: nat, w: nat): (r: Option<Var>)
    ensures r.Some? ==> |r.value.rest| < |text| && r.value.i >= i
    decreases |text|
  {
    if text == [] || DigitValue(text[0]) == None then None
    else
      var d := DigitValue(text[0]).value;
      var t := Threshold(k, bias);
      ProductNonNegative(d, w);
      ProductNonNegative(w, BASE - t);
      if d < t then Some(Var(i + d * w, text[1..]))
      else DecodeVar(text[1..], k + BASE, bias, i + d * w, w * (BASE - t))
  }

  /** The main loop: every integer says where the next code point goes. */
  function DecodeDeltas(text: seq<byte>, n: nat, i: nat, bias: nat, output: seq<int>): Option<seq<int>>
    decreases |text|
  {
    if text == [] then Some(output)
    else match DecodeVar(text, BASE, bias, i, 1)
      case None => None
      case Some(Var(i', rest)) =>
        var len := |output| + 1;
        var pos := Remainder(i', len);
        var n' := n + Quotient(i', len);
        DecodeDeltas(rest, n', pos + 1, Adapt(i' - i, len, i == 0), output[..pos] + [n'] + output[pos..])
  }

  /** The position of the last delimiter, or -1. */
  function LastDelimiter(text: seq<byte>): (k: int)
    ensures -1 <= k < |text|
    ensures k >= 0 ==> text[k] == DELIMITER
    ensures forall j :: k < j < |text| ==> text[j] != DELIMITER
  {
    if text == [] then -1
    else if text[|text| - 1] == DELIMITER then |text| - 1
    else LastDelimiter(text[..|text| - 1])
  }

  function AsPoints(text: seq<byte>): (r: seq<int>)
    ensures |r| == |text| && forall k :: 0 <= k < |r| ==> r[k] == text[k]
  {
    seq(|text|, k requires 0 <= k < |text| => text[k] as int)
  }

  function Decode(text: seq<byte>): Option<seq<int>> {
    var k := LastDelimiter(text);
    if k > 0 then
      if exists j :: 0 <= j < k && text[j] >= 0x80 then None
      else DecodeDeltas(text[k + 1..], INITIAL_N, 0, INITIAL_BIAS, AsPoints(text[..k]))
    else DecodeDeltas(text, INITIAL_N, 0, INITIAL_BIAS, [])
  }

  // ----- the encoder

  /** A number as a generalized variable-length integer, from the digit at position k on. */
  function EncodeVar(q: nat, k: int, bias: nat): (r: seq<byte>)
    ensures r != []
    decreases q
  {
    var t := Threshold(k, bias);
    if q < t then [DigitChar(q)]
    else
      QuotientShrinks(q - t, BASE - t);
      [DigitChar(t + Remainder(q - t, BASE - t))] + EncodeVar(Quotient(q - t, BASE - t), k + BASE, bias)
  }

  lemma QuotientShrinks(x: nat, y: nat)
    requires y > 0
    ensures Quotient(x, y) <= x && x == Quotient(x, y) * y + Remainder(x, y)
  {
    var q := x / y;
    assert x == y * q + x % y;
    Distribute(1, y - 1, q);
    ProductNonNegative(y - 1, q);
  }

  /** The variables of the encoder: the current code point, the delta accumulated since the last
      code point was written, the bias, the number of code points handled, and whether none has
      been written yet. */
  datatype State = State(n: nat, delta: nat, bias: nat, h: nat, first: bool)

  /** Passing a code point other than the current one. */
  function Pass(st: State, c: int): State {
    if c < st.n then st.(delta := st.delta + 1) else st
  }

  /** Writing the current code point. */
  function Emit(st: State): State {
    State(st.n, 0, Adapt(st.delta, st.h + 1, st.first), st.h + 1, false)
  }

  function Skip(st: State, m: nat): State
    requires st.n <= m
  {
    st.(n := m, delta := st.delta + Gap(m - st.n, st.h + 1))
  }

  function Gap(x: nat, y: nat): (r: nat) {
    x * y
  }

  /** The smallest code point of cps[j..] that is at least n and below m, or else m. */
  function Smallest(cps: seq<int>, j: nat, n: int, m: int): (r: int)
    requires j <= |cps|
    ensures r <= m && (r == m || (n <= r && r in cps[j..]))
    ensures forall k :: j <= k < |cps| && cps[k] >= n ==> r <= cps[k]
    decreases |cps| - j
  {
    if j == |cps| then m else Smallest(cps, j + 1, n, if n <= cps[j] < m then cps[j] else m)
  }

  predicate IsLabel(cps: seq<int>) {
    forall k :: 0 <= k < |cps| ==> 0 <= cps[k] < CP_LIMIT
  }

  /** What is written from the head of the outer loop on; None when a delta overflows 32 bits. */
  function Run(cps: seq<int>, st: State): Option<seq<byte>>
    requires IsLabel(cps) && st.n <= CP_LIMIT
    decreases CP_LIMIT - st.n, |cps| + 1
  {
    var m := Smallest(cps, 0, st.n, UINT_MAX);
    if m == UINT_MAX then Some([])
    else if Skip(st, m).delta > UINT_MAX then None
    else RunPass(cps, 0, Skip(st, m))
  }

  /** What is written from position j of the pass over code point st.n on. */
  function RunPass(cps: seq<int>, j: nat, st: State): Option<seq<byte>>
    requires IsLabel(cps) && j <= |cps| && st.n < CP_LIMIT
    decreases CP_LIMIT - st.n, |cps| - j
  {
    if j == |cps| then Run(cps, st.(n := st.n + 1, delta := st.delta + 1))
    else if cps[j] != st.n then
      if Pass(st, cps[j]).delta > UINT_MAX then None else RunPass(cps, j + 1, Pass(st, cps[j]))
    else match RunPass(cps, j + 1, Emit(st))
      case None => None
      case Some(rest) => Some(EncodeVar(st.delta, BASE, st.bias) + rest)
  }

  /** The code points below n. */
  function Below(cps: seq<int>, n: int): (r: seq<int>)
    ensures |r| <= |cps|
  {
    if cps == [] then [] else (if cps[0] < n then [cps[0]] else []) + Below(cps[1..], n)
  }

  // ----- variable-length integers round trip (section 3.3 of the RFC)

  lemma DigitRoundTrip(d: int)
    requires 0 <= d < BASE
    ensures DigitValue(DigitChar(d)) == Some(d) && DigitChar(d) != DELIMITER
  {}

  lemma EncodeVarUnfold(q: nat, k: int, bias: nat) returns (d: nat, q': nat)
    requires q >= Threshold(k, bias)
    ensures var t := Threshold(k, bias);
            && t <= d < BASE && q' < q && q == d + q' * (BASE - t)
            && EncodeVar(q, k, bias) == [DigitChar(d)] + EncodeVar(q', k + BASE, bias)
  {
    var t := Threshold(k, bias);
    d := t + Remainder(q - t, BASE - t);
    q' := Quotient(q - t, BASE - t);
    QuotientShrinks(q - t, BASE - t);
  }

  lemma PlaceValue(q: nat, d: nat, q': nat, b: nat, i: nat, w: nat, total: nat)
    requires q == d + q' * b && total == i + q * w
    ensures total == i + d * w + q' * (w * b)
  {
    assert q' * (w * b) == (q' * b) * w;
    Distribute(d, q' * b, w);
  }

  lemma DecodeDigit(d: nat, text: seq<byte>, k: int, bias: nat, i: nat, w: nat)
    requires d < BASE
    ensures DecodeVar([DigitChar(d)] + text, k, bias, i, w)
            == if d < Threshold(k, bias) then Some(Var(i + d * w, text))
               else DecodeVar(text, k + BASE, bias, i + d * w, w * (BASE - Threshold(k, bias)))
  {
    DigitRoundTrip(d);
    assert ([DigitChar(d)] + text)[1..] == text;
  }

  lemma EncodeVarLast(q: nat, k: int, bias: nat)
    requires q < Threshold(k, bias)
    ensures EncodeVar(q, k, bias) == [DigitChar(q)]
  {}

  /** Writing q and reading it back adds q * w to i. */
  lemma {:induction false} VarRoundTrip(q: nat, k: int, bias: nat, i: nat, w: nat, total: nat, rest: seq<byte>)
    requires total == i + q * w
    ensures DecodeVar(EncodeVar(q, k, bias) + rest, k, bias, i, w) == Some(Var(total, rest))
    decreases q
  {
    hide EncodeVar, DecodeVar, DigitChar, DigitValue, Threshold;
    var t := Threshold(k, bias);
    ProductNonNegative(w, BASE - t);
    if q < t {
      EncodeVarLast(q, k, bias);
      DecodeDigit(q, rest, k, bias, i, w);
    } else {
      var d, q' := EncodeVarUnfold(q, k, bias);
      ProductNonNegative(d, w);
      PlaceValue(q, d, q', BASE - t, i, w, total);
      VarRoundTrip(q', k + BASE, bias, i + d * w, w * (BASE - t), total, rest);
      var tail := EncodeVar(q', k + BASE, bias) + rest;
      Associative([DigitChar(d)], EncodeVar(q', k + BASE, bias), rest);
      DecodeDigit(d, tail, k, bias, i, w);
    }
  }

  lemma {:induction false} VarHasNoDelimiter(q: nat, k: int, bias: nat)
    ensures DELIMITER !in EncodeVar(q, k, bias)
    decreases q
  {
    if q < Threshold(k, bias) {
      DigitRoundTrip(q);
    } else {
      var d, q' := EncodeVarUnfold(q, k, bias);
      DigitRoundTrip(d);
      VarHasNoDelimiter(q', k + BASE, bias);
    }
  }

  // ----- the decoder follows the encoder

  lemma {:induction false} BelowConcat(a: seq<int>, b: seq<int>, n: int)
    ensures Below(a + b, n) == Below(a, n) + Below(b, n)
  {
    if a == [] {
      assert a + b == b;
    } else {
      assert (a + b)[1..] == a[1..] + b;
      BelowConcat(a[1..], b, n);
    }
  }

  lemma {:induction false} BelowAgree(cps: seq<int>, n: int, n': int)
    requires n <= n' && forall k :: 0 <= k < |cps| ==> !(n <= cps[k] < n')
    ensures Below(cps, n) == Below(cps, n')
  {
    if cps != [] {
      BelowAgree(cps[1..], n, n');
    }
  }

  lemma {:induction false} BelowAll(cps: seq<int>, n: int)
    requires forall k :: 0 <= k < |cps| ==> cps[k] < n
    ensures Below(cps, n) == cps
  {
    if cps != [] {
      BelowAll(cps[1..], n);
    }
  }

  /** What the decoder holds when the encoder is at position j of the pass over n: the code points
      below n, and those equal to n before j. */
  function Held(cps: seq<int>, j: nat, n: int): seq<int>
    requires j <= |cps|
  {
    Below(cps[..j], n + 1) + Below(cps[j..], n)
  }

  /** The decoder's variables n and i match the encoder's delta: as a single counter
      n * (h + 1) + i, the decoder is delta steps behind the encoder. */
  predicate InStep(cps: seq<int>, j: nat, st: State, n: nat, i: nat)
    requires j <= |cps|
  {
    && |Held(cps, j, st.n)| == st.h
    && n <= st.n && i <= st.h && (i == 0 <==> st.first)
    && n * (st.h + 1) + i + st.delta == st.n * (st.h + 1) + |Below(cps[..j], st.n + 1)|
  }

  lemma HeldStep(cps: seq<int>, j: nat, n: int)
    requires j < |cps|
    ensures var pos := |Below(cps[..j], n + 1)|;
            var next := Held(cps, j + 1, n);
            var pos' := |Below(cps[..j + 1], n + 1)|;
            if cps[j] < n then next == Held(cps, j, n) && pos' == pos + 1
            else if cps[j] == n then
              next == Held(cps, j, n)[..pos] + [n] + Held(cps, j, n)[pos..] && pos' == pos + 1
            else next == Held(cps, j, n) && pos' == pos
  {
    assert cps[..j + 1] == cps[..j] + [cps[j]];
    assert cps[j..] == [cps[j]] + cps[j + 1..];
    BelowConcat(cps[..j], [cps[j]], n + 1);
    BelowConcat([cps[j]], cps[j + 1..], n);
    assert Below([cps[j]], n + 1) == if cps[j] < n + 1 then [cps[j]] else [];
    assert Below([cps[j]], n) == if cps[j] < n then [cps[j]] else [];
  }

  lemma HeldWrap(cps: seq<int>, n: int)
    ensures Held(cps, |cps|, n) == Below(cps, n + 1) == Held(cps, 0, n + 1)
    ensures Below(cps[..|cps|], n + 1) == Below(cps, n + 1) && Below(cps[..0], n + 2) == []
  {
    assert cps[..|cps|] == cps && cps[0..] == cps && cps[..0] == [] && cps[|cps|..] == [];
  }

  lemma HeldSkip(cps: seq<int>, n: nat, m: int)
    requires n <= m == Smallest(cps, 0, n, UINT_MAX)
    ensures Held(cps, 0, n) == Held(cps, 0, m)
    ensures Below(cps[..0], n + 1) == [] == Below(cps[..0], m + 1)
  {
    assert cps[0..] == cps && cps[..0] == [];
    BelowAgree(cps, n, m);
  }

  lemma DivideCounter(n: nat, n': nat, len: nat, i: nat, pos: nat)
    requires pos < len && n <= n' && n * len + i == n' * len + pos
    ensures n + Quotient(i, len) == n' && Remainder(i, len) == pos
  {
    assert i == (n' - n) * len + pos;
    UniqueQuotient(i, len, n' - n, pos);
  }

  lemma UniqueQuotient(x: nat, len: nat, q: nat, r: nat)
    requires r < len && x == q * len + r
    ensures x / len == q && x % len == r
  {
    var q' := x / len;
    assert x == len * q' + x % len;
    SmallMultiple(q' - q, len, r - x % len);
  }

  lemma SmallMultiple(k: int, len: int, d: int)
    requires 0 - len < d < len && k * len == d
    ensures k == 0
  {
    if k > 0 {
      Distribute(k - 1, 1, len);
      ProductNonNegative(k - 1, len);
    } else if k < 0 {
      Distribute(-k - 1, 1, len);
      Distribute(k, -k, len);
      ProductNonNegative(-k - 1, len);
    }
  }

  lemma DecodeOne(text: seq<byte>, n: nat, i: nat, bias: nat, output: seq<int>, i': nat, rest: seq<byte>)
    requires DecodeVar(text, BASE, bias, i, 1) == Some(Var(i', rest))
    ensures var pos := Remainder(i', |output| + 1);
            var n' := n + Quotient(i', |output| + 1);
            i' >= i && DecodeDeltas(text, n, i, bias, output)
            == DecodeDeltas(rest, n', pos + 1, Adapt(i' - i, |output| + 1, i == 0),
                            output[..pos] + [n'] + output[pos..])
  {}

  lemma EmitInStep(cps: seq<int>, j: nat, st: State, n: nat, i: nat)
    requires j < |cps| && cps[j] == st.n && InStep(cps, j, st, n, i)
    ensures InStep(cps, j + 1, Emit(st), st.n, |Below(cps[..j], st.n + 1)| + 1)
  {
    HeldStep(cps, j, st.n);
  }

  /** One written integer makes the decoder insert st.n where the encoder found it. */
  lemma EmitDecodes(cps: seq<int>, j: nat, st: State, n: nat, i: nat, rest: seq<byte>)
    requires j < |cps| && cps[j] == st.n && InStep(cps, j, st, n, i)
    ensures DecodeDeltas(EncodeVar(st.delta, BASE, st.bias) + rest, n, i, st.bias, Held(cps, j, st.n))
            == DecodeDeltas(rest, st.n, |Below(cps[..j], st.n + 1)| + 1, Emit(st).bias, Held(cps, j + 1, st.n))
  {
    hide EncodeVar, DecodeVar, DecodeDeltas, Below, Held, Adapt, Quotient, Remainder;
    var pos := |Below(cps[..j], st.n + 1)|;
    var held := Held(cps, j, st.n);
    var text := EncodeVar(st.delta, BASE, st.bias) + rest;
    VarRoundTrip(st.delta, BASE, st.bias, i, 1, i + st.delta, rest);
    CounterDivides(cps, j, st, n, i);
    DecodeOne(text, n, i, st.bias, held, i + st.delta, rest);
    HeldStep(cps, j, st.n);
  }

  lemma CounterDivides(cps: seq<int>, j: nat, st: State, n: nat, i: nat)
    requires j < |cps| && InStep(cps, j, st, n, i)
    ensures n + Quotient(i + st.delta, st.h + 1) == st.n
    ensures Remainder(i + st.delta, st.h + 1) == |Below(cps[..j], st.n + 1)|
  {
    DivideCounter(n, st.n, st.h + 1, i + st.delta, |Below(cps[..j], st.n + 1)|);
  }

  lemma BelowInStep(cps: seq<int>, j: nat, st: State, n: nat, i: nat)
    requires j < |cps| && cps[j] != st.n && InStep(cps, j, st, n, i)
    ensures InStep(cps, j + 1, Pass(st, cps[j]), n, i) && Held(cps, j + 1, st.n) == Held(cps, j, st.n)
  {
    HeldStep(cps, j, st.n);
  }

  lemma WrapInStep(cps: seq<int>, st: State, n: nat, i: nat)
    requires InStep(cps, |cps|, st, n, i)
    ensures InStep(cps, 0, st.(n := st.n + 1, delta := st.delta + 1), n, i)
    ensures Held(cps, |cps|, st.n) == Held(cps, 0, st.n + 1)
  {
    HeldWrap(cps, st.n);
    Distribute(st.n, 1, st.h + 1);
  }

  lemma SkipInStep(cps: seq<int>, st: State, m: nat, n: nat, i: nat)
    requires InStep(cps, 0, st, n, i) && st.n <= m == Smallest(cps, 0, st.n, UINT_MAX)
    ensures InStep(cps, 0, Skip(st, m), n, i)
    ensures Held(cps, 0, st.n) == Held(cps, 0, m)
  {
    HeldSkip(cps, st.n, m);
    Distribute(st.n, m - st.n, st.h + 1);
  }

  lemma AllHeld(cps: seq<int>, n: int)
    requires IsLabel(cps) && Smallest(cps, 0, n, UINT_MAX) == UINT_MAX
    ensures Held(cps, 0, n) == cps
  {
    BelowAll(cps, n);
    assert cps[0..] == cps && cps[..0] == [];
  }

  lemma EmitExtends(cps: seq<int>, j: nat, st: State, n: nat, i: nat)
    requires IsLabel(cps) && j < |cps| && cps[j] == st.n < CP_LIMIT
    requires InStep(cps, j, st, n, i) && RunPass(cps, j, st).Some? && RunPass(cps, j + 1, Emit(st)).Some?
    requires DecodeDeltas(RunPass(cps, j + 1, Emit(st)).value, st.n, |Below(cps[..j], st.n + 1)| + 1,
                          Emit(st).bias, Held(cps, j + 1, st.n)) == Some(cps)
    ensures DecodeDeltas(RunPass(cps, j, st).value, n, i, st.bias, Held(cps, j, st.n)) == Some(cps)
  {
    EmitDecodes(cps, j, st, n, i, RunPass(cps, j + 1, Emit(st)).value);
  }

  lemma {:induction false} RunRoundTrip(cps: seq<int>, st: State, n: nat, i: nat)
    requires IsLabel(cps) && st.n <= CP_LIMIT
    requires InStep(cps, 0, st, n, i) && Run(cps, st).Some?
    ensures DecodeDeltas(Run(cps, st).value, n, i, st.bias, Held(cps, 0, st.n)) == Some(cps)
    decreases CP_LIMIT - st.n, |cps| + 1
  {
    hide EncodeVar, Below, Held, Adapt, InStep, Smallest;
    var m := Smallest(cps, 0, st.n, UINT_MAX);
    if m == UINT_MAX {
      AllHeld(cps, st.n);
    } else {
      SkipInStep(cps, st, m, n, i);
      PassRoundTrip(cps, 0, Skip(st, m), n, i);
    }
  }

  lemma {:induction false} PassRoundTrip(cps: seq<int>, j: nat, st: State, n: nat, i: nat)
    requires IsLabel(cps) && j <= |cps| && st.n < CP_LIMIT
    requires InStep(cps, j, st, n, i) && RunPass(cps, j, st).Some?
    ensures DecodeDeltas(RunPass(cps, j, st).value, n, i, st.bias, Held(cps, j, st.n)) == Some(cps)
    decreases CP_LIMIT - st.n, |cps| - j
  {
    hide EncodeVar, DecodeDeltas, Below, Held, Adapt, InStep, Smallest;
    if j == |cps| {
      WrapInStep(cps, st, n, i);
      RunRoundTrip(cps, st.(n := st.n + 1, delta := st.delta + 1), n, i);
    } else if cps[j] != st.n {
      BelowInStep(cps, j, st, n, i);
      PassRoundTrip(cps, j + 1, Pass(st, cps[j]), n, i);
    } else {
      EmitInStep(cps, j, st, n, i);
      PassRoundTrip(cps, j + 1, Emit(st), st.n, |Below(cps[..j], st.n + 1)| + 1);
      EmitExtends(cps, j, st, n, i);
    }
  }

  // ----- whole labels

  const PREFIX: seq<byte> := [0x78, 0x6E, 0x2D, 0x2D]

  function AsBytes(cps: seq<int>): (r: seq<byte>)
    requires forall k :: 0 <= k < |cps| ==> 0 <= cps[k] < 0x80
    ensures |r| == |cps| && AsPoints(r) == cps
  {
    seq(|cps|, k requires 0 <= k < |cps| => cps[k] as byte)
  }

  lemma {:induction false} BelowIsBelow(cps: seq<int>, n: int)
    requires IsLabel(cps)
    ensures forall k :: 0 <= k < |Below(cps, n)| ==> 0 <= Below(cps, n)[k] < n
  {
    if cps != [] {
      BelowIsBelow(cps[1..], n);
    }
  }

  function Basic(cps: seq<int>): (r: seq<byte>)
    requires IsLabel(cps)
    ensures AsPoints(r) == Below(cps, 0x80)
  {
    BelowIsBelow(cps, 0x80);
    AsBytes(Below(cps, 0x80))
  }

  function Start(h: nat): State {
    State(INITIAL_N, 0, INITIAL_BIAS, h, true)
  }

  /** The part of an encoded label after the prefix. */
  function Encode(cps: seq<int>): Option<seq<byte>>
    requires IsLabel(cps)
  {
    var basic := Basic(cps);
    match Run(cps, Start(|basic|))
    case None => None
    case Some(digits) => Some(basic + (if basic == [] then [] else [DELIMITER]) + digits)
  }

  /** What uv__idna_toascii_label writes when there is room: the label itself when it is ASCII;
      None stands for UV_E2BIG. */
  function LabelText(cps: seq<int>): Option<seq<byte>>
    requires IsLabel(cps)
  {
    if |Basic(cps)| == |cps| then Some(Basic(cps))
    else match Encode(cps)
      case None => None
      case Some(text) => Some(PREFIX + text)
  }

  lemma {:induction false} RunHasNoDelimiter(cps: seq<int>, st: State)
    requires IsLabel(cps) && st.n <= CP_LIMIT && Run(cps, st).Some?
    ensures DELIMITER !in Run(cps, st).value
    decreases CP_LIMIT - st.n, |cps| + 1
  {
    var m := Smallest(cps, 0, st.n, UINT_MAX);
    if m != UINT_MAX {
      PassHasNoDelimiter(cps, 0, Skip(st, m));
    }
  }

  lemma {:induction false} PassHasNoDelimiter(cps: seq<int>, j: nat, st: State)
    requires IsLabel(cps) && j <= |cps| && st.n < CP_LIMIT && RunPass(cps, j, st).Some?
    ensures DELIMITER !in RunPass(cps, j, st).value
    decreases CP_LIMIT - st.n, |cps| - j
  {
    if j == |cps| {
      RunHasNoDelimiter(cps, st.(n := st.n + 1, delta := st.delta + 1));
    } else if cps[j] != st.n {
      PassHasNoDelimiter(cps, j + 1, Pass(st, cps[j]));
    } else {
      PassHasNoDelimiter(cps, j + 1, Emit(st));
      VarHasNoDelimiter(st.delta, BASE, st.bias);
    }
  }

  lemma LastDelimiterIs(text: seq<byte>, k: int)
    requires -1 <= k < |text| && (k >= 0 ==> text[k] == DELIMITER)
    requires forall j :: k < j < |text| ==> text[j] != DELIMITER
    ensures LastDelimiter(text) == k
  {}

  lemma StartInStep(cps: seq<int>)
    requires IsLabel(cps)
    ensures InStep(cps, 0, Start(|Basic(cps)|), INITIAL_N, 0)
    ensures Held(cps, 0, INITIAL_N) == AsPoints(Basic(cps))
  {}

  /** Decoding undoes encoding: section 6.2 of RFC 3492 gives back the label's code points. */
  lemma RoundTrip(cps: seq<int>)
    requires IsLabel(cps) && Encode(cps).Some?
    ensures Decode(Encode(cps).value) == Some(cps)
  {
    var basic := Basic(cps);
    var st := Start(|basic|);
    var digits := Run(cps, st).value;
    StartInStep(cps);
    RunRoundTrip(cps, st, INITIAL_N, 0);
    RunHasNoDelimiter(cps, st);
    BelowIsBelow(cps, 0x80);
    DecodeSplits(basic, digits);
  }

  lemma DecodeSplits(basic: seq<byte>, digits: seq<byte>)
    requires DELIMITER !in digits && forall k :: 0 <= k < |basic| ==> AsPoints(basic)[k] < 0x80
    ensures Decode(basic + (if basic == [] then [] else [DELIMITER]) + digits)
            == DecodeDeltas(digits, INITIAL_N, 0, INITIAL_BIAS, AsPoints(basic))
  {
    var text := basic + (if basic == [] then [] else [DELIMITER]) + digits;
    var k := |basic|;
    if k == 0 {
      assert text == digits;
      LastDelimiterIs(text, -1);
      assert AsPoints(basic) == [];
    } else {
      assert text[k] == DELIMITER;
      assert forall j :: k < j < |text| ==> text[j] == digits[j - k - 1];
      LastDelimiterIs(text, k);
      assert text[..k] == basic && text[k + 1..] == digits;
      assert forall j :: 0 <= j < k ==> text[j] == AsPoints(basic)[j];
    }
  }

  /** A label that is not ASCII is written as the prefix and a text that decodes to the label; an
      ASCII label is written as it is. */
  lemma LabelTextDecodes(cps: seq<int>)
    requires IsLabel(cps) && LabelText(cps).Some?
    ensures var text := LabelText(cps).value;
            if forall k :: 0 <= k < |cps| ==> cps[k] < 0x80 then AsPoints(text) == cps
            else PREFIX <= text && Decode(text[|PREFIX|..]) == Some(cps)
  {
    if forall k :: 0 <= k < |cps| ==> cps[k] < 0x80 {
      BelowAll(cps, 0x80);
    } else {
      BelowMisses(cps, 0x80);
      RoundTrip(cps);
      assert (PREFIX + Encode(cps).value)[|PREFIX|..] == Encode(cps).value;
    }
  }

  lemma {:induction false} BelowMisses(cps: seq<int>, n: int)
    requires exists k :: 0 <= k < |cps| && cps[k] >= n
    ensures |Below(cps, n)| < |cps|
  {
    if cps[0] < n {
      var k :| 0 <= k < |cps| && cps[k] >= n;
      assert cps[1..][k - 1] >= n;
      BelowMisses(cps[1..], n);
    }
  }

  /** Different labels never get the same encoding. */
  lemma EncodingIsInjective(a: seq<int>, b: seq<int>)
    requires IsLabel(a) && IsLabel(b) && Encode(a).Some? && Encode(a) == Encode(b)
    ensures a == b
  {
    RoundTrip(a);
    RoundTrip(b);
  }

  // ----- 32 bits are enough for every label of at most 3854 code points

  lemma DeltaBound(cps: seq<int>, j: nat, st: State, n: nat, i: nat)
    requires j <= |cps| && InStep(cps, j, st, n, i) && st.h <= |cps|
    ensures st.delta <= (st.n + 1) * (|cps| + 1) - 1
  {
    ProductNonNegative(n, st.h + 1);
    var behind := n * (st.h + 1) + i;
    var pos := |Below(cps[..j], st.n + 1)|;
    CounterBound(st.n, st.h, |cps|, pos, st.delta, behind);
  }

  lemma CounterBound(n: nat, h: nat, len: nat, pos: nat, delta: nat, behind: nat)
    requires pos <= h <= len && behind + delta == n * (h + 1) + pos
    ensures delta <= (n + 1) * (len + 1) - 1
  {
    Distribute(n, 1, h + 1);
    ProductNonNegative(n + 1, len - h);
    assert (n + 1) * (len + 1) == (n + 1) * (h + 1) + (n + 1) * (len - h);
  }

  lemma SmallDelta(n: nat, len: nat)
    requires n < CP_LIMIT && len <= 3854
    ensures (n + 1) * (len + 1) <= UINT_MAX
  {
    Distribute(n + 1, CP_LIMIT - n - 1, len + 1);
    ProductNonNegative(CP_LIMIT - n - 1, len + 1);
  }

  lemma {:induction false} RunFits(cps: seq<int>, st: State, n: nat, i: nat)
    requires IsLabel(cps) && |cps| <= 3854 && st.n <= CP_LIMIT && InStep(cps, 0, st, n, i)
    ensures Run(cps, st).Some?
    decreases CP_LIMIT - st.n, |cps| + 1
  {
    var m := Smallest(cps, 0, st.n, UINT_MAX);
    if m != UINT_MAX {
      SkipInStep(cps, st, m, n, i);
      HeldFits(cps, 0, m);
      DeltaBound(cps, 0, Skip(st, m), n, i);
      SmallDelta(m, |cps|);
      PassFits(cps, 0, Skip(st, m), n, i);
    }
  }

  lemma HeldFits(cps: seq<int>, j: nat, n: int)
    requires j <= |cps|
    ensures |Held(cps, j, n)| <= |cps|
  {}

  lemma {:induction false} PassFits(cps: seq<int>, j: nat, st: State, n: nat, i: nat)
    requires IsLabel(cps) && |cps| <= 3854 && j <= |cps| && st.n < CP_LIMIT && InStep(cps, j, st, n, i)
    ensures RunPass(cps, j, st).Some?
    decreases CP_LIMIT - st.n, |cps| - j
  {
    if j == |cps| {
      WrapInStep(cps, st, n, i);
      RunFits(cps, st.(n := st.n + 1, delta := st.delta + 1), n, i);
    } else if cps[j] != st.n {
      BelowInStep(cps, j, st, n, i);
      HeldFits(cps, j + 1, st.n);
      DeltaBound(cps, j + 1, Pass(st, cps[j]), n, i);
      SmallDelta(st.n, |cps|);
      PassFits(cps, j + 1, Pass(st, cps[j]), n, i);
    } else {
      EmitInStep(cps, j, st, n, i);
      PassFits(cps, j + 1, Emit(st), st.n, |Below(cps[..j], st.n + 1)| + 1);
    }
  }

  lemma ShortLabelsFit(cps: seq<int>)
    requires IsLabel(cps) && |cps| <= 3854
    ensures LabelText(cps).Some?
  {
    StartInStep(cps);
    RunFits(cps, Start(|Basic(cps)|), INITIAL_N, 0);
  }

  // ----- what the shared parts compute

  const ALPHABET := "abcdefghijklmnopqrstuvwxyz0123456789"

  lemma DigitIs(d: int)
    requires 0 <= d < 36
    ensures DigitChar(d) == ALPHABET[d] as int
  {}

  function Power35(k: nat): (p: nat)
    ensures p > 0
  {
    if k == 0 then 1 else 35 * Power35(k - 1)
  }

  lemma DivideTwice(x: nat, a: nat, b: nat)
    requires a > 0 && b > 0
    ensures a * b > 0 && x / a / b == x / (a * b)
  {
    var y, q := Quotient(x, a), Quotient(Quotient(x, a), b);
    QuotientShrinks(x, a);
    QuotientShrinks(y, b);
    var r1, r2 := Remainder(x, a), Remainder(y, b);
    Distribute(q * b, r2, a);
    Reorder(q, b, a);
    ProductBound(a, b, r1, r2);
    UniqueQuotient(x, a * b, q, r2 * a + r1);
  }

  lemma Reorder(a: int, b: int, c: int)
    ensures a * b * c == a * (c * b)
  {}

  lemma ProductBound(a: nat, b: nat, r1: nat, r2: nat)
    requires r1 < a && r2 < b
    ensures 0 <= r2 * a + r1 < a * b
  {
    Distribute(r2, 1, a);
    Distribute(b - r2 - 1, r2 + 1, a);
    ProductNonNegative(b - r2 - 1, a);
    ProductNonNegative(r2, a);
  }

  /** The bias of a delta d that has been scaled: 36 for each division by 35 until at most 455 is left, and the
      fraction for that. */
  predicate IsBias(d: nat, n: nat, bias: int) {
    var r := d / Power35(n);
    r <= 455 && (n > 0 ==> d / Power35(n - 1) > 455) && bias == 36 * n + 36 * r / (r + 38)
  }

  lemma {:induction false} LoopCounts(delta: nat, k: nat) returns (n: nat)
    ensures IsBias(delta, n, AdaptLoop(delta, k) - k)
    decreases delta
  {
    if delta <= 455 {
      n := 0;
    } else {
      n := LoopCounts(delta / 35, k + 36);
      DivideTwice(delta, 35, Power35(n));
      if n > 0 {
        DivideTwice(delta, 35, Power35(n - 1));
      }
      n := n + 1;
    }
  }

  /** The first delta is divided by 700 and the others by 2, and each is increased by its share of one point. */
  lemma AdaptIs(delta: nat, numPoints: nat, first: bool) returns (half: nat, share: nat, n: nat)
    requires numPoints > 0
    ensures half == (if first then delta / 700 else delta / 2) && share == half / numPoints
    ensures IsBias(half + share, n, Adapt(delta, numPoints, first))
  {
    hide IsBias, AdaptLoop, Quotient;
    half := if first then delta / 700 else delta / 2;
    share := Share(half, numPoints);
    n := LoopCounts(half + share, 0);
  }

  lemma Share(x: nat, y: nat) returns (q: nat)
    requires y > 0
    ensures q == Quotient(x, y) == x / y
  {
    q := Quotient(x, y);
  }

  // ----- a sample

  /** How many of cps[i..j] are below n. */
  function Fewer(cps: seq<int>, i: nat, j: nat, n: int): (r: nat)
    requires i <= j <= |cps|
    ensures r <= j - i
    decreases j - i
  {
    if i == j then 0 else (if cps[i] < n then 1 else 0) + Fewer(cps, i + 1, j, n)
  }

  /** The pass from i to j when the current code point is not there. */
  lemma {:induction false} PassBy(cps: seq<int>, i: nat, j: nat, st: State)
    requires IsLabel(cps) && i <= j <= |cps| && st.n < CP_LIMIT
    requires forall k :: i <= k < j ==> cps[k] != st.n
    requires st.delta + (j - i) <= UINT_MAX
    ensures st.delta + Fewer(cps, i, j, st.n) <= UINT_MAX
    ensures RunPass(cps, i, st) == RunPass(cps, j, st.(delta := st.delta + Fewer(cps, i, j, st.n)))
    decreases j - i
  {
    if i < j {
      PassBy(cps, i + 1, j, Pass(st, cps[i]));
    }
  }

  lemma SmallestIs(cps: seq<int>, n: nat, m: nat)
    requires n <= m < UINT_MAX && m in cps && forall k :: 0 <= k < |cps| ==> cps[k] < n || cps[k] >= m
    ensures Smallest(cps, 0, n, UINT_MAX) == m
  {
    assert Smallest(cps, 0, n, UINT_MAX) <= m;
  }

  /** The way to a code point that stands at j alone. */
  lemma ToPoint(cps: seq<int>, st: State, j: nat, m: nat, delta: nat)
    requires IsLabel(cps) && j < |cps| < 1000 && st.n <= m == cps[j]
    requires forall k :: 0 <= k < |cps| && k != j ==> cps[k] != m && !(st.n <= cps[k] < m)
    requires delta == st.delta + Gap(m - st.n, st.h + 1) + Fewer(cps, 0, j, m) && delta < UINT_MAX - 1000
    ensures Run(cps, st) == RunPass(cps, j, st.(n := m, delta := delta))
  {
    hide RunPass, Fewer, Gap, Smallest;
    SmallestIs(cps, st.n, m);
    ProductNonNegative(m - st.n, st.h + 1);
    PassBy(cps, 0, j, Skip(st, m));
  }

  /** The code point itself, and the pass behind it. */
  lemma FromPoint(cps: seq<int>, st: State, j: nat, next: State)
    requires IsLabel(cps) && j < |cps| < 1000 && st.n == cps[j] && st.delta < UINT_MAX - 1000
    requires forall k :: j < k < |cps| ==> cps[k] != st.n
    requires next
          == State(st.n + 1, Fewer(cps, j + 1, |cps|, st.n) + 1, Adapt(st.delta, st.h + 1, st.first), st.h + 1, false)
    ensures RunPass(cps, j, st)
         == match Run(cps, next) case None => None case Some(rest) => Some(EncodeVar(st.delta, BASE, st.bias) + rest)
  {
    hide EncodeVar, Adapt, Fewer, Run, RunPass;
    PassAt(cps, j, st);
    PassBy(cps, j + 1, |cps|, Emit(st));
    PassEnds(cps, Emit(st).(delta := Fewer(cps, j + 1, |cps|, st.n)));
  }

  lemma PassAt(cps: seq<int>, j: nat, st: State)
    requires IsLabel(cps) && j < |cps| && st.n == cps[j]
    ensures RunPass(cps, j, st)
         == match RunPass(cps, j + 1, Emit(st))
            case None => None
            case Some(rest) => Some(EncodeVar(st.delta, BASE, st.bias) + rest)
  {
    hide Run, EncodeVar, Adapt;
  }

  lemma PassEnds(cps: seq<int>, st: State)
    requires IsLabel(cps) && st.n < CP_LIMIT
    ensures RunPass(cps, |cps|, st) == Run(cps, st.(n := st.n + 1, delta := st.delta + 1))
  {
    hide Run;
  }

  /** A pass over a code point that stands at j alone. */
  lemma OnePoint(cps: seq<int>, st: State, j: nat, m: nat, delta: nat, digits: seq<byte>, next: State)
    requires IsLabel(cps) && j < |cps| < 1000 && st.n <= m == cps[j]
    requires forall k :: 0 <= k < |cps| && k != j ==> cps[k] != m && !(st.n <= cps[k] < m)
    requires delta == st.delta + Gap(m - st.n, st.h + 1) + Fewer(cps, 0, j, m) && delta < UINT_MAX - 1000
    requires digits == EncodeVar(delta, BASE, st.bias)
    requires next == State(m + 1, Fewer(cps, j + 1, |cps|, m) + 1, Adapt(delta, st.h + 1, st.first), st.h + 1, false)
    ensures Run(cps, st) == match Run(cps, next) case None => None case Some(rest) => Some(digits + rest)
  {
    hide EncodeVar, Adapt, Fewer, Run, RunPass, Gap;
    ToPoint(cps, st, j, m, delta);
    FromPoint(cps, st.(n := m, delta := delta), j, next);
  }

  const SAMPLE: seq<int> := [0x67, 0x72, 0xF6, 0xDF, 0x65]

  lemma NextDigit(q: nat, k: int, bias: nat, d: nat, q': nat)
    requires q >= Threshold(k, bias) && Threshold(k, bias) <= d < BASE
    requires q - Threshold(k, bias) == q' * (BASE - Threshold(k, bias)) + (d - Threshold(k, bias))
    ensures EncodeVar(q, k, bias) == [DigitChar(d)] + EncodeVar(q', k + BASE, bias)
  {
    var t := Threshold(k, bias);
    UniqueQuotient(q - t, BASE - t, q', d - t);
  }

  lemma SampleDigits()
    ensures EncodeVar(382, 36, 72) == [0x36, 0x6B, 0x61] && EncodeVar(114, 36, 0) == [0x38, 0x69]
  {
    EncodeVarLast(0, 108, 72);
    NextDigit(10, 72, 72, 10, 0);
    NextDigit(382, 36, 72, 32, 10);
    EncodeVarLast(8, 72, 0);
    NextDigit(114, 36, 0, 34, 8);
    hide EncodeVar;
    assert EncodeVar(10, 72, 72) == [0x6B, 0x61];
  }

  lemma SampleBias()
    ensures Adapt(382, 4, true) == 0
  {}

  lemma SampleCounts()
    ensures Fewer(SAMPLE, 0, 3, 0xDF) == 2 && Fewer(SAMPLE, 4, 5, 0xDF) == 1
    ensures Fewer(SAMPLE, 0, 2, 0xF6) == 2 && Fewer(SAMPLE, 3, 5, 0xF6) == 2
    ensures Smallest(SAMPLE, 0, 247, UINT_MAX) == UINT_MAX
  {}

  /** The passes over U+00DF and U+00F6. */
  lemma SamplePass1()
    ensures Run(SAMPLE, State(128, 0, 72, 3, true))
         == match Run(SAMPLE, State(224, 2, 0, 4, false))
            case None => None
            case Some(rest) => Some([0x36, 0x6B, 0x61] + rest)
  {
    SampleDigits();
    SampleBias();
    SampleCounts();
    hide EncodeVar, Adapt, Fewer, Smallest, RunPass, Run;
    OnePoint(SAMPLE, State(128, 0, 72, 3, true), 3, 0xDF, 382, [0x36, 0x6B, 0x61], State(224, 2, 0, 4, false));
  }

  lemma SamplePass2()
    ensures Run(SAMPLE, State(224, 2, 0, 4, false)) == Some([0x38, 0x69] + [])
  {
    SampleDigits();
    SampleCounts();
    var st := State(247, 3, Adapt(114, 5, false), 5, false);
    assert Run(SAMPLE, st) == Some([]);
    hide EncodeVar, Adapt, Fewer, Smallest, RunPass, Run;
    OnePoint(SAMPLE, State(224, 2, 0, 4, false), 2, 0xF6, 114, [0x38, 0x69], st);
  }

  lemma SampleBasic()
    ensures Basic(SAMPLE) == [0x67, 0x72, 0x65]
  {
    assert SAMPLE[1..][1..] == [0xF6, 0xDF, 0x65] && [0xF6, 0xDF, 0x65][1..][1..] == [0x65];
    assert Below([0x65], 0x80) == [0x65];
    assert Below(SAMPLE[1..], 0x80) == [0x72, 0x65];
  }

  /** The label "größe" becomes xn--gre-6ka8i. */
  lemma Sample()
    ensures LabelText(SAMPLE)
         == Some([0x78, 0x6E, 0x2D, 0x2D, 0x67, 0x72, 0x65, 0x2D, 0x36, 0x6B, 0x61, 0x38, 0x69])
  {
    SampleBasic();
    SamplePass1();
    SamplePass2();
    hide Run, Basic;
    assert Start(3) == State(128, 0, 72, 3, true);
    var text := [0x67, 0x72, 0x65] + [0x2D] + ([0x36, 0x6B, 0x61] + ([0x38, 0x69] + []));
    assert Encode(SAMPLE) == Some(text);
    assert |Basic(SAMPLE)| != |SAMPLE|;
    assert LabelText(SAMPLE) == Some(PREFIX + text);
    assert PREFIX + text
        == [0x78, 0x6E, 0x2D, 0x2D, 0x67, 0x72, 0x65, 0x2D, 0x36, 0x6B, 0x61, 0x38, 0x69];
  }
}
