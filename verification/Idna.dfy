/** uv__idna_toascii_label and uv__idna_toascii of src/idna.c: the loops over the input
    bytes and the bounded output buffer, proved against Punycode.LabelText. */
module Idna {
  import opened Basics
  import opened Utf8
  import opened Punycode

  const UV_EINVAL := -22
  const UV_E2BIG := -7

  // ----- the output buffer

  function Min(a: int, b: int): int { if a < b then a else b }

  /** d[d0..pos] holds as much of text as fits below de; the rest of d is as it was. */
  ghost predicate Wrote(d: array<byte>, was: seq<byte>, d0: nat, pos: nat, de: nat, text: seq<byte>)
    reads d
  {
    && d0 <= de <= d.Length == |was|
    && pos == Min(d0 + |text|, de)
    && d[..] == was[..d0] + text[..pos - d0] + was[pos..]
  }

  /** The guarded write `if (*d < de) *(*d)++ = c`. */
  method Put(d: array<byte>, pos: nat, de: nat, c: byte,
             ghost was: seq<byte>, ghost d0: nat, ghost text: seq<byte>) returns (pos': nat)
    requires Wrote(d, was, d0, pos, de, text)
    modifies d
    ensures Wrote(d, was, d0, pos', de, text + [c])
  {
    pos' := pos;
    if pos < de {
      d[pos] := c;
      pos' := pos + 1;
      assert (text + [c])[..pos' - d0] == text + [c];
    } else {
      assert (text + [c])[..pos' - d0] == text[..pos' - d0];
    }
  }

  // ----- cursors

  lemma NextPoint(s: seq<byte>, p: nat, pe: nat, cps: seq<uint32>, j: nat)
    requires p <= pe <= |s| && j <= |cps| && CodePoints(s, p, pe) == Some(cps[j..])
    ensures p == pe <==> j == |cps|
    ensures p < pe ==>
              var (c, q) := Decode1(s, p, pe);
              c == cps[j] && IsScalar(c) && CodePoints(s, q, pe) == Some(cps[j + 1..])
  {
    if p < pe {
      var (c, q) := Decode1(s, p, pe);
      var rest := CodePoints(s, q, pe).value;
      assert cps[j..] == [c] + rest;
      assert cps[j] == cps[j..][0] == c;
      assert cps[j + 1..] == cps[j..][1..] == rest;
    }
  }

  // ----- the passes over the label

  function Prepend<T>(a: seq<T>, b: Option<seq<T>>): Option<seq<T>> {
    match b case None => None case Some(rest) => Some(a + rest)
  }

  lemma SeenStep(s: seq<byte>, p: nat, hi: nat, seen: seq<uint32>)
    requires p < hi <= |s| && Decode1(s, p, hi).0 != UINT_MAX
    ensures var (c, q) := Decode1(s, p, hi);
            && Prepend(seen, CodePoints(s, p, hi)) == Prepend(seen + [c], CodePoints(s, q, hi))
            && |Below(seen + [c], 0x80)| == |Below(seen, 0x80)| + if c < 0x80 then 1 else 0
  {
    hide Decode1;
    var (c, q) := Decode1(s, p, hi);
    BelowConcat(seen, [c], 0x80);
    assert Below([c], 0x80) == if c < 0x80 then [c] else [];
    hide Below;
    if CodePoints(s, q, hi).Some? {
      var rest := CodePoints(s, q, hi).value;
      assert seen + ([c] + rest) == (seen + [c]) + rest;
    }
  }

  /** The first loop: decodes everything and counts ASCII and other characters. */
  method Count(s: seq<byte>, lo: nat, hi: nat) returns (ok: bool, h: uint32, todo: uint32)
    requires lo <= hi <= |s| && hi - lo < 0x8000_0000
    ensures ok <==> CodePoints(s, lo, hi).Some?
    ensures ok ==> var cps := CodePoints(s, lo, hi).value;
                   IsLabel(cps) && h == |Basic(cps)| && todo == |cps| - h
  {
    h, todo := 0, 0;
    var p := lo;
    ghost var seen: seq<uint32> := [];
    assert CodePoints(s, lo, hi).Some? ==> seen + CodePoints(s, lo, hi).value == CodePoints(s, lo, hi).value;
    while p < hi
      invariant lo <= p <= hi && |seen| <= p - lo
      invariant forall k :: 0 <= k < |seen| ==> IsScalar(seen[k])
      invariant CodePoints(s, lo, hi) == Prepend(seen, CodePoints(s, p, hi))
      invariant h == |Below(seen, 0x80)| && todo == |seen| - h
    {
      var (c, q) := Decode1(s, p, hi);
      if c == UINT_MAX {
        return false, h, todo;
      }
      SeenStep(s, p, hi, seen);
      seen := seen + [c];
      p := q;
      if c < 128 {
        h := h + 1;
      } else {
        todo := todo + 1;
      }
    }
    assert seen + [] == seen;
    ok := true;
  }

  lemma AllBelowSeen(cps: seq<int>, j: nat, n: int)
    requires j <= |cps|
    ensures |Below(cps[..j], n)| <= |Below(cps, n)|
    ensures |Below(cps[..j], n)| == |Below(cps, n)| ==> Below(cps[..j], n) == Below(cps, n)
  {
    assert cps == cps[..j] + cps[j..];
    BelowConcat(cps[..j], cps[j..], n);
  }

  lemma BelowSnoc(cps: seq<int>, j: nat, n: int)
    requires j < |cps|
    ensures Below(cps[..j + 1], n) == Below(cps[..j], n) + if cps[j] < n then [cps[j]] else []
  {
    assert cps[..j + 1] == cps[..j] + [cps[j]];
    BelowConcat(cps[..j], [cps[j]], n);
  }

  lemma BasicStep(cps: seq<uint32>, j: nat, done: seq<byte>)
    requires IsLabel(cps) && j < |cps| && AsPoints(done) == Below(cps[..j], 0x80)
    ensures if cps[j] < 0x80 then
              && AsPoints(done + [cps[j]]) == Below(cps[..j + 1], 0x80) && |done| < |Basic(cps)|
              && (|done| + 1 == |Basic(cps)| ==> done + [cps[j]] == Basic(cps))
            else AsPoints(done) == Below(cps[..j + 1], 0x80)
  {
    BelowSnoc(cps, j, 0x80);
    AllBelowSeen(cps, j + 1, 0x80);
    if cps[j] < 0x80 && |done| + 1 == |Basic(cps)| {
      SamePoints(done + [cps[j]], Basic(cps));
    }
  }

  /** The second loop: copies the ASCII characters and stops after the last one. */
  method CopyBasic(s: seq<byte>, lo: nat, hi: nat, h: uint32, d: array<byte>, pos0: nat, de: nat,
                   ghost cps: seq<uint32>, ghost was: seq<byte>, ghost d0: nat, ghost text: seq<byte>)
    returns (pos: nat)
    requires lo <= hi <= |s| && CodePoints(s, lo, hi) == Some(cps) && IsLabel(cps) && h == |Basic(cps)|
    requires Wrote(d, was, d0, pos0, de, text)
    modifies d
    ensures Wrote(d, was, d0, pos, de, text + Basic(cps))
  {
    pos := pos0;
    var x: uint32 := 0;
    var p := lo;
    ghost var j := 0;
    ghost var done: seq<byte> := [];
    assert cps[0..] == cps && cps[..0] == [] && text + done == text;
    while p < hi
      invariant lo <= p <= hi && j <= |cps| && CodePoints(s, p, hi) == Some(cps[j..])
      invariant AsPoints(done) == Below(cps[..j], 0x80) && x == |done| <= h
      invariant Wrote(d, was, d0, pos, de, text + done)
    {
      NextPoint(s, p, hi, cps, j);
      var (c, q) := Decode1(s, p, hi);
      BasicStep(cps, j, done);
      p := q;
      j := j + 1;
      if c > 127 {
        continue;
      }
      pos := Put(d, pos, de, c, was, d0, text + done);
      Associative(text, done, [c]);
      done := done + [c];
      x := x + 1;
      if x == h {
        return;
      }
    }
    NextPoint(s, p, hi, cps, j);
    assert cps[..j] == cps;
    SamePoints(done, Basic(cps));
  }

  lemma SamePoints(a: seq<byte>, b: seq<byte>)
    requires AsPoints(a) == AsPoints(b)
    ensures a == b
  {}

  /** The loop that looks for the smallest code point not handled yet. */
  method FindSmallest(s: seq<byte>, lo: nat, hi: nat, n: uint32, ghost cps: seq<uint32>)
    returns (m: uint32)
    requires lo <= hi <= |s| && CodePoints(s, lo, hi) == Some(cps)
    ensures m == Smallest(cps, 0, n, UINT_MAX)
  {
    m := UINT_MAX;
    var p := lo;
    ghost var j := 0;
    assert cps[0..] == cps;
    while p < hi
      invariant lo <= p <= hi && j <= |cps| && CodePoints(s, p, hi) == Some(cps[j..])
      invariant Smallest(cps, j, n, m) == Smallest(cps, 0, n, UINT_MAX)
    {
      NextPoint(s, p, hi, cps, j);
      var (c, q) := Decode1(s, p, hi);
      if c >= n {
        if c < m {
          m := c;
        }
      }
      p := q;
      j := j + 1;
    }
    NextPoint(s, p, hi, cps, j);
  }

  // ----- one delta

  /** UINT_MAX divided i times by 10: a bound that reaches zero after ten steps. */
  function Limit(i: nat): nat {
    if i == 0 then UINT_MAX else Limit(i - 1) / 10
  }

  lemma LimitReached(i: nat)
    ensures i >= 10 ==> Limit(i) == 0
  {
    if i > 10 {
      LimitReached(i - 1);
    } else if i == 10 {
      assert Limit(2) == 42949672 && Limit(4) == 429496 && Limit(6) == 4294 && Limit(8) == 42;
    }
  }

  lemma QuotientUnder(x: nat, y: int, bound: nat)
    requires 10 <= y && x <= bound
    ensures x / y <= bound / 10 && 0 <= x / y <= x && 0 <= x % y < y
  {
    var q := x / y;
    assert x == y * q + x % y;
    Distribute(10, y - 10, q);
    ProductNonNegative(y - 10, q);
    assert 10 * q <= bound;
  }

  /** One round of the digit loop. */
  lemma DigitStep(q: nat, k: int, bias: nat, t: int, x: nat, y: int, i: nat)
    requires 0 < t == Threshold(k, bias) <= q && x == q - t && y == 36 - t && q <= Limit(i) && i <= 10
    ensures i < 10 && Quotient(x, y) <= Limit(i + 1) && Quotient(x, y) < q
    ensures EncodeVar(q, k, bias) == [DigitChar(t + Remainder(x, y))] + EncodeVar(Quotient(x, y), k + BASE, bias)
  {
    QuotientUnder(x, y, Limit(i));
    LimitReached(i);
  }

  method DigitThreshold(k: uint32, bias: uint32) returns (t: uint32)
    ensures t == Threshold(k, bias)
  {
    t := 1;
    if k > bias {
      t := k - bias;
    }
    if t > 26 {
      t := 26;
    }
  }

  /** The digit loop: writes delta as a generalized variable-length integer. */
  method PutDelta(d: array<byte>, pos0: nat, de: nat, delta: uint32, bias: uint32,
                  ghost was: seq<byte>, ghost d0: nat, ghost text: seq<byte>) returns (pos: nat)
    requires bias <= 1000
    requires Wrote(d, was, d0, pos0, de, text)
    modifies d
    ensures Wrote(d, was, d0, pos, de, text + EncodeVar(delta, BASE, bias))
  {
    pos := pos0;
    var k: uint32 := 36;
    var q: uint32 := delta;
    ghost var i := 0;
    ghost var done: seq<byte> := [];
    assert text + done == text && done + EncodeVar(delta, BASE, bias) == EncodeVar(delta, BASE, bias);
    assert q <= Limit(0);
    hide Wrote, EncodeVar, DigitChar, Limit, Quotient, Remainder, Threshold;
    while true
      invariant k == 36 * (i + 1) && i <= 10 && q <= Limit(i)
      invariant done + EncodeVar(q, k, bias) == EncodeVar(delta, BASE, bias)
      invariant Wrote(d, was, d0, pos, de, text + done)
      decreases q
    {
      var t := DigitThreshold(k, bias);
      if q < t {
        break;
      }
      var x: uint32 := q - t;
      var y: uint32 := 36 - t;
      DigitStep(q, k, bias, t, x, y, i);
      q := Quotient(x, y);
      t := t + Remainder(x, y);
      ghost var digit := [DigitChar(t)];
      Associative(done, digit, EncodeVar(q, k + BASE, bias));
      pos := Put(d, pos, de, DigitChar(t), was, d0, text + done);
      Associative(text, done, digit);
      done := done + digit;
      k := k + 36;
      i := i + 1;
    }
    EncodeVarLast(q, k, bias);
    pos := Put(d, pos, de, DigitChar(q), was, d0, text + done);
    Associative(text, done, [DigitChar(q)]);
  }

  /** The bias adaptation.  Dividing by 2 and then by 350 is the RFC's division by 700. */
  method AdaptBias(delta0: uint32, h: uint32, first: bool) returns (bias: uint32)
    requires 0 < h
    ensures bias == Adapt(delta0, h, first) && bias <= 1000
    ensures exists d: nat, n: nat :: IsBias(d, n, bias) && d == Halved(delta0, first) + Halved(delta0, first) / h
  {
    var delta: uint32 := delta0;
    delta := delta / 2;
    if first {
      delta := delta / 350;
      assert delta0 / 2 / 350 == delta0 / 700;
    }
    DivideByCount(delta, h);
    delta := delta + delta / h;
    bias := 0;
    ghost var i := 0;
    assert delta <= Limit(0) && AdaptLoop(delta, 0) == Adapt(delta0, h, first);
    hide Limit, Adapt, Quotient;
    while delta > 35 * 26 / 2
      invariant bias == 36 * i && i <= 10 && delta <= Limit(i)
      invariant AdaptLoop(delta, bias) == Adapt(delta0, h, first)
      decreases delta
    {
      QuotientUnder(delta, 35, Limit(i));
      LimitReached(i);
      delta := delta / 35;
      bias := bias + 36;
      i := i + 1;
    }
    SmallFraction(delta);
    bias := bias + 36 * delta / (delta + 38);
    BiasIs(delta0, h, first);
  }

  /** The first delta is divided by 700 and the others by 2. */
  function Halved(delta: nat, first: bool): nat {
    if first then delta / 700 else delta / 2
  }

  lemma BiasIs(delta: nat, h: nat, first: bool)
    requires h > 0
    ensures exists d: nat, n: nat ::
              IsBias(d, n, Adapt(delta, h, first)) && d == Halved(delta, first) + Halved(delta, first) / h
  {
    var half, share, n := AdaptIs(delta, h, first);
    hide IsBias, Adapt;
    assert half + share == Halved(delta, first) + Halved(delta, first) / h;
  }

  lemma DivideByCount(x: nat, h: nat)
    requires h > 0
    ensures 0 <= x / h <= x
  {
    assert x == h * (x / h) + x % h;
    Distribute(1, h - 1, x / h);
    ProductNonNegative(h - 1, x / h);
  }

  lemma SmallFraction(delta: nat)
    ensures 0 <= 36 * delta / (delta + 38) <= 36
  {
    var f := 36 * delta / (delta + 38);
    if f > 36 {
      Distribute(37, f - 37, delta + 38);
      ProductNonNegative(f - 37, delta + 38);
    }
  }

  // ----- the main loop

  /** At cursor p, which is code point j, of the pass over st.n: what is still to be written after
      text makes total. */
  ghost predicate InPass(s: seq<byte>, p: nat, hi: nat, cps: seq<uint32>, j: nat, st: State, todo: int,
                         text: seq<byte>, total: Option<seq<byte>>)
  {
    match st
    case State(n, delta, bias, h, _) =>
      && p <= hi <= |s| && j <= |cps| && CodePoints(s, p, hi) == Some(cps[j..])
      && IsLabel(cps) && n < CP_LIMIT && bias <= 1000
      && h == |Held(cps, j, n)| && todo == |cps| - h
      && (n in cps[..j] ==> delta <= j)
      && Prepend(text, RunPass(cps, j, st)) == total
  }

  lemma InPassSkip(s: seq<byte>, p: nat, hi: nat, cps: seq<uint32>, j: nat, st: State, todo: int,
                   text: seq<byte>, total: Option<seq<byte>>)
    requires InPass(s, p, hi, cps, j, st, todo, text, total) && p < hi && Decode1(s, p, hi).0 != st.n
    ensures var (c, q) := Decode1(s, p, hi);
            if Pass(st, c).delta > UINT_MAX then total == None
            else InPass(s, q, hi, cps, j + 1, Pass(st, c), todo, text, total)
  {
    NextPoint(s, p, hi, cps, j);
    HeldStep(cps, j, st.n);
    assert cps[..j + 1] == cps[..j] + [cps[j]];
  }

  lemma InPassEmit(s: seq<byte>, p: nat, hi: nat, cps: seq<uint32>, j: nat, st: State, todo: int,
                   text: seq<byte>, total: Option<seq<byte>>)
    requires InPass(s, p, hi, cps, j, st, todo, text, total) && p < hi && Decode1(s, p, hi).0 == st.n
    ensures st.h < |cps| && todo > 0
    ensures Emit(st).bias <= 1000 ==>
              InPass(s, Decode1(s, p, hi).1, hi, cps, j + 1, Emit(st), todo - 1,
                     text + EncodeVar(st.delta, BASE, st.bias), total)
  {
    NextPoint(s, p, hi, cps, j);
    HeldStep(cps, j, st.n);
    HeldFits(cps, j + 1, st.n);
    if RunPass(cps, j + 1, Emit(st)).Some? {
      Associative(text, EncodeVar(st.delta, BASE, st.bias), RunPass(cps, j + 1, Emit(st)).value);
    }
  }

  /** What the outer loop of uv__idna_toascii_label knows at its head. */
  ghost predicate AtHead(cps: seq<uint32>, st: State, todo: int, text: seq<byte>, total: Option<seq<byte>>)
  {
    match st
    case State(n, delta, bias, h, _) =>
      && IsLabel(cps) && n <= CP_LIMIT && bias <= 1000 && delta <= |cps| + 1
      && h == |Below(cps, n)| && todo == |cps| - h
      && Prepend(text, Run(cps, st)) == total
  }

  lemma InPassDone(s: seq<byte>, hi: nat, cps: seq<uint32>, j: nat, st: State, todo: int,
                   text: seq<byte>, total: Option<seq<byte>>)
    requires InPass(s, hi, hi, cps, j, st, todo, text, total) && st.n in cps
    ensures st.delta <= |cps| && AtHead(cps, st.(n := st.n + 1, delta := st.delta + 1), todo, text, total)
  {
    NextPoint(s, hi, hi, cps, j);
    assert cps[..j] == cps;
    HeldWrap(cps, st.n);
  }

  /** Writes the delta and adapts the bias. */
  method WriteDelta(d: array<byte>, pos0: nat, de: nat, st0: State,
                    ghost was: seq<byte>, ghost d0: nat, ghost text0: seq<byte>)
    returns (pos: nat, ghost text: seq<byte>, st: State)
    requires st0.bias <= 1000 && st0.delta <= UINT_MAX && st0.h < UINT_MAX
    requires Wrote(d, was, d0, pos0, de, text0)
    modifies d
    ensures text == text0 + EncodeVar(st0.delta, BASE, st0.bias)
    ensures Wrote(d, was, d0, pos, de, text)
    ensures st == Emit(st0) && st.bias <= 1000 && st.n == st0.n && st.delta == 0
  {
    pos := PutDelta(d, pos0, de, st0.delta, st0.bias, was, d0, text0);
    text := text0 + EncodeVar(st0.delta, BASE, st0.bias);
    var h: uint32 := st0.h + 1;
    var bias := AdaptBias(st0.delta, h, st0.first);
    st := State(st0.n, 0, bias, h, false);
  }

  /** One character of a pass. */
  method PassOne(c: uint32, st0: State, todo0: uint32, d: array<byte>, pos0: nat, de: nat,
                 ghost was: seq<byte>, ghost d0: nat, ghost text0: seq<byte>)
    returns (ok: bool, st: State, todo: uint32, pos: nat, ghost text: seq<byte>)
    requires st0.delta <= UINT_MAX && st0.bias <= 1000 && (c == st0.n ==> st0.h < UINT_MAX && todo0 > 0)
    requires Wrote(d, was, d0, pos0, de, text0)
    modifies d
    ensures Wrote(d, was, d0, pos, de, text)
    ensures ok <==> c == st0.n || Pass(st0, c).delta <= UINT_MAX
    ensures ok ==> st.n == st0.n && st.delta <= UINT_MAX && st.bias <= 1000
    ensures ok ==>
              if c == st0.n then
                st == Emit(st0) && todo == todo0 - 1 && text == text0 + EncodeVar(st0.delta, BASE, st0.bias)
              else st == Pass(st0, c) && todo == todo0 && text == text0
  {
    ok, st, todo, pos, text := true, st0, todo0, pos0, text0;
    if c < st.n {
      if st.delta == UINT_MAX {
        ok := false;
        return;
      }
      var delta: uint32 := st.delta + 1;
      st := st.(delta := delta);
    }
    if c != st.n {
      return;
    }
    pos, text, st := WriteDelta(d, pos, de, st, was, d0, text);
    todo := todo - 1;
  }

  /** The pass that writes a delta for every occurrence of code point st0.n. */
  method WritePass(s: seq<byte>, lo: nat, hi: nat, st0: State, todo0: uint32,
                   d: array<byte>, pos0: nat, de: nat,
                   ghost cps: seq<uint32>, ghost was: seq<byte>, ghost d0: nat,
                   ghost text0: seq<byte>, ghost total: Option<seq<byte>>)
    returns (ok: bool, st: State, todo: uint32, pos: nat, ghost text: seq<byte>, ghost j: nat)
    requires InPass(s, lo, hi, cps, 0, st0, todo0, text0, total)
    requires |cps| < 0x8000_0000 && st0.n in cps && st0.delta <= UINT_MAX
    requires Wrote(d, was, d0, pos0, de, text0)
    modifies d
    ensures Wrote(d, was, d0, pos, de, text)
    ensures !ok ==> total == None
    ensures ok ==> st.n == st0.n && InPass(s, hi, hi, cps, j, st, todo, text, total)
  {
    assert hi <= |s| && st0.bias <= 1000 && lo <= hi;
    hide Wrote, InPass, Decode1, Emit, EncodeVar;
    ok, st, todo, pos, text := true, st0, todo0, pos0, text0;
    var p := lo;
    j := 0;
    while p < hi
      invariant lo <= p <= hi && st.delta <= UINT_MAX && st.n == st0.n && st.bias <= 1000
      invariant InPass(s, p, hi, cps, j, st, todo, text, total)
      invariant Wrote(d, was, d0, pos, de, text)
    {
      var (c, q) := Decode1(s, p, hi);
      if c != st.n {
        InPassSkip(s, p, hi, cps, j, st, todo, text, total);
      } else {
        InPassEmit(s, p, hi, cps, j, st, todo, text, total);
      }
      p := q;
      j := j + 1;
      ok, st, todo, pos, text := PassOne(c, st, todo, d, pos, de, was, d0, text);
      if !ok {
        return;
      }
    }
  }

  /** The step to the next code point after a pass. */
  method LeavePass(st0: State, ghost s: seq<byte>, ghost hi: nat, ghost cps: seq<uint32>, ghost j: nat,
                   ghost todo: int, ghost text: seq<byte>, ghost total: Option<seq<byte>>)
    returns (st: State)
    requires InPass(s, hi, hi, cps, j, st0, todo, text, total) && st0.n in cps && |cps| < UINT_MAX
    ensures st.n == st0.n + 1 && AtHead(cps, st, todo, text, total)
  {
    InPassDone(s, hi, cps, j, st0, todo, text, total);
    var delta: uint32, n: uint32 := st0.delta + 1, st0.n + 1;
    st := st0.(delta := delta, n := n);
  }

  lemma AllHandledIff(cps: seq<int>, n: nat)
    requires IsLabel(cps)
    ensures |Below(cps, n)| == |cps| <==> Smallest(cps, 0, n, UINT_MAX) == UINT_MAX
  {
    var m := Smallest(cps, 0, n, UINT_MAX);
    assert cps[0..] == cps;
    if m == UINT_MAX {
      BelowAll(cps, n);
    } else {
      var k :| 0 <= k < |cps| && cps[k] == m;
      assert cps == cps[..k] + cps[k..];
      BelowConcat(cps[..k], cps[k..], n);
    }
  }

  /** The test `x > ~delta / y` is exactly the overflow of delta + x * y. */
  lemma OverflowTest(x: nat, y: nat, delta: nat)
    requires y > 0 && delta <= UINT_MAX
    ensures x > (UINT_MAX - delta) / y <==> delta + x * y > UINT_MAX
  {
    var a := UINT_MAX - delta;
    var q := a / y;
    assert a == y * q + a % y;
    if x > q {
      Distribute(q + 1, x - q - 1, y);
      ProductNonNegative(x - q - 1, y);
    } else {
      Distribute(x, q - x, y);
      ProductNonNegative(q - x, y);
    }
  }

  lemma HeadToPass(s: seq<byte>, lo: nat, hi: nat, cps: seq<uint32>, st: State, todo: int,
                   m: nat, x: nat, y: nat, text: seq<byte>, total: Option<seq<byte>>)
    requires lo <= hi <= |s| && CodePoints(s, lo, hi) == Some(cps)
    requires AtHead(cps, st, todo, text, total) && todo > 0
    requires st.n <= m == Smallest(cps, 0, st.n, UINT_MAX) < UINT_MAX
    requires x == m - st.n && y == st.h + 1 && st.delta <= UINT_MAX
    ensures m < CP_LIMIT && m in cps
    ensures if x > (UINT_MAX - st.delta) / y then total == None
            else Skip(st, m).delta <= UINT_MAX && InPass(s, lo, hi, cps, 0, Skip(st, m), todo, text, total)
  {
    hide CodePoints, RunPass, Below, Smallest;
    OverflowTest(x, y, st.delta);
    assert cps[0..] == cps && cps[..0] == [];
    HeldSkip(cps, st.n, m);
  }

  lemma HeadDone(cps: seq<uint32>, st: State, text: seq<byte>, total: Option<seq<byte>>)
    requires AtHead(cps, st, 0, text, total)
    ensures total == Some(text)
  {
    AllHandledIff(cps, st.n);
    assert text + [] == text;
  }

  /** One round of the outer loop: skips to the next code point m and writes its deltas. */
  method WriteRound(s: seq<byte>, lo: nat, hi: nat, st0: State, todo0: uint32,
                    d: array<byte>, pos0: nat, de: nat,
                    ghost cps: seq<uint32>, ghost was: seq<byte>, ghost d0: nat,
                    ghost text0: seq<byte>, ghost total: Option<seq<byte>>)
    returns (ok: bool, st: State, todo: uint32, pos: nat, ghost text: seq<byte>)
    requires lo <= hi <= |s| && CodePoints(s, lo, hi) == Some(cps) && |cps| < 0x8000_0000
    requires AtHead(cps, st0, todo0, text0, total) && todo0 > 0
    requires Wrote(d, was, d0, pos0, de, text0)
    modifies d
    ensures Wrote(d, was, d0, pos, de, text)
    ensures if ok then AtHead(cps, st, todo, text, total) && st.n > st0.n else total == None
  {
    st, todo, pos, text := st0, todo0, pos0, text0;
    var m := FindSmallest(s, lo, hi, st.n, cps);
    AllHandledIff(cps, st.n);
    var x: uint32 := m - st.n;
    var y: uint32 := st.h + 1;
    HeadToPass(s, lo, hi, cps, st, todo, m, x, y, text, total);
    if x > (UINT_MAX - st.delta) / y {
      ok := false;
      return;
    }
    ghost var j;
    ok, st, todo, pos, text, j := WritePass(s, lo, hi, Skip(st, m), todo, d, pos, de, cps, was, d0, text, total);
    if ok {
      st := LeavePass(st, s, hi, cps, j, todo, text, total);
    }
  }

  /** The outer loop: one round for every distinct code point above 127, in increasing order. */
  method WriteDeltas(s: seq<byte>, lo: nat, hi: nat, h0: uint32, todo0: uint32,
                     d: array<byte>, pos0: nat, de: nat,
                     ghost cps: seq<uint32>, ghost was: seq<byte>, ghost d0: nat,
                     ghost text0: seq<byte>, ghost total: Option<seq<byte>>)
    returns (ok: bool, pos: nat)
    requires lo <= hi <= |s| && CodePoints(s, lo, hi) == Some(cps) && |cps| < 0x8000_0000
    requires AtHead(cps, Start(h0), todo0, text0, total)
    requires Wrote(d, was, d0, pos0, de, text0)
    modifies d
    ensures ok <==> total.Some?
    ensures ok ==> Wrote(d, was, d0, pos, de, total.value)
    ensures d0 <= pos <= de
  {
    var st, todo := Start(h0), todo0;
    ghost var text := text0;
    pos := pos0;
    while todo > 0
      invariant AtHead(cps, st, todo, text, total)
      invariant Wrote(d, was, d0, pos, de, text)
      decreases CP_LIMIT - st.n
    {
      ok, st, todo, pos, text := WriteRound(s, lo, hi, st, todo, d, pos, de, cps, was, d0, text, total);
      if !ok {
        return;
      }
    }
    HeadDone(cps, st, text, total);
    ok := true;
  }

  // ----- one label

  method PutAll(text1: seq<byte>, d: array<byte>, pos0: nat, de: nat,
                ghost was: seq<byte>, ghost d0: nat, ghost text: seq<byte>) returns (pos: nat)
    requires Wrote(d, was, d0, pos0, de, text)
    modifies d
    ensures Wrote(d, was, d0, pos, de, text + text1)
  {
    pos := pos0;
    assert text + text1[..0] == text;
    for i := 0 to |text1|
      invariant Wrote(d, was, d0, pos, de, text + text1[..i])
    {
      pos := Put(d, pos, de, text1[i], was, d0, text + text1[..i]);
      Associative(text, text1[..i], [text1[i]]);
      assert text1[..i] + [text1[i]] == text1[..i + 1];
    }
    assert text1[..|text1|] == text1;
  }

  /** The text before the deltas: the prefix unless the label is ASCII, the ASCII characters, and
      a delimiter when both are present. */
  function Lead(cps: seq<uint32>): seq<byte>
    requires IsLabel(cps)
  {
    var b := Basic(cps);
    if |b| == |cps| then b else PREFIX + b + (if b == [] then [] else [DELIMITER])
  }

  lemma StartAtHead(cps: seq<uint32>, h: nat)
    requires IsLabel(cps) && h == |Basic(cps)|
    ensures if h < |cps| then AtHead(cps, Start(h), |cps| - h, Lead(cps), LabelText(cps))
            else LabelText(cps) == Some(Lead(cps))
  {
    var b := Basic(cps);
    match Run(cps, Start(h))
    case None =>
    case Some(digits) =>
      var sep: seq<byte> := if b == [] then [] else [DELIMITER];
      Associative(PREFIX, b, sep);
      Associative(PREFIX, b + sep, digits);
  }

  method WriteLead(s: seq<byte>, lo: nat, hi: nat, h: uint32, todo: uint32, d: array<byte>, pos0: nat, de: nat,
                   ghost cps: seq<uint32>, ghost was: seq<byte>) returns (pos: nat)
    requires lo <= hi <= |s| && CodePoints(s, lo, hi) == Some(cps) && IsLabel(cps)
    requires h == |Basic(cps)| && todo == |cps| - h
    requires Wrote(d, was, pos0, pos0, de, [])
    modifies d
    ensures Wrote(d, was, pos0, pos, de, Lead(cps))
  {
    pos := pos0;
    ghost var text: seq<byte> := [];
    if todo > 0 {
      pos := PutAll(PREFIX, d, pos, de, was, pos0, text);
      assert text + PREFIX == PREFIX;
      text := PREFIX;
    }
    pos := CopyBasic(s, lo, hi, h, d, pos, de, cps, was, pos0, text);
    assert [] + Basic(cps) == Basic(cps);
    text := text + Basic(cps);
    assert text + [] == text;
    if todo > 0 && h > 0 {
      pos := Put(d, pos, de, DELIMITER, was, pos0, text);
    }
  }

  method ToAsciiLabel(s: seq<byte>, lo: nat, hi: nat, d: array<byte>, pos0: nat, de: nat)
    returns (rc: int, pos: nat)
    requires lo <= hi <= |s| && hi - lo < 0x8000_0000
    requires pos0 <= de <= d.Length
    modifies d
    ensures pos0 <= pos <= de
    ensures CodePoints(s, lo, hi) == None ==> rc == UV_EINVAL && pos == pos0 && d[..] == old(d[..])
    ensures CodePoints(s, lo, hi).Some? ==>
              match LabelText(CodePoints(s, lo, hi).value)
              case None => rc == UV_E2BIG
              case Some(text) => rc >= 0 && Wrote(d, old(d[..]), pos0, pos, de, text)
  {
    pos := pos0;
    var ok, h, todo := Count(s, lo, hi);
    if !ok {
      return UV_EINVAL, pos;
    }
    ghost var cps := CodePoints(s, lo, hi).value;
    ghost var was := d[..];
    pos := WriteLead(s, lo, hi, h, todo, d, pos, de, cps, was);
    if todo == 0 {
      return h, pos;
    }
    StartAtHead(cps, h);
    ok, pos := WriteDeltas(s, lo, hi, h, todo, d, pos, de, cps, was, pos0, Lead(cps), LabelText(cps));
    rc := if ok then 0 else UV_E2BIG;
  }

  // ----- whole names

  const DOT: byte := 0x2E

  /** The full stop and its three ideographic and halfwidth variants. */
  predicate IsSeparator(c: int) {
    c == 0x2E || c == 0x3002 || c == 0xFF0E || c == 0xFF61
  }

  /** The length of the first label. */
  function LabelLength(cps: seq<int>): (k: nat)
    ensures k <= |cps|
    ensures forall i :: 0 <= i < k ==> !IsSeparator(cps[i])
    ensures k < |cps| ==> IsSeparator(cps[k])
  {
    if cps == [] || IsSeparator(cps[0]) then 0 else 1 + LabelLength(cps[1..])
  }

  /** The ASCII form of a name: its labels encoded one by one, every separator written as a full
      stop; None when a label overflows. */
  function NameText(cps: seq<int>): Option<seq<byte>>
    requires IsLabel(cps)
    decreases |cps|
  {
    var k := LabelLength(cps);
    if cps == [] then Some([])
    else if k == |cps| then LabelText(cps)
    else match LabelText(cps[..k])
      case None => None
      case Some(text) => Prepend(text + [DOT], NameText(cps[k + 1..]))
  }

  // ----- the labels of a name

  /** The pieces of q between the marks. */
  function Pieces(q: seq<int>, marks: set<int>): (r: seq<seq<int>>)
    ensures r != []
  {
    if q == [] then [[]]
    else
      var r := Pieces(q[1..], marks);
      if q[0] in marks then [[]] + r else [[q[0]] + r[0]] + r[1..]
  }

  lemma {:induction false} PiecesWhole(q: seq<int>, marks: set<int>)
    requires forall i :: 0 <= i < |q| ==> q[i] !in marks
    ensures Pieces(q, marks) == [q]
  {
    if q != [] {
      PiecesWhole(q[1..], marks);
      assert q == [q[0]] + q[1..];
    }
  }

  lemma {:induction false} PiecesSplit(a: seq<int>, c: int, b: seq<int>, marks: set<int>)
    requires (forall i :: 0 <= i < |a| ==> a[i] !in marks) && c in marks
    ensures Pieces(a + [c] + b, marks) == [a] + Pieces(b, marks)
  {
    var q := a + [c] + b;
    if a == [] {
      assert q[1..] == b && q[0] == c;
    } else {
      assert q[1..] == a[1..] + [c] + b && q[0] == a[0];
      PiecesSplit(a[1..], c, b, marks);
      assert a == [a[0]] + a[1..];
      assert ([a[1..]] + Pieces(b, marks))[1..] == Pieces(b, marks);
    }
  }

  predicate AreLabels(labels: seq<seq<int>>) {
    forall i :: 0 <= i < |labels| ==> IsLabel(labels[i])
  }

  /** The pieces of the text between full stops are the encoded labels, or there is no text and a label that
      overflows. */
  ghost predicate AllEncoded(labels: seq<seq<int>>, text: Option<seq<byte>>)
    requires AreLabels(labels)
  {
    match text
    case None => exists i :: 0 <= i < |labels| && LabelText(labels[i]) == None
    case Some(t) =>
      && |Pieces(t, {0x2E})| == |labels|
      && forall i :: 0 <= i < |labels| ==>
           LabelText(labels[i]).Some? && LabelText(labels[i]).value == Pieces(t, {0x2E})[i]
  }

  lemma FirstEncoded(head: seq<int>, labels: seq<seq<int>>, text: Option<seq<byte>>)
    requires IsLabel(head) && AreLabels(labels) && AllEncoded(labels, text)
    requires forall i :: 0 <= i < |head| ==> head[i] != 0x2E
    ensures AreLabels([head] + labels)
    ensures AllEncoded([head] + labels,
                       match LabelText(head) case None => None case Some(t) => Prepend(t + [DOT], text))
  {
    var all := [head] + labels;
    if LabelText(head) == None {
      assert LabelText(all[0]) == None;
    } else if text == None {
      var i :| 0 <= i < |labels| && LabelText(labels[i]) == None;
      assert LabelText(all[i + 1]) == None;
    } else {
      EncodedHasNoDot(head);
      hide LabelText, Pieces;
      PiecesSplit(LabelText(head).value, 0x2E, text.value, {0x2E});
    }
  }

  lemma OnlyEncoded(head: seq<int>)
    requires IsLabel(head) && forall i :: 0 <= i < |head| ==> head[i] != 0x2E
    ensures AreLabels([head]) && AllEncoded([head], LabelText(head))
  {
    if LabelText(head).Some? {
      EncodedHasNoDot(head);
      PiecesWhole(LabelText(head).value, {0x2E});
    } else {
      assert LabelText([head][0]) == None;
    }
  }

  lemma {:induction false} PiecesAreLabels(q: seq<int>, marks: set<int>)
    requires IsLabel(q)
    ensures AreLabels(Pieces(q, marks))
  {
    if q != [] {
      PiecesAreLabels(q[1..], marks);
    }
  }

  const SEPARATORS := {0x2E, 0x3002, 0xFF0E, 0xFF61}

  lemma EncodedHasNoDot(cps: seq<int>)
    requires IsLabel(cps) && LabelText(cps).Some? && forall i :: 0 <= i < |cps| ==> cps[i] != 0x2E
    ensures forall i :: 0 <= i < |LabelText(cps).value| ==> LabelText(cps).value[i] != 0x2E
  {
    BelowFrom(cps, 0x80);
    forall i | 0 <= i < |Basic(cps)|
      ensures Basic(cps)[i] != 0x2E
    {
      assert AsPoints(Basic(cps))[i] in Below(cps, 0x80);
    }
    if |Basic(cps)| != |cps| {
      RunHasNoDot(cps, Start(|Basic(cps)|));
      var digits := Run(cps, Start(|Basic(cps)|)).value;
      forall i | 0 <= i < |digits|
        ensures digits[i] != 0x2E
      {
        assert digits[i] in digits;
      }
    }
  }

  lemma {:induction false} BelowFrom(cps: seq<int>, n: int)
    ensures forall x :: x in Below(cps, n) ==> x in cps
  {
    if cps != [] {
      BelowFrom(cps[1..], n);
    }
  }

  lemma {:induction false} VarHasNoDot(q: nat, k: int, bias: nat)
    ensures 0x2E !in EncodeVar(q, k, bias)
    decreases q
  {
    if q >= Threshold(k, bias) {
      var d, q' := EncodeVarUnfold(q, k, bias);
      VarHasNoDot(q', k + BASE, bias);
    }
  }

  lemma {:induction false} RunHasNoDot(cps: seq<int>, st: State)
    requires IsLabel(cps) && st.n <= CP_LIMIT && Run(cps, st).Some?
    ensures 0x2E !in Run(cps, st).value
    decreases CP_LIMIT - st.n, |cps| + 1
  {
    var m := Smallest(cps, 0, st.n, UINT_MAX);
    if m != UINT_MAX {
      PassHasNoDot(cps, 0, Skip(st, m));
    }
  }

  lemma {:induction false} PassHasNoDot(cps: seq<int>, j: nat, st: State)
    requires IsLabel(cps) && j <= |cps| && st.n < CP_LIMIT && RunPass(cps, j, st).Some?
    ensures 0x2E !in RunPass(cps, j, st).value
    decreases CP_LIMIT - st.n, |cps| - j
  {
    if j == |cps| {
      RunHasNoDot(cps, st.(n := st.n + 1, delta := st.delta + 1));
    } else if cps[j] != st.n {
      PassHasNoDot(cps, j + 1, Pass(st, cps[j]));
    } else {
      VarHasNoDot(st.delta, BASE, st.bias);
      PassHasNoDot(cps, j + 1, Emit(st));
    }
  }

  /** The pieces between the full stops of the ASCII form are the encoded labels, one for each label between the
      separators of the name; there is no ASCII form exactly if some label overflows. */
  lemma {:induction false} NameLabels(cps: seq<int>)
    requires IsLabel(cps)
    ensures AreLabels(Pieces(cps, SEPARATORS)) && AllEncoded(Pieces(cps, SEPARATORS), NameText(cps))
    decreases |cps|
  {
    var k := LabelLength(cps);
    var head := cps[..k];
    hide LabelText, Pieces, AllEncoded;
    if k == |cps| {
      assert head == cps;
      PiecesWhole(cps, SEPARATORS);
      OnlyEncoded(cps);
      NameOfOne(cps);
    } else {
      var rest := cps[k + 1..];
      assert cps == head + [cps[k]] + rest;
      PiecesSplit(head, cps[k], rest, SEPARATORS);
      NameLabels(rest);
      FirstEncoded(head, Pieces(rest, SEPARATORS), NameText(rest));
    }
  }

  lemma NameOfOne(cps: seq<int>)
    requires IsLabel(cps) && LabelLength(cps) == |cps|
    ensures NameText(cps) == LabelText(cps)
  {
    if cps == [] {
      assert Basic(cps) == [];
    }
  }

  /** The characters from p up to the character boundary q, read with the bound pe. */
  function ScanTo(s: seq<byte>, p: nat, q: nat, pe: nat): Option<seq<uint32>>
    requires p <= q <= pe <= |s|
    decreases q - p
  {
    if p == q then Some([])
    else
      var (c, p') := Decode1(s, p, pe);
      if c == UINT_MAX || p' > q then None else Prepend([c], ScanTo(s, p', q, pe))
  }

  lemma {:induction false} ScanOne(s: seq<byte>, p: nat, q: nat, pe: nat)
    requires p <= q < pe <= |s| && ScanTo(s, p, q, pe).Some? && Decode1(s, q, pe).0 != UINT_MAX
    ensures ScanTo(s, p, Decode1(s, q, pe).1, pe) == Some(ScanTo(s, p, q, pe).value + [Decode1(s, q, pe).0])
    decreases q - p
  {
    var (c, q') := Decode1(s, q, pe);
    if p == q {
      assert ScanTo(s, q', q', pe) == Some([]);
      assert [c] + [] == [c] == [] + [c];
    } else {
      var (a, p') := Decode1(s, p, pe);
      ScanOne(s, p', q, pe);
      assert [a] + (ScanTo(s, p', q, pe).value + [c]) == ([a] + ScanTo(s, p', q, pe).value) + [c];
    }
  }

  /** The label pass reads the same characters as the pass over the whole name, so the asserts in
      uv__idna_toascii_label never fail. */
  lemma {:induction false} LabelAgrees(s: seq<byte>, p: nat, q: nat, pe: nat)
    requires p <= q <= pe <= |s| && ScanTo(s, p, q, pe).Some?
    ensures CodePoints(s, p, q) == ScanTo(s, p, q, pe)
    decreases q - p
  {
    if p < q {
      BoundIrrelevant(s, p, pe, q);
      LabelAgrees(s, Decode1(s, p, pe).1, q, pe);
    }
  }

  /** Where the scan of uv__idna_toascii stands: the current label is s[lo..si], holding the
      characters current, and text has been written for the labels before it. */
  ghost predicate Scanning(s: seq<byte>, lo: nat, si: nat, current: seq<uint32>, text: seq<byte>)
  {
    && lo <= si <= |s| && ScanTo(s, lo, si, |s|) == Some(current)
    && IsLabel(current) && LabelLength(current) == |current|
    && (CodePoints(s, 0, |s|).Some? <==> CodePoints(s, si, |s|).Some?)
    && (CodePoints(s, si, |s|).Some? ==>
          Prepend(text, NameText(current + CodePoints(s, si, |s|).value)) == NameText(CodePoints(s, 0, |s|).value))
  }

  lemma {:induction false} LabelLengthIs(a: seq<int>, b: seq<int>)
    requires forall i :: 0 <= i < |a| ==> !IsSeparator(a[i])
    ensures LabelLength(a) == |a|
    ensures b != [] && IsSeparator(b[0]) ==> LabelLength(a + b) == |a|
  {
    if a == [] {
      assert a + b == b;
    } else {
      assert (a + b)[1..] == a[1..] + b;
      LabelLengthIs(a[1..], b);
    }
  }

  lemma PrependTwice<T>(a: seq<T>, b: seq<T>, x: Option<seq<T>>)
    ensures Prepend(a, Prepend(b, x)) == Prepend(a + b, x)
  {
    if x.Some? {
      assert a + (b + x.value) == (a + b) + x.value;
    }
  }

  lemma NameSplits(current: seq<int>, c: int, rest: seq<int>)
    requires IsLabel(current) && IsLabel(rest) && IsSeparator(c) && IsLabel([c])
    requires forall i :: 0 <= i < |current| ==> !IsSeparator(current[i])
    ensures IsLabel(current + ([c] + rest))
    ensures NameText(current + ([c] + rest))
            == match LabelText(current) case None => None case Some(t) => Prepend(t + [DOT], NameText(rest))
  {
    var all := current + ([c] + rest);
    LabelLengthIs(current, [c] + rest);
    assert all[..|current|] == current && all[|current| + 1..] == rest;
  }

  /** Reading one more character of the current label. */
  lemma ScanInLabel(s: seq<byte>, lo: nat, si: nat, current: seq<uint32>, text: seq<byte>)
    requires Scanning(s, lo, si, current, text) && si < |s|
    requires var c := Decode1(s, si, |s|).0; c != UINT_MAX && !IsSeparator(c)
    ensures Scanning(s, lo, Decode1(s, si, |s|).1, current + [Decode1(s, si, |s|).0], text)
  {
    hide NameText, LabelText, LabelLength, Decode1, ScanTo, Prepend, IsSeparator;
    var (c, q) := Decode1(s, si, |s|);
    ScanOne(s, lo, si, |s|);
    assert forall i :: 0 <= i < |current| ==> !IsSeparator(current[i]);
    LabelLengthIs(current + [c], []);
    if CodePoints(s, q, |s|).Some? {
      var rest := CodePoints(s, q, |s|).value;
      assert CodePoints(s, si, |s|) == Some([c] + rest);
      assert current + ([c] + rest) == (current + [c]) + rest;
    }
  }

  lemma SeparatorRest(s: seq<byte>, lo: nat, si: nat, current: seq<uint32>, text: seq<byte>)
    requires Scanning(s, lo, si, current, text) && si < |s|
    requires IsSeparator(Decode1(s, si, |s|).0)
    ensures var q := Decode1(s, si, |s|).1;
            && (CodePoints(s, 0, |s|).Some? <==> CodePoints(s, q, |s|).Some?)
            && (CodePoints(s, q, |s|).Some? ==>
                  NameText(CodePoints(s, 0, |s|).value)
                  == match LabelText(current)
                     case None => None
                     case Some(t) => Prepend(text + t + [DOT], NameText(CodePoints(s, q, |s|).value)))
  {
    hide NameText, LabelText, LabelLength, Decode1, ScanTo;
    var (c, q) := Decode1(s, si, |s|);
    if CodePoints(s, q, |s|).Some? {
      var rest := CodePoints(s, q, |s|).value;
      assert CodePoints(s, si, |s|) == Some([c] + rest);
      NameSplits(current, c, rest);
      if LabelText(current).Some? {
        var t := LabelText(current).value;
        PrependTwice(text, t + [DOT], NameText(rest));
        assert text + (t + [DOT]) == text + t + [DOT];
      }
    }
  }

  /** Reading a separator ends the label. */
  lemma ScanSeparator(s: seq<byte>, lo: nat, si: nat, current: seq<uint32>, text: seq<byte>)
    requires Scanning(s, lo, si, current, text) && si < |s|
    requires IsSeparator(Decode1(s, si, |s|).0)
    ensures match LabelText(current)
            case None => CodePoints(s, 0, |s|).Some? ==> NameText(CodePoints(s, 0, |s|).value) == None
            case Some(t) => var q := Decode1(s, si, |s|).1; Scanning(s, q, q, [], text + t + [DOT])
  {
    var (c, q) := Decode1(s, si, |s|);
    SeparatorRest(s, lo, si, current, text);
    assert ScanTo(s, q, q, |s|) == Some([]);
    if CodePoints(s, q, |s|).Some? {
      assert [] + CodePoints(s, q, |s|).value == CodePoints(s, q, |s|).value;
    }
  }

  lemma OneLabel(cps: seq<int>)
    requires IsLabel(cps) && LabelLength(cps) == |cps|
    ensures NameText(cps) == if cps == [] then Some([]) else LabelText(cps)
  {}

  lemma ScanEnd(s: seq<byte>, lo: nat, current: seq<uint32>, text: seq<byte>)
    requires Scanning(s, lo, |s|, current, text)
    ensures CodePoints(s, 0, |s|).Some? && (current == [] <==> lo == |s|)
    ensures NameText(CodePoints(s, 0, |s|).value)
            == if lo == |s| then Some(text) else Prepend(text, LabelText(current))
  {
    hide NameText, LabelText, LabelLength, Decode1;
    OneLabel(current);
    assert current + [] == current;
    assert text + [] == text;
  }

  lemma WroteMore(d: array<byte>, was: seq<byte>, mid: seq<byte>, pos0: nat, pos: nat, de: nat,
                  text: seq<byte>, more: seq<byte>)
    requires |mid| == |was| == d.Length && pos0 == Min(|text|, de) && de <= d.Length
    requires mid == text[..pos0] + was[pos0..]
    requires Wrote(d, mid, pos0, pos, de, more)
    ensures Wrote(d, was, 0, pos, de, text + more)
  {}

  /** A label written behind the text of the labels before it. */
  method AppendLabel(s: seq<byte>, lo: nat, hi: nat, d: array<byte>, pos0: nat, de: nat,
                     ghost current: seq<uint32>, ghost was: seq<byte>, ghost text: seq<byte>)
    returns (rc: int, pos: nat)
    requires lo <= hi <= |s| < 0x8000_0000 && ScanTo(s, lo, hi, |s|) == Some(current) && IsLabel(current)
    requires Wrote(d, was, 0, pos0, de, text)
    modifies d
    ensures match LabelText(current)
            case None => rc == UV_E2BIG
            case Some(t) => rc >= 0 && Wrote(d, was, 0, pos, de, text + t)
  {
    hide ScanTo, LabelText, CodePoints;
    LabelAgrees(s, lo, hi, |s|);
    ghost var mid := d[..];
    rc, pos := ToAsciiLabel(s, lo, hi, d, pos0, de);
    if rc >= 0 {
      WroteMore(d, was, mid, pos0, pos, de, text, LabelText(current).value);
    }
  }

  /** A label that ends at a separator: the label, then a full stop. */
  method CloseLabel(s: seq<byte>, lo: nat, st: nat, d: array<byte>, pos0: nat, de: nat,
                    ghost current: seq<uint32>, ghost was: seq<byte>, ghost text0: seq<byte>)
    returns (rc: int, pos: nat, ghost text: seq<byte>)
    requires |s| < 0x8000_0000 && Scanning(s, lo, st, current, text0)
    requires st < |s| && IsSeparator(Decode1(s, st, |s|).0)
    requires Wrote(d, was, 0, pos0, de, text0)
    modifies d
    ensures rc < 0 ==> rc == UV_E2BIG && (CodePoints(s, 0, |s|).Some? ==> NameText(CodePoints(s, 0, |s|).value) == None)
    ensures rc >= 0 ==> var si := Decode1(s, st, |s|).1; Scanning(s, si, si, [], text)
    ensures rc >= 0 ==> Wrote(d, was, 0, pos, de, text)
  {
    text := text0;
    ScanSeparator(s, lo, st, current, text0);
    rc, pos := AppendLabel(s, lo, st, d, pos0, de, current, was, text0);
    if rc >= 0 {
      text := text + LabelText(current).value;
      pos := Put(d, pos, de, DOT, was, 0, text);
      text := text + [DOT];
    }
  }

  lemma StartScanning(s: seq<byte>)
    ensures Scanning(s, 0, 0, [], [])
  {
    if CodePoints(s, 0, |s|).Some? {
      var all := CodePoints(s, 0, |s|).value;
      assert [] + all == all;
      if NameText(all).Some? {
        assert [] + NameText(all).value == NameText(all).value;
      }
    }
  }

  /** The result of uv__idna_toascii for a legal name. */
  predicate IsResult(s: seq<byte>, d: seq<byte>, r: int)
    requires CodePoints(s, 0, |s|).Some?
  {
    match NameText(CodePoints(s, 0, |s|).value)
    case None => r == UV_E2BIG
    case Some(text) =>
      if |text| < |d| then r == |text| + 1 && d[..r] == text + [0] else r == UV_EINVAL
  }

  method Terminate(d: array<byte>, pos: nat, ghost was: seq<byte>, ghost text: seq<byte>) returns (r: int)
    requires Wrote(d, was, 0, pos, d.Length, text)
    modifies d
    ensures if |text| < d.Length then r == |text| + 1 && d[..r] == text + [0] else r == UV_EINVAL
  {
    if pos >= d.Length {
      return UV_EINVAL;
    }
    assert text[..pos] == text;
    d[pos] := 0;
    return pos + 1;
  }

  /** The label behind the last separator, and the NUL. */
  method FinishName(s: seq<byte>, lo: nat, d: array<byte>, pos0: nat,
                    ghost current: seq<uint32>, ghost was: seq<byte>, ghost text0: seq<byte>) returns (r: int)
    requires |s| < 0x8000_0000 && Scanning(s, lo, |s|, current, text0)
    requires Wrote(d, was, 0, pos0, d.Length, text0)
    modifies d
    ensures CodePoints(s, 0, |s|).Some? && IsResult(s, d[..], r)
  {
    var pos := pos0;
    ghost var text := text0;
    ScanEnd(s, lo, current, text);
    if lo < |s| {
      var rc;
      rc, pos := AppendLabel(s, lo, |s|, d, pos, d.Length, current, was, text);
      if rc < 0 {
        return rc;
      }
      text := text + LabelText(current).value;
    }
    assert NameText(CodePoints(s, 0, |s|).value) == Some(text);
    r := Terminate(d, pos, was, text);
  }

  /** uv__idna_toascii: the result is the length of the whole ASCII form with its NUL, and the form
      is in d, exactly when the name is legal, no label overflows and the form fits. */
  method ToAscii(s: seq<byte>, d: array<byte>) returns (r: int)
    requires |s| < 0x8000_0000
    modifies d
    ensures s == [] ==> r == UV_EINVAL
    ensures CodePoints(s, 0, |s|) == None ==> r < 0
    ensures s != [] && CodePoints(s, 0, |s|).Some? ==> IsResult(s, d[..], r)
  {
    if |s| == 0 {
      return UV_EINVAL;
    }
    var de := d.Length;
    var pos: nat, lo: nat, si: nat := 0, 0, 0;
    ghost var was := d[..];
    ghost var current: seq<uint32> := [];
    ghost var text: seq<byte> := [];
    StartScanning(s);
    while si < |s|
      invariant Scanning(s, lo, si, current, text)
      invariant Wrote(d, was, 0, pos, de, text)
      decreases |s| - si
    {
      var st := si;
      var (c, q) := Decode1(s, si, |s|);
      si := q;
      if c == UINT_MAX {
        return UV_EINVAL;
      }
      if c != 0x2E && c != 0x3002 && c != 0xFF0E && c != 0xFF61 {
        ScanInLabel(s, lo, st, current, text);
        current := current + [c];
        continue;
      }
      var rc;
      rc, pos, text := CloseLabel(s, lo, st, d, pos, de, current, was, text);
      if rc < 0 {
        return rc;
      }
      current := [];
      lo := si;
    }
    r := FinishName(s, lo, d, pos, current, was, text);
  }
}
