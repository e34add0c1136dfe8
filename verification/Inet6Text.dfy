/** The text form of IPv6 addresses in src/inet.c, as functions of the words and of the text. */
module Inet6Text {
  import opened Basics
  import opened InetText

  const WORDS := 8

  predicate Eight(w: seq<word>) { |w| == WORDS }

  /** The bytes of words, high byte first. */
  function Bytes(w: seq<word>): (b: seq<byte>)
    ensures |b| == 2 * |w|
  {
    if w == [] then [] else [w[0] / 256, w[0] % 256] + Bytes(w[1..])
  }

  lemma {:induction false} BytesAppend(v: seq<word>, w: seq<word>)
    ensures Bytes(v + w) == Bytes(v) + Bytes(w)
  {
    if v == [] {
      assert v + w == w;
    } else {
      assert (v + w)[1..] == v[1..] + w;
      BytesAppend(v[1..], w);
    }
  }

  // ----- printing

  /** The run that is printed as "::", or no run: base is -1 then. */
  datatype Run = Run(base: int, len: int)

  predicate InRun(r: Run, i: int) {
    r.base != -1 && r.base <= i < r.base + r.len
  }

  predicate ZeroRun(w: seq<word>, b: int, n: int) {
    0 <= b <= b + n <= |w| && forall i :: b <= i < b + n ==> w[i] == 0
  }

  /** A run of at least two zero words, or none. */
  predicate Usable(w: seq<word>, r: Run) {
    r.base == -1 || (r.len >= 2 && ZeroRun(w, r.base, r.len))
  }

  /** Section 4.2 of RFC 5952: the longest run of at least two zero words, the leftmost of those. */
  ghost predicate IsBest(w: seq<word>, r: Run) {
    && Usable(w, r)
    && forall b, n :: n >= 2 && ZeroRun(w, b, n) ==> r.base != -1 && n <= r.len && (n == r.len ==> r.base <= b)
  }

  lemma BestIsUnique(w: seq<word>, r: Run, q: Run)
    requires IsBest(w, r) && IsBest(w, q)
    ensures r.base == q.base && (r.base != -1 ==> r.len == q.len)
  {}

  /** The IPv4 form of the last four bytes is used behind the prefix of a compatible or mapped address.
      The source also asks for a run of seven words here, but word 6 is then inside the run. */
  predicate Embeds(w: seq<word>, r: Run)
    requires Eight(w)
  {
    r.base == 0 && (r.len == 6 || (r.len == 5 && w[5] == 0xffff))
  }

  /** What is printed from word i on. */
  function Tail(w: seq<word>, r: Run, i: int): (s: string)
    requires Eight(w) && 0 <= i <= WORDS
    decreases WORDS - i
  {
    if i == WORDS then if r.base != -1 && r.base + r.len == WORDS then ":" else ""
    else if InRun(r, i) then (if i == r.base then ":" else "") + Tail(w, r, i + 1)
    else
      (if i != 0 then ":" else "") +
      if i == 6 && Embeds(w, r) then Dotted(Bytes(w[6..]))
      else Hex(w[i]) + Tail(w, r, i + 1)
  }

  // ----- parsing

  /** The state of inet_pton6: the bytes written, where "::" was (-1: nowhere), the text after the last
      colon, and the word being read. */
  datatype State6 = State6(bytes: seq<byte>, colon: int, token: string, val: int, seen: int)

  predicate Fits(st: State6) {
    |st.bytes| <= 16 && -1 <= st.colon <= |st.bytes| && 0 <= st.seen <= 4 && 0 <= st.val && (st.seen == 0 ==> st.val == 0)
    && st.val < Power16(st.seen)
  }

  function Power16(k: int): (p: int)
    ensures p <= 0x1_0000
  {
    if k <= 0 then 1 else if k == 1 then 16 else if k == 2 then 256 else if k == 3 then 4096 else 0x1_0000
  }

  function Push(st: State6): State6
    requires Fits(st)
  {
    st.(bytes := st.bytes + [st.val / 256, st.val % 256], val := 0, seen := 0)
  }

  /** The loop of inet_pton6. */
  function Read6(s: string, st: State6): (r: Option<State6>)
    requires Fits(st)
    ensures r.Some? ==> Fits(r.value)
    decreases |s|
  {
    if s == [] then Some(st)
    else
      var rest := s[1..];
      var d := HexValue(s[0]);
      if d >= 0 then
        if st.seen == 4 then None else Read6(rest, st.(val := st.val * 16 + d, seen := st.seen + 1))
      else if s[0] == ':' then
        if st.seen == 0 then
          if st.colon != -1 then None else Read6(rest, st.(colon := |st.bytes|, token := rest))
        else if rest == [] then None
        else if |st.bytes| + 2 > 16 then None
        else Read6(rest, Push(st).(token := rest))
      else if s[0] == '.' && |st.bytes| + 4 <= 16 then
        match Parse4(st.token)
        case Some(b) => Some(st.(bytes := st.bytes + b, val := 0, seen := 0))
        case None => None
      else None
  }

  /** The bytes behind "::" go to the end, with zeros before them. */
  function Shifted(b: seq<byte>, colon: nat): (r: seq<byte>)
    requires colon <= |b| <= 16
    ensures |r| == 16
  {
    b[..colon] + Zeros(16 - |b|) + b[colon..]
  }

  function Zeros(n: nat): (z: seq<byte>)
    ensures |z| == n && forall i :: 0 <= i < n ==> z[i] == 0
  {
    seq(n, _ => 0)
  }

  /** After the loop: the last word, and the place of "::". */
  function Finish(st: State6): (r: Option<seq<byte>>)
    requires Fits(st)
    ensures r.Some? ==> |r.value| == 16
  {
    if st.seen > 0 && |st.bytes| + 2 > 16 then None
    else
      var b := if st.seen > 0 then Push(st).bytes else st.bytes;
      if st.colon != -1 then if |b| == 16 then None else Some(Shifted(b, st.colon))
      else if |b| != 16 then None
      else Some(b)
  }

  function Start(s: string): State6 {
    State6([], -1, s, 0, 0)
  }

  function Parse6(s: string): (r: Option<seq<byte>>)
    ensures r.Some? ==> |r.value| == 16
  {
    if s != [] && s[0] == ':' then
      if |s| >= 2 && s[1] == ':' then End(Read6(s[1..], Start(s[1..]))) else None
    else End(Read6(s, Start(s)))
  }

  function End(st: Option<State6>): (r: Option<seq<byte>>)
    requires st.Some? ==> Fits(st.value)
    ensures r.Some? ==> |r.value| == 16
  {
    if st.None? then None else Finish(st.value)
  }

  // ----- reading what was printed

  lemma ReadDigit(d: int, t: string, st: State6)
    requires Fits(st) && 0 <= st.seen < 4 && 0 <= d < 16
    ensures Fits(st.(val := st.val * 16 + d, seen := st.seen + 1))
    ensures Read6([Digit(d)] + t, st) == Read6(t, st.(val := st.val * 16 + d, seen := st.seen + 1))
  {}

  lemma {:induction false} ReadHex(n: nat, t: string, st: State6)
    requires Fits(st) && st.seen == 0 && |Hex(n)| <= 4
    ensures n < Power16(|Hex(n)|)
    ensures Read6(Hex(n) + t, st) == Read6(t, st.(val := n, seen := |Hex(n)|))
    decreases n
  {
    if n < 16 {
      ReadDigit(n, t, st);
    } else {
      var u := [Digit(n % 16)] + t;
      assert Hex(n) + t == Hex(n / 16) + u;
      ReadHex(n / 16, u, st);
      ReadDigit(n % 16, t, st.(val := n / 16, seen := |Hex(n / 16)|));
    }
  }

  lemma {:induction false} DecDigits(n: nat)
    ensures forall i :: 0 <= i < |Dec(n)| ==> '0' <= Dec(n)[i] <= '9'
  {
    if n >= 10 {
      DecDigits(n / 10);
    }
  }

  /** Digits only change the word being read. */
  lemma {:induction false} ReadDigits(s: string, t: string, st: State6) returns (st': State6)
    requires Fits(st) && st.seen + |s| <= 4 && forall i :: 0 <= i < |s| ==> '0' <= s[i] <= '9'
    ensures Fits(st') && st' == st.(val := st'.val, seen := st.seen + |s|)
    ensures Read6(s + t, st) == Read6(t, st')
    decreases |s|
  {
    if s == "" {
      assert s + t == t;
      st' := st;
    } else {
      var d := HexValue(s[0]);
      assert s[0] == Digit(d) && s + t == [Digit(d)] + (s[1..] + t);
      ReadDigit(d, s[1..] + t, st);
      st' := ReadDigits(s[1..], t, st.(val := st.val * 16 + d, seen := st.seen + 1));
    }
  }

  lemma DottedStarts(b: seq<byte>) returns (rest: string)
    requires |b| == 4
    ensures Dotted(b) == Dec(b[0]) + ("." + rest)
  {
    hide Dec;
    var d := b[..3];
    assert d[..2] == b[..2] && b[..2][..1] == b[..1] && b[..1][..0] == [];
    assert WithDots(b[..1]) == Dec(b[0]) + ".";
    assert WithDots(b[..2]) == Dec(b[0]) + "." + Dec(b[1]) + ".";
    hide WithDots;
    rest := Dec(b[1]) + "." + Dec(b[2]) + "." + Dec(b[3]);
  }

  /** After a colon an embedded IPv4 text is read to its end. */
  lemma ReadEmbedded(b: seq<byte>, st: State6)
    requires |b| == 4 && Fits(st) && st.seen == 0 && st.token == Dotted(b) && |st.bytes| <= 12
    ensures Read6(Dotted(b), st) == Some(st.(bytes := st.bytes + b, val := 0))
  {
    var rest := DottedStarts(b);
    DecLength(b[0]);
    DecDigits(b[0]);
    var st' := ReadDigits(Dec(b[0]), "." + rest, st);
    assert ("." + rest)[0] == '.' && HexValue('.') == -1;
    RoundTrip4(b);
  }

  lemma HexBound(n: word)
    ensures n < Power16(|Hex(n)|)
  {}

  /** The state before word i is printed or skipped, for i > 0. */
  function Before(w: seq<word>, r: Run, i: int, token: string): (st: State6)
    requires Eight(w) && Usable(w, r) && 1 <= i <= WORDS
    ensures Fits(st)
  {
    HexLength(w[i - 1]);
    HexBound(w[i - 1]);
    if r.base != -1 && r.base < i <= r.base + r.len then State6(Bytes(w[..r.base]), -1, token, 0, 0)
    else if r.base != -1 && i > r.base + r.len then
      State6(Bytes(w[..r.base] + w[r.base + r.len..i - 1]), 2 * r.base, token, w[i - 1], |Hex(w[i - 1])|)
    else State6(Bytes(w[..i - 1]), -1, token, w[i - 1], |Hex(w[i - 1])|)
  }

  lemma {:induction false} TailColon(w: seq<word>, r: Run, i: int)
    requires Eight(w) && Usable(w, r) && r.base != -1 && r.base < i <= r.base + r.len
    ensures Tail(w, r, i) != "" && Tail(w, r, i)[0] == ':'
    decreases WORDS - i
  {
    if i < r.base + r.len {
      TailColon(w, r, i + 1);
    }
  }

  // ----- the round trip

  lemma ReadColonPending(t: string, st: State6)
    requires Fits(st) && st.seen > 0 && t != "" && |st.bytes| <= 14
    ensures Read6(":" + t, st) == Read6(t, Push(st).(token := t))
  {}

  lemma ReadColonFresh(t: string, st: State6)
    requires Fits(st) && st.seen == 0 && st.colon == -1
    ensures Read6(":" + t, st) == Read6(t, st.(colon := |st.bytes|, token := t))
  {}

  lemma ZeroBytes(w: seq<word>, b: int, n: int)
    requires ZeroRun(w, b, n)
    ensures Bytes(w) == Bytes(w[..b]) + Zeros(2 * n) + Bytes(w[b + n..])
  {
    assert w == w[..b] + w[b..b + n] + w[b + n..];
    BytesAppend(w[..b] + w[b..b + n], w[b + n..]);
    BytesAppend(w[..b], w[b..b + n]);
    AllZero(w[b..b + n]);
  }

  lemma {:induction false} AllZero(w: seq<word>)
    requires forall i :: 0 <= i < |w| ==> w[i] == 0
    ensures Bytes(w) == Zeros(2 * |w|)
  {
    if w != [] {
      AllZero(w[1..]);
    }
  }

  lemma OneWord(x: word)
    ensures Bytes([x]) == [x / 256, x % 256]
  {
    assert [x][1..] == [];
  }

  lemma LastWord(w: seq<word>)
    requires w != []
    ensures Bytes(w) == Bytes(w[..|w| - 1]) + [w[|w| - 1] / 256, w[|w| - 1] % 256]
  {
    hide Bytes;
    var x := w[|w| - 1];
    assert w == w[..|w| - 1] + [x];
    BytesAppend(w[..|w| - 1], [x]);
    OneWord(x);
  }

  /** The end of the text, without a run, behind a run that ends the address, and behind another. */
  lemma EndPlain(w: seq<word>, r: Run, token: string)
    requires Eight(w) && r.base == -1
    ensures End(Read6(Tail(w, r, WORDS), Before(w, r, WORDS, token))) == Some(Bytes(w))
  {
    LastWord(w);
  }

  lemma EndAtRun(w: seq<word>, r: Run, token: string)
    requires Eight(w) && Usable(w, r) && r.base != -1 && r.base + r.len == WORDS
    ensures End(Read6(Tail(w, r, WORDS), Before(w, r, WORDS, token))) == Some(Bytes(w))
  {
    ZeroBytes(w, r.base, r.len);
    var st := Before(w, r, WORDS, token);
    assert ":" + "" == ":" == Tail(w, r, WORDS);
    ReadColonFresh("", st);
    assert w[WORDS..] == [];
    assert Shifted(st.bytes, |st.bytes|) == st.bytes + Zeros(16 - |st.bytes|) + [];
  }

  lemma EndBehindRun(w: seq<word>, r: Run, token: string)
    requires Eight(w) && Usable(w, r) && r.base != -1 && r.base + r.len < WORDS
    ensures End(Read6(Tail(w, r, WORDS), Before(w, r, WORDS, token))) == Some(Bytes(w))
  {
    hide Bytes;
    ZeroBytes(w, r.base, r.len);
    var st := Before(w, r, WORDS, token);
    var front, back := w[..r.base], w[r.base + r.len..];
    var mid := w[r.base + r.len..7];
    assert back[..|back| - 1] == mid;
    LastWord(back);
    BytesAppend(front, mid);
    assert Push(st).bytes == Bytes(front) + Bytes(back);
  }

  /** The state after the colon in front of word i, which is not in the run, and before its digits. */
  function AfterColon(w: seq<word>, r: Run, i: int, token: string): (st: State6)
    requires Eight(w) && Usable(w, r) && 1 <= i < WORDS && !InRun(r, i)
    ensures Fits(st)
  {
    if r.base != -1 && i >= r.base + r.len then
      State6(Bytes(w[..r.base] + w[r.base + r.len..i]), 2 * r.base, token, 0, 0)
    else State6(Bytes(w[..i]), -1, token, 0, 0)
  }

  lemma ReadColon(w: seq<word>, r: Run, i: int, token: string, t: string)
    requires Eight(w) && Usable(w, r) && 1 <= i < WORDS && !InRun(r, i) && t != ""
    ensures Read6(":" + t, Before(w, r, i, token)) == Read6(t, AfterColon(w, r, i, t))
  {
    hide Bytes, Hex;
    HexLength(w[i - 1]);
    var st := Before(w, r, i, token);
    if r.base != -1 && i == r.base + r.len {
      ReadColonFresh(t, st);
      assert w[..r.base] + w[i..i] == w[..r.base];
    } else if r.base != -1 && i > r.base + r.len {
      var v := w[..r.base] + w[r.base + r.len..i];
      assert v[..|v| - 1] == w[..r.base] + w[r.base + r.len..i - 1];
      LastWord(v);
      ReadColonPending(t, st);
    } else {
      assert w[..i][..i - 1] == w[..i - 1];
      LastWord(w[..i]);
      ReadColonPending(t, st);
    }
  }

  lemma ReadWord(w: seq<word>, r: Run, i: int, token: string, t: string)
    requires Eight(w) && Usable(w, r) && 1 <= i < WORDS && !InRun(r, i)
    ensures Read6(Hex(w[i]) + t, AfterColon(w, r, i, token)) == Read6(t, Before(w, r, i + 1, token))
  {
    HexLength(w[i]);
    ReadHex(w[i], t, AfterColon(w, r, i, token));
  }

  /** The colon that opens the run, behind at least one word. */
  lemma ReadRunStart(w: seq<word>, r: Run, token: string)
    requires Eight(w) && Usable(w, r) && 1 <= r.base
    ensures Read6(Tail(w, r, r.base), Before(w, r, r.base, token))
            == Read6(Tail(w, r, r.base + 1), Before(w, r, r.base + 1, Tail(w, r, r.base + 1)))
  {
    var i := r.base;
    TailColon(w, r, i + 1);
    assert w[..i][..i - 1] == w[..i - 1];
    LastWord(w[..i]);
    ReadColonPending(Tail(w, r, i + 1), Before(w, r, i, token));
  }

  /** The bytes around an embedded IPv4 address. */
  lemma EmbeddedBytes(w: seq<word>, r: Run, st: State6)
    requires Eight(w) && Usable(w, r) && Embeds(w, r)
    requires st.bytes == AfterColon(w, r, 6, "").bytes + Bytes(w[6..]) && st.colon == 0 && st.seen == 0
    ensures |st.bytes| <= 16 && Fits(st.(val := 0)) && End(Some(st.(val := 0))) == Some(Bytes(w))
  {
    hide Bytes;
    ZeroBytes(w, 0, r.len);
    var back := w[r.len..];
    assert back == w[r.len..6] + w[6..] && w[..0] == [] && w[..0] + w[r.len..6] == w[r.len..6];
    BytesAppend(w[r.len..6], w[6..]);
    assert st.bytes == Bytes(back);
    assert Shifted(Bytes(back), 0) == [] + Zeros(16 - |Bytes(back)|) + Bytes(back);
  }

  lemma ReadIPv4(w: seq<word>, r: Run, token: string)
    requires Eight(w) && Usable(w, r) && Embeds(w, r)
    ensures End(Read6(Tail(w, r, 6), Before(w, r, 6, token))) == Some(Bytes(w))
  {
    var b := Bytes(w[6..]);
    assert Tail(w, r, 6) == ":" + Dotted(b);
    hide Bytes, Read6, Dotted, Hex, Tail, Before, End, Shifted;
    var rest := DottedStarts(b);
    ReadColon(w, r, 6, token, Dotted(b));
    var st := AfterColon(w, r, 6, Dotted(b));
    assert st.bytes == AfterColon(w, r, 6, "").bytes;
    ReadEmbedded(b, st);
    EmbeddedBytes(w, r, st.(bytes := st.bytes + b));
  }

  /** A word inside the run prints nothing but the colon that opens the run. */
  lemma ReadInRun(w: seq<word>, r: Run, i: int, token: string)
    requires Eight(w) && Usable(w, r) && 1 <= i < WORDS && InRun(r, i)
    ensures Read6(Tail(w, r, i), Before(w, r, i, token))
            == Read6(Tail(w, r, i + 1), Before(w, r, i + 1, if i == r.base then Tail(w, r, i + 1) else token))
  {
    if i == r.base {
      ReadRunStart(w, r, token);
    } else {
      assert "" + Tail(w, r, i + 1) == Tail(w, r, i + 1);
    }
  }

  lemma ReadPrinted(w: seq<word>, r: Run, i: int, token: string)
    requires Eight(w) && Usable(w, r) && 1 <= i < WORDS && !InRun(r, i) && !(i == 6 && Embeds(w, r))
    ensures Read6(Tail(w, r, i), Before(w, r, i, token))
            == Read6(Tail(w, r, i + 1), Before(w, r, i + 1, Hex(w[i]) + Tail(w, r, i + 1)))
  {
    var t := Tail(w, r, i + 1);
    var u := Hex(w[i]) + t;
    HexLength(w[i]);
    assert Tail(w, r, i) == ":" + u;
    hide Tail, Read6, Before, AfterColon, Embeds, Hex;
    ReadColon(w, r, i, token, u);
    ReadWord(w, r, i, u, t);
  }

  /** From word i on the parser reads what was printed. */
  lemma {:induction false} ReadTail(w: seq<word>, r: Run, i: int, token: string)
    requires Eight(w) && Usable(w, r) && 1 <= i <= WORDS && (Embeds(w, r) ==> i <= 6)
    ensures End(Read6(Tail(w, r, i), Before(w, r, i, token))) == Some(Bytes(w))
    decreases WORDS - i
  {
    hide Read6, Tail, Before, End, Bytes, Embeds, InRun;
    if i == WORDS {
      if r.base == -1 {
        EndPlain(w, r, token);
      } else if r.base + r.len == WORDS {
        EndAtRun(w, r, token);
      } else {
        EndBehindRun(w, r, token);
      }
    } else if i == 6 && Embeds(w, r) {
      ReadIPv4(w, r, token);
    } else if InRun(r, i) {
      ReadInRun(w, r, i, token);
      ReadTail(w, r, i + 1, if i == r.base then Tail(w, r, i + 1) else token);
    } else {
      ReadPrinted(w, r, i, token);
      ReadTail(w, r, i + 1, Hex(w[i]) + Tail(w, r, i + 1));
    }
  }

  /** For every address, and any run of at least two zero words printed as "::", parsing the printed
      text gives the bytes back. */
  lemma RoundTrip6(w: seq<word>, r: Run)
    requires Eight(w) && Usable(w, r)
    ensures Parse6(Tail(w, r, 0)) == Some(Bytes(w))
  {
    var s := Tail(w, r, 0);
    var t := Tail(w, r, 1);
    if r.base == 0 {
      assert s == ":" + t && s[1..] == t;
      TailColon(w, r, 1);
      assert w[..0] == [];
      assert Before(w, r, 1, t) == Start(t);
      ReadTail(w, r, 1, t);
    } else {
      assert s == "" + (Hex(w[0]) + t) == Hex(w[0]) + t;
      HexLength(w[0]);
      HexDigits(w[0]);
      ReadHex(w[0], t, Start(s));
      assert w[..0] == [];
      assert Before(w, r, 1, s) == Start(s).(val := w[0], seen := |Hex(w[0])|);
      ReadTail(w, r, 1, s);
    }
  }

  lemma {:induction false} HexDigits(n: nat)
    ensures Hex(n) != "" && Hex(n)[0] != ':'
  {
    DigitValue(n % 16);
    if n >= 16 {
      HexDigits(n / 16);
    }
  }

  function Word(high: int, low: int): (w: word)
    requires 0 <= high < 256 && 0 <= low < 256
  {
    high * 256 + low
  }

  /** The words of an address. */
  function Words(b: seq<byte>): (w: seq<word>)
    requires |b| % 2 == 0
    ensures |w| == |b| / 2 && forall i :: 0 <= i < |w| ==> w[i] == Word(b[2 * i], b[2 * i + 1])
  {
    if b == [] then [] else [Word(b[0], b[1])] + Words(b[2..])
  }

  lemma {:induction false} BytesOfWords(b: seq<byte>)
    requires |b| % 2 == 0
    ensures Bytes(Words(b)) == b
  {
    if b != [] {
      BytesOfWords(b[2..]);
      assert b == [b[0], b[1]] + b[2..];
    }
  }

  // ----- the size of the text

  function Bound(w: seq<word>, r: Run, i: int): int
    requires Eight(w)
  {
    if Embeds(w, r) then if i == 0 then 22 else if i < 6 then 21 else 16
    else 5 * (WORDS - i) + 1
  }

  lemma DottedLength(b: seq<byte>)
    requires |b| == 4
    ensures |Dotted(b)| <= 15
  {
    var rest := DottedStarts(b);
    assert WithDots(b[..3]) == WithDots(b[..3][..2]) + Dec(b[2]) + ".";
    assert b[..3][..2] == b[..2] && b[..2][..1] == b[..1] && b[..1][..0] == [];
    assert WithDots(b[..2]) == WithDots(b[..1]) + Dec(b[1]) + ".";
    DecLength(b[0]);
    DecLength(b[1]);
    DecLength(b[2]);
    DecLength(b[3]);
  }

  lemma {:induction false} TailLength(w: seq<word>, r: Run, i: int)
    requires Eight(w) && Usable(w, r) && 0 <= i <= WORDS && (Embeds(w, r) ==> i <= 6)
    ensures |Tail(w, r, i)| <= Bound(w, r, i)
    decreases WORDS - i
  {
    hide Bytes, Dotted, Hex;
    if i == 6 && Embeds(w, r) {
      DottedLength(Bytes(w[6..]));
    } else if i < WORDS {
      HexLength(w[i]);
      TailLength(w, r, i + 1);
    }
  }

  // ----- the IPv4 form

  /** ::ffff:a.b.c.d, or ::a.b.c.d when the first two of these bytes are not both zero. */
  predicate IsEmbedding(w: seq<word>)
    requires Eight(w)
  {
    (forall i :: 0 <= i < 5 ==> w[i] == 0) && ((w[5] == 0 && w[6] != 0) || w[5] == 0xffff)
  }

  lemma BestOfEmbedding(w: seq<word>, r: Run)
    requires Eight(w) && IsBest(w, r)
    ensures IsEmbedding(w) <==> Embeds(w, r)
    ensures IsEmbedding(w) ==> r == Run(0, if w[5] == 0 then 6 else 5)
  {
    if IsEmbedding(w) {
      assert ZeroRun(w, 0, if w[5] == 0 then 6 else 5);
    }
    assert (forall i :: 0 <= i < 7 ==> w[i] == 0) ==> ZeroRun(w, 0, 7);
  }

  lemma {:induction false} HexHasNoDot(n: nat)
    ensures '.' !in Hex(n)
  {
    DigitValue(n % 16);
    if n >= 16 {
      HexHasNoDot(n / 16);
    }
  }

  lemma {:induction false} TailHasNoDot(w: seq<word>, r: Run, i: int)
    requires Eight(w) && !Embeds(w, r) && 0 <= i <= WORDS
    ensures '.' !in Tail(w, r, i)
    decreases WORDS - i
  {
    if i < WORDS {
      HexHasNoDot(w[i]);
      TailHasNoDot(w, r, i + 1);
      var a, b := Hex(w[i]), Tail(w, r, i + 1);
      assert Tail(w, r, i) == (if InRun(r, i) then (if i == r.base then ":" else "") + b
                               else (if i != 0 then ":" else "") + (a + b));
      hide Hex, Tail;
    }
  }

  lemma MappedText(w: seq<word>)
    requires Eight(w) && IsEmbedding(w) && w[5] == 0xffff
    ensures Tail(w, Run(0, 5), 0) == "::ffff:" + Dotted(Bytes(w[6..]))
  {
    var r, d := Run(0, 5), Dotted(Bytes(w[6..]));
    assert Tail(w, r, 6) == ":" + d;
    assert Hex(0xfff) == "fff" && Hex(0xffff) == "ffff";
    assert Tail(w, r, 5) == ":" + ("ffff" + (":" + d));
    hide Hex, Dotted;
    RunText(w, r);
  }

  lemma CompatibleText(w: seq<word>)
    requires Eight(w) && IsEmbedding(w) && w[5] == 0
    ensures Tail(w, Run(0, 6), 0) == "::" + Dotted(Bytes(w[6..]))
  {
    var r, d := Run(0, 6), Dotted(Bytes(w[6..]));
    assert Tail(w, r, 6) == ":" + d;
    hide Dotted;
    RunText(w, r);
  }

  lemma {:induction false} RunRest(w: seq<word>, r: Run, i: int)
    requires Eight(w) && r.base == 0 && 1 <= i <= r.len <= WORDS
    ensures Tail(w, r, i) == Tail(w, r, r.len)
    decreases r.len - i
  {
    hide Hex, Dotted, Bytes, Embeds;
    if i < r.len {
      assert Tail(w, r, i) == "" + Tail(w, r, i + 1) == Tail(w, r, i + 1);
      RunRest(w, r, i + 1);
    }
  }

  /** A run at the start prints one colon. */
  lemma RunText(w: seq<word>, r: Run)
    requires Eight(w) && r.base == 0 && 1 <= r.len <= WORDS
    ensures Tail(w, r, 0) == ":" + Tail(w, r, r.len)
  {
    RunRest(w, r, 1);
    assert Tail(w, r, 0) == ":" + Tail(w, r, 1);
  }

  /** The text of an address has dots exactly if the address is an IPv4-mapped one, or IPv4-compatible and neither
      unspecified, loopback nor one of the first 65536; then it is the usual prefix and the dotted address. */
  lemma EmbeddedIff(w: seq<word>, r: Run)
    requires Eight(w) && IsBest(w, r)
    ensures '.' in Tail(w, r, 0) <==> IsEmbedding(w)
    ensures IsEmbedding(w) ==>
              Tail(w, r, 0) == (if w[5] == 0 then "::" else "::ffff:") + Dotted(Bytes(w[6..]))
  {
    BestOfEmbedding(w, r);
    if IsEmbedding(w) {
      if w[5] == 0 {
        CompatibleText(w);
      } else {
        MappedText(w);
      }
      var rest := DottedStarts(Bytes(w[6..]));
      assert '.' in Dotted(Bytes(w[6..]));
    } else {
      TailHasNoDot(w, r, 0);
    }
  }
}
