/** The text forms of addresses in src/inet.c: what the printers write and the parsers read, as
    functions of the text.  Inet holds the loops. */
module InetText {
  import opened Basics

  type word = x: int | 0 <= x < 0x1_0000

  // ----- digits

  function Digit(d: int): char
    requires 0 <= d < 16
  {
    "0123456789abcdef"[d]
  }

  lemma DigitIs(d: int)
    requires 0 <= d < 16
    ensures Digit(d) as int == if d < 10 then '0' as int + d else 'a' as int + d - 10
  {}

  /** The place of c in the two digit strings of inet_pton6, or -1. */
  function HexValue(c: char): (d: int)
    ensures -1 <= d < 16
  {
    if '0' <= c <= '9' then c as int - '0' as int
    else if 'a' <= c <= 'f' then c as int - 'a' as int + 10
    else if 'A' <= c <= 'F' then c as int - 'A' as int + 10
    else -1
  }

  function DecValue(c: char): (d: int)
    ensures -1 <= d < 10
  {
    if '0' <= c <= '9' then c as int - '0' as int else -1
  }

  /** %x and %u. */
  function Hex(n: nat): (s: string) {
    if n < 16 then [Digit(n)] else Hex(n / 16) + [Digit(n % 16)]
  }

  function Dec(n: nat): (s: string) {
    if n < 10 then [Digit(n)] else Dec(n / 10) + [Digit(n % 10)]
  }

  /** No number but 0 starts with a zero. */
  lemma {:induction false} NoLeadingZero(n: nat)
    ensures Hex(n) != "" && (Hex(n)[0] == '0' <==> n == 0)
    ensures Dec(n) != "" && (Dec(n)[0] == '0' <==> n == 0)
  {
    if n >= 10 {
      NoLeadingZero(n / 10);
    }
    if n >= 16 {
      NoLeadingZero(n / 16);
    }
  }

  lemma HexLength(w: word)
    ensures 1 <= |Hex(w)| <= 4
  {
    if w >= 16 {
      var a := w / 16;
      if a >= 16 {
        var b := a / 16;
        if b >= 16 {
          assert |Hex(b / 16)| == 1;
          assert |Hex(b)| == 2 && |Hex(a)| == 3;
        }
      }
    }
  }

  lemma DecLength(b: byte)
    ensures 1 <= |Dec(b)| <= 3
  {
    if b >= 10 {
      var a := b / 10;
      if a >= 10 {
        assert |Dec(a / 10)| == 1;
      }
    }
  }

  lemma DigitValue(d: int)
    requires 0 <= d < 16
    ensures HexValue(Digit(d)) == d && (d < 10 ==> DecValue(Digit(d)) == d)
    ensures Digit(d) != ':' && Digit(d) != '.' && Digit(d) != '%'
  {}

  // ----- IPv4

  function WithDots(done: seq<byte>): (s: string) {
    if done == [] then "" else WithDots(done[..|done| - 1]) + Dec(done[|done| - 1]) + "."
  }

  /** %u.%u.%u.%u */
  function Dotted(b: seq<byte>): (s: string)
    requires |b| == 4
  {
    WithDots(b[..3]) + Dec(b[3])
  }

  /** The state of inet_pton4: the octets before the current one, and the current one. */
  datatype State4 = State4(done: seq<byte>, cur: byte, saw: bool)

  function Octets(st: State4): int {
    |st.done| + if st.saw then 1 else 0
  }

  function Read4(s: string, st: State4): (r: Option<seq<byte>>)
    requires |st.done| <= 3
    ensures r.Some? ==> |r.value| == 4
    decreases |s|
  {
    if s == [] then if Octets(st) < 4 then None else Some(st.done + [st.cur])
    else
      var d := DecValue(s[0]);
      if d >= 0 then
        if st.saw && st.cur == 0 then None
        else if st.cur * 10 + d > 255 then None
        else Read4(s[1..], st.(cur := st.cur * 10 + d, saw := true))
      else if s[0] == '.' && st.saw then
        if Octets(st) == 4 then None else Read4(s[1..], State4(st.done + [st.cur], 0, false))
      else None
  }

  function Parse4(s: string): (r: Option<seq<byte>>)
    ensures r.Some? ==> |r.value| == 4
  {
    Read4(s, State4([], 0, false))
  }

  lemma ReadDigit4(d: int, t: string, st: State4)
    requires 0 <= d < 10 && |st.done| <= 3 && (st.saw ==> st.cur != 0) && st.cur * 10 + d < 256
    ensures Read4([Digit(d)] + t, st) == Read4(t, st.(cur := st.cur * 10 + d, saw := true))
  {
    hide Digit, DecValue, HexValue;
    DigitValue(d);
    var s := [Digit(d)] + t;
    assert s[0] == Digit(d) && s[1..] == t;
    StepDigit4(s, st, d);
  }

  lemma StepDigit4(s: string, st: State4, d: int)
    requires s != [] && DecValue(s[0]) == d >= 0 && |st.done| <= 3 && (st.saw ==> st.cur != 0) && st.cur * 10 + d < 256
    ensures Read4(s, st) == Read4(s[1..], st.(cur := st.cur * 10 + d, saw := true))
  {
    hide DecValue;
  }

  lemma {:induction false} ReadDec(n: nat, t: string, st: State4)
    requires n < 256 && |st.done| <= 3 && !st.saw && st.cur == 0
    ensures Read4(Dec(n) + t, st) == Read4(t, st.(cur := n, saw := true))
    decreases n
  {
    hide Read4, Digit;
    if n < 10 {
      ReadDigit4(n, t, st);
    } else {
      var m, d := n / 10, n % 10;
      var u := [Digit(d)] + t;
      assert Dec(n) + t == Dec(m) + u;
      ReadDec(m, u, st);
      ReadDigit4(d, t, st.(cur := m, saw := true));
    }
  }

  lemma ReadDot(t: string, st: State4)
    requires |st.done| <= 2 && st.saw
    ensures Read4("." + t, st) == Read4(t, State4(st.done + [st.cur], 0, false))
  {}

  lemma {:induction false} ReadWithDots(done: seq<byte>, t: string)
    requires |done| <= 3
    ensures Read4(WithDots(done) + t, State4([], 0, false)) == Read4(t, State4(done, 0, false))
    decreases |done|
  {
    hide Read4, Dec;
    if done == [] {
      assert "" + t == t;
    } else {
      var n := |done| - 1;
      var x := done[n];
      assert WithDots(done) + t == WithDots(done[..n]) + (Dec(x) + ("." + t));
      ReadWithDots(done[..n], Dec(x) + ("." + t));
      ReadDec(x, "." + t, State4(done[..n], 0, false));
      ReadDot(t, State4(done[..n], x, true));
      assert done[..n] + [x] == done;
    }
  }

  /** Parsing the printed text gives the bytes back. */
  lemma RoundTrip4(b: seq<byte>)
    requires |b| == 4
    ensures Parse4(Dotted(b)) == Some(b)
  {
    ReadWithDots(b[..3], Dec(b[3]));
    hide Dec, WithDots;
    assert Dec(b[3]) + "" == Dec(b[3]);
    ReadDec(b[3], "", State4(b[..3], 0, false));
    assert b[..3] + [b[3]] == b;
  }

  function Consumed(st: State4): string {
    WithDots(st.done) + if st.saw then Dec(st.cur) else ""
  }

  lemma DecAppend(n: nat, d: int)
    requires n >= 1 && 0 <= d < 10
    ensures Dec(n * 10 + d) == Dec(n) + [Digit(d)]
  {
    var m := n * 10 + d;
    assert m >= 10 && m / 10 == n && m % 10 == d;
  }

  lemma ConsumedDigit(st: State4, d: int)
    requires 0 <= d < 10 && (st.saw ==> st.cur != 0) && (!st.saw ==> st.cur == 0) && st.cur * 10 + d < 256
    ensures Consumed(st.(cur := st.cur * 10 + d, saw := true)) == Consumed(st) + [Digit(d)]
  {
    if st.saw {
      DecAppend(st.cur, d);
    }
  }

  lemma ConsumedDot(st: State4)
    requires st.saw
    ensures Consumed(State4(st.done + [st.cur], 0, false)) == Consumed(st) + "."
  {}

  lemma DigitOf(c: char)
    requires DecValue(c) >= 0
    ensures DecValue(c) < 10 && c == Digit(DecValue(c))
  {}

  lemma {:induction false} ReadIsDotted(s: string, st: State4)
    requires |st.done| <= 3 && (!st.saw ==> st.cur == 0) && Read4(s, st).Some?
    ensures Consumed(st) + s == Dotted(Read4(s, st).value)
    decreases |s|
  {
    if s == [] {
      assert (st.done + [st.cur])[..3] == st.done;
      return;
    }
    hide Digit, DecValue, HexValue, Dec, WithDots, Consumed, Dotted;
    var d := DecValue(s[0]);
    assert s == [s[0]] + s[1..];
    Associative(Consumed(st), [s[0]], s[1..]);
    if d >= 0 {
      DigitOf(s[0]);
      ConsumedDigit(st, d);
      ReadIsDotted(s[1..], st.(cur := st.cur * 10 + d, saw := true));
    } else {
      ConsumedDot(st);
      ReadIsDotted(s[1..], State4(st.done + [st.cur], 0, false));
    }
  }

  /** inet_pton4 accepts exactly what inet_ntop4 prints: no leading zeros, no shorter forms. */
  lemma Parse4Iff(s: string, b: seq<byte>)
    requires |b| == 4
    ensures Parse4(s) == Some(b) <==> s == Dotted(b)
  {
    RoundTrip4(b);
    if Parse4(s) == Some(b) {
      ReadIsDotted(s, State4([], 0, false));
      assert Consumed(State4([], 0, false)) + s == s;
    }
  }
}
