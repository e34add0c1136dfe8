/** The address printers and parsers of src/inet.c.  A text is what stands before the final NUL. */
module Inet {
  import opened Basics
  import opened InetText
  import opened Inet6Text

  const UV_EINVAL := -22
  const UV_ENOSPC := -28

  const INET_ADDRSTRLEN := 16
  const INET6_ADDRSTRLEN := 46

  /** inet_ntop4 */
  method Ntop4(src: seq<byte>, size: nat) returns (code: int, dst: string)
    requires |src| == 4
    ensures if |Dotted(src)| + 1 <= size then code == 0 && dst == Dotted(src) else code == UV_ENOSPC
  {
    var tmp := Dec(src[0]) + "." + Dec(src[1]) + "." + Dec(src[2]) + "." + Dec(src[3]);
    SameDotted(src);
    if |tmp| >= size {
      return UV_ENOSPC, "";
    }
    return 0, tmp;
  }

  lemma SameDotted(b: seq<byte>)
    requires |b| == 4
    ensures Dotted(b) == Dec(b[0]) + "." + Dec(b[1]) + "." + Dec(b[2]) + "." + Dec(b[3])
  {
    assert WithDots(b[..3]) == WithDots(b[..3][..2]) + Dec(b[2]) + ".";
    assert b[..3][..2] == b[..2] && b[..2][..1] == b[..1] && b[..1][..0] == [];
    assert WithDots(b[..2]) == WithDots(b[..1]) + Dec(b[1]) + ".";
    assert WithDots(b[..1]) == WithDots([]) + Dec(b[0]) + ".";
  }

  /** The first loop of inet_ntop6: the bytes as words. */
  method Pack(src: seq<byte>) returns (w: seq<word>)
    requires |src| == 16
    ensures w == Words(src)
  {
    var words := new word[WORDS](_ => 0);
    for i := 0 to 16
      invariant forall k :: 0 <= k < WORDS ==>
                  words[k] == Word(if 2 * k < i then src[2 * k] else 0, if 2 * k + 1 < i then src[2 * k + 1] else 0)
    {
      var b: int := src[i];
      words[i / 2] := words[i / 2] + if i % 2 == 0 then b * 256 else b;
    }
    w := words[..];
  }

  /** What the scan knows before word i: cur is the run of zero words that ends here, and best the
      leftmost longest of the runs before it. */
  ghost predicate Scanning(w: seq<word>, i: int, best: Run, cur: Run) {
    && 0 <= i <= |w|
    && (if cur.base == -1 then i == 0 || w[i - 1] != 0
        else ZeroRun(w, cur.base, cur.len) && cur.base + cur.len == i && cur.len >= 1
             && (cur.base == 0 || w[cur.base - 1] != 0))
    && (best.base != -1 ==> best.len >= 1 && ZeroRun(w, best.base, best.len))
    && LongestBelow(w, if cur.base == -1 then i else cur.base, best)
  }

  /** Among the runs that end by k, r is the leftmost longest. */
  ghost predicate LongestBelow(w: seq<word>, k: int, r: Run) {
    && (r.base != -1 ==> r.base + r.len <= k)
    && forall b, n {:trigger ZeroRun(w, b, n)} :: n >= 1 && ZeroRun(w, b, n) && b + n <= k ==>
         r.base != -1 && n <= r.len && (n == r.len ==> r.base <= b)
  }

  /** At the end of a run the longer one stays, the earlier one if they are equal. */
  lemma Better(w: seq<word>, i: int, best: Run, cur: Run)
    requires Scanning(w, i, best, cur) && cur.base != -1
    ensures LongestBelow(w, i, if best.base == -1 || cur.len > best.len then cur else best)
  {}

  /** The second loop of inet_ntop6: the leftmost longest run of at least two zero words. */
  method FindRun(w: seq<word>) returns (best: Run)
    ensures IsBest(w, best)
  {
    best := Run(-1, 0);
    var cur := Run(-1, 0);
    for i := 0 to |w|
      invariant Scanning(w, i, best, cur)
    {
      if w[i] == 0 {
        if cur.base == -1 {
          cur := Run(i, 1);
        } else {
          cur := Run(cur.base, cur.len + 1);
        }
      } else {
        if cur.base != -1 {
          Better(w, i, best, cur);
          if best.base == -1 || cur.len > best.len {
            best := cur;
          }
          cur := Run(-1, cur.len);
        }
        SkipWord(w, i, best);
      }
    }
    if cur.base != -1 {
      Better(w, |w|, best, cur);
      if best.base == -1 || cur.len > best.len {
        best := cur;
      }
    }
    if best.base != -1 && best.len < 2 {
      best := Run(-1, best.len);
    }
  }

  lemma SkipWord(w: seq<word>, i: int, best: Run)
    requires 0 <= i < |w| && w[i] != 0 && LongestBelow(w, i, best)
    ensures LongestBelow(w, i + 1, best)
  {}

  /** The IPv4 text after the colon in front of word 6. */
  method FormatIPv4(src: seq<byte>, words: seq<word>, best: Run, head: string, ghost before: string)
    returns (tp: string)
    requires |src| == 16 && words == Words(src) && Embeds(words, best)
    requires head == before + ":" && |before + Tail(words, best, 6)| < INET6_ADDRSTRLEN
    ensures tp == before + Tail(words, best, 6)
  {
    LastFour(src);
    var err, text := Ntop4(src[12..], INET6_ADDRSTRLEN - |head|);
    assert err == 0;
    PrintIPv4(words, best, before, text);
    tp := head + text;
  }

  /** One turn of the third loop of inet_ntop6; last if the text is complete.  The IPv4 text always has
      room, and a run of seven words never leads to it, as word 6 would be inside the run. */
  method FormatWord(src: seq<byte>, words: seq<word>, best: Run, i: int, head: string)
    returns (tp: string, last: bool)
    requires |src| == 16 && words == Words(src) && 0 <= i < WORDS
    requires |head + Tail(words, best, i)| < INET6_ADDRSTRLEN
    ensures last <==> i == 6 && Embeds(words, best)
    ensures if last then tp == head + Tail(words, best, i)
            else tp + Tail(words, best, i + 1) == head + Tail(words, best, i)
  {
    if best.base != -1 && i >= best.base && i < best.base + best.len {
      SkipInRun(words, best, i, head);
      return head + if i == best.base then ":" else "", false;
    }
    tp := head + if i != 0 then ":" else "";
    var word5, word7 := words[5], words[7];
    if i == 6 && best.base == 0 && (best.len == 6 || (best.len == 7 && word7 != 1) || (best.len == 5 && word5 == 0xffff)) {
      tp := FormatIPv4(src, words, best, tp, head);
      return tp, true;
    }
    PrintWord(words, best, i, head);
    return tp + Hex(words[i]), false;
  }

  method Format(src: seq<byte>, words: seq<word>, best: Run) returns (tp: string)
    requires |src| == 16 && words == Words(src) && Usable(words, best)
    ensures tp == Tail(words, best, 0)
  {
    TailLength(words, best, 0);
    ghost var text := Tail(words, best, 0);
    tp := "";
    for i := 0 to WORDS
      invariant (Embeds(words, best) ==> i <= 6) && tp + Tail(words, best, i) == text
    {
      var last;
      tp, last := FormatWord(src, words, best, i, tp);
      if last {
        return;
      }
    }
    tp := tp + if best.base != -1 && best.base + best.len == WORDS then ":" else "";
  }

  lemma PrintWord(w: seq<word>, r: Run, i: int, before: string)
    requires Eight(w) && 0 <= i < WORDS && !InRun(r, i) && !(i == 6 && Embeds(w, r))
    ensures (before + if i != 0 then ":" else "") + Hex(w[i]) + Tail(w, r, i + 1) == before + Tail(w, r, i)
  {}

  lemma PrintIPv4(w: seq<word>, r: Run, before: string, text: string)
    requires Eight(w) && Embeds(w, r) && text == Dotted(Bytes(w[6..]))
    ensures (before + ":") + text == before + Tail(w, r, 6)
  {}

  lemma SkipInRun(w: seq<word>, r: Run, i: int, before: string)
    requires Eight(w) && 0 <= i < WORDS && InRun(r, i)
    ensures (before + if i == r.base then ":" else "") + Tail(w, r, i + 1) == before + Tail(w, r, i)
  {}

  lemma LastFour(src: seq<byte>)
    requires |src| == 16
    ensures Bytes(Words(src)[6..]) == src[12..]
  {}

  /** The result of inet_ntop6 for a text. */
  predicate Printed(text: string, size: nat, code: int, dst: string) {
    |text| < INET6_ADDRSTRLEN && if |text| + 1 <= size then code == 0 && dst == text else code == UV_ENOSPC
  }

  /** inet_ntop6 */
  method Ntop6(src: seq<byte>, size: nat) returns (code: int, dst: string)
    requires |src| == 16
    ensures exists run :: IsBest(Words(src), run) && Printed(Tail(Words(src), run, 0), size, code, dst)
  {
    var words := Pack(src);
    var best := FindRun(words);
    TailLength(words, best, 0);
    var tp := Format(src, words, best);
    if |tp| + 1 > size {
      return UV_ENOSPC, "";
    }
    return 0, tp;
  }

  // ----- the parsers

  /** inet_pton4 */
  method Pton4(src: string) returns (code: int, dst: seq<byte>)
    ensures code == if Parse4(src).Some? then 0 else UV_EINVAL
    ensures Parse4(src).Some? ==> dst == Parse4(src).value
  {
    var tmp := new byte[4](_ => 0);
    var saw, octets, tp, p := false, 0, 0, 0;
    dst := [];
    while p < |src|
      invariant 0 <= p <= |src| && 0 <= tp <= 3 && octets == tp + if saw then 1 else 0
      invariant Read4(src[p..], State4(tmp[..tp], tmp[tp], saw)) == Parse4(src)
    {
      var ch := src[p];
      p := p + 1;
      assert src[p - 1..][0] == ch && src[p - 1..][1..] == src[p..];
      var d := DecValue(ch);
      if d >= 0 {
        var nw: int := tmp[tp];
        nw := nw * 10 + d;
        if (saw && tmp[tp] == 0) || nw > 255 {
          return UV_EINVAL, [];
        }
        tmp[tp] := nw;
        if !saw {
          octets := octets + 1;
          if octets > 4 {
            return UV_EINVAL, [];
          }
          saw := true;
        }
      } else if ch == '.' && saw {
        if octets == 4 {
          return UV_EINVAL, [];
        }
        tp := tp + 1;
        tmp[tp] := 0;
        saw := false;
        assert tmp[..tp] == tmp[..tp - 1] + [tmp[tp - 1]];
      } else {
        return UV_EINVAL, [];
      }
    }
    if octets < 4 {
      return UV_EINVAL, [];
    }
    assert tmp[..] == tmp[..3] + [tmp[3]];
    return 0, tmp[..];
  }

  /** The last loop of inet_pton6: the bytes behind "::" move to the end, one by one and in place. */
  method Shift(tmp: array<byte>, colonp: nat, tp: nat)
    requires tmp.Length == 16 && colonp <= tp < 16 && forall k :: tp <= k < 16 ==> tmp[k] == 0
    modifies tmp
    ensures tmp[..] == Shifted(old(tmp[..tp]), colonp)
  {
    var n := tp - colonp;
    ghost var o := tmp[..];
    for i := 1 to n + 1
      invariant forall k :: 0 <= k < colonp + n - (i - 1) ==> tmp[k] == o[k]
      invariant forall k :: colonp + n - (i - 1) <= k < 16 - (i - 1) ==> tmp[k] == 0
      invariant forall k :: 16 - (i - 1) <= k < 16 ==> tmp[k] == o[k - (16 - tp)]
    {
      tmp[16 - i] := tmp[colonp + n - i];
      tmp[colonp + n - i] := 0;
    }
  }

  /** Where the parser is: the bytes written so far and the variables of inet_pton6. */
  ghost function Progress(src: string, tmp: array<byte>, tp: int, colonp: int, curtok: int, val: int, seen: int): State6
    requires tmp.Length == 16 && 0 <= tp <= 16 && 0 <= curtok <= |src|
    reads tmp
  {
    State6(tmp[..tp], colonp, src[curtok..], val, seen)
  }

  ghost predicate ZeroFrom(tmp: array<byte>, tp: int)
    requires tmp.Length == 16 && 0 <= tp <= 16
    reads tmp
  {
    forall k :: tp <= k < 16 ==> tmp[k] == 0
  }

  /** Two bytes of a word. */
  method WriteWord(tmp: array<byte>, tp: int, val: int)
    requires tmp.Length == 16 && 0 <= tp <= 14 && 0 <= val < 0x1_0000 && ZeroFrom(tmp, tp)
    modifies tmp
    ensures ZeroFrom(tmp, tp + 2) && tmp[..tp + 2] == old(tmp[..tp]) + [val / 256, val % 256]
  {
    tmp[tp] := val / 256;
    tmp[tp + 1] := val % 256;
  }

  method WriteFour(tmp: array<byte>, tp: int, b: seq<byte>)
    requires tmp.Length == 16 && 0 <= tp <= 12 && |b| == 4 && ZeroFrom(tmp, tp)
    modifies tmp
    ensures ZeroFrom(tmp, tp + 4) && tmp[..tp + 4] == old(tmp[..tp]) + b
  {
    for k := 0 to 4
      invariant tmp[..tp] == old(tmp[..tp]) && ZeroFrom(tmp, tp + k)
      invariant forall j :: 0 <= j < k ==> tmp[tp + j] == b[j]
    {
      tmp[tp + k] := b[k];
    }
  }

  /** The loop of inet_pton6 from src[p0] on; the result of reading is None on an error. */
  method Scan(src: string, p0: nat, tmp: array<byte>)
    returns (ok: bool, tp: int, colonp: int, val: int, seen: int)
    requires p0 <= |src| && tmp.Length == 16 && ZeroFrom(tmp, 0)
    modifies tmp
    ensures ok <==> Read6(src[p0..], Start(src[p0..])).Some?
    ensures ok ==> 0 <= tp <= 16 && ZeroFrom(tmp, tp)
                   && exists token :: Read6(src[p0..], Start(src[p0..])) == Some(State6(tmp[..tp], colonp, token, val, seen))
  {
    hide Parse4, HexValue;
    var p, curtok := p0, p0;
    tp, colonp, val, seen := 0, -1, 0, 0;
    ghost var want := Read6(src[p0..], Start(src[p0..]));
    while p < |src|
      invariant p0 <= p <= |src| && 0 <= tp <= 16 && 0 <= curtok <= |src| && ZeroFrom(tmp, tp)
      invariant Fits(Progress(src, tmp, tp, colonp, curtok, val, seen))
      invariant Read6(src[p..], Progress(src, tmp, tp, colonp, curtok, val, seen)) == want
    {
      var ch := src[p];
      p := p + 1;
      assert src[p - 1..][0] == ch && src[p - 1..][1..] == src[p..];
      var d := HexValue(ch);
      if d >= 0 {
        if seen == 4 {
          ok := false;
          return;
        }
        val, seen := val * 16 + d, seen + 1;
      } else if ch == ':' {
        curtok := p;
        if seen == 0 {
          if colonp != -1 {
            ok := false;
            return;
          }
          colonp := tp;
        } else if p == |src| || tp + 2 > 16 {
          ok := false;
          return;
        } else {
          WriteWord(tmp, tp, val);
          tp, seen, val := tp + 2, 0, 0;
        }
      } else if ch == '.' && tp + 4 <= 16 {
        var err, b := Pton4(src[curtok..]);
        if err != 0 {
          ok := false;
          return;
        }
        WriteFour(tmp, tp, b);
        tp, seen, val := tp + 4, 0, 0;
        ok := true;
        return;
      } else {
        ok := false;
        return;
      }
    }
    ok := true;
  }

  /** inet_pton6 */
  method Pton6(src: string) returns (code: int, dst: seq<byte>)
    ensures code == if Parse6(src).Some? then 0 else UV_EINVAL
    ensures Parse6(src).Some? ==> dst == Parse6(src).value
  {
    var tmp := new byte[16](_ => 0);
    dst := [];
    var p := 0;
    if |src| > 0 && src[0] == ':' {
      p := 1;
      if !(|src| > 1 && src[1] == ':') {
        return UV_EINVAL, [];
      }
    }
    assert p == 0 ==> src[p..] == src;
    var ok, tp, colonp, val, seen := Scan(src, p, tmp);
    if !ok {
      return UV_EINVAL, [];
    }
    ghost var token :| Read6(src[p..], Start(src[p..])) == Some(State6(tmp[..tp], colonp, token, val, seen));
    code, dst := Complete(tmp, tp, colonp, val, seen, token);
  }

  /** inet_pton6 after its loop. */
  method Complete(tmp: array<byte>, tp0: int, colonp: int, val: int, seen: int, ghost token: string)
    returns (code: int, dst: seq<byte>)
    requires tmp.Length == 16 && 0 <= tp0 <= 16 && ZeroFrom(tmp, tp0)
    requires Fits(State6(tmp[..tp0], colonp, token, val, seen))
    modifies tmp
    ensures var r := Finish(State6(old(tmp[..tp0]), colonp, token, val, seen));
            code == (if r.Some? then 0 else UV_EINVAL) && (r.Some? ==> dst == r.value)
  {
    var tp := tp0;
    if seen > 0 {
      if tp + 2 > 16 {
        return UV_EINVAL, [];
      }
      WriteWord(tmp, tp, val);
      tp := tp + 2;
    }
    if colonp != -1 {
      if tp == 16 {
        return UV_EINVAL, [];
      }
      Shift(tmp, colonp, tp);
      tp := 16;
    }
    if tp != 16 {
      return UV_EINVAL, [];
    }
    return 0, tmp[..];
  }

  /** The part of a text before its zone. */
  function Unzoned(src: string): (s: string)
    ensures '%' !in s && s <= src && (|s| < |src| ==> src[|s|] == '%')
  {
    if src == "" || src[0] == '%' then "" else [src[0]] + Unzoned(src[1..])
  }

  /** uv_inet_pton for AF_INET6: a zone behind a percent sign is cut off first. */
  method Pton(src: string) returns (code: int, dst: seq<byte>)
    ensures '%' in src && |Unzoned(src)| > 45 ==> code == UV_EINVAL
    ensures '%' !in src || |Unzoned(src)| <= 45 ==>
              && code == (if Parse6(Unzoned(src)).Some? then 0 else UV_EINVAL)
              && (code == 0 ==> dst == Parse6(Unzoned(src)).value)
  {
    var p := 0;
    while p < |src| && src[p] != '%'
      invariant 0 <= p <= |src| && '%' !in src[..p]
    {
      p := p + 1;
    }
    UnzonedIs(src, p);
    if p < |src| && p > INET6_ADDRSTRLEN - 1 {
      return UV_EINVAL, [];
    }
    code, dst := Pton6(src[..p]);
  }

  lemma {:induction false} UnzonedIs(src: string, p: nat)
    requires p <= |src| && '%' !in src[..p] && (p < |src| ==> src[p] == '%')
    ensures Unzoned(src) == src[..p]
    decreases p
  {}

  // ----- the round trip

  /** Every address printed and parsed again is the same, with or without a zone behind the text, and
      the text and its NUL fit INET6_ADDRSTRLEN bytes. */
  lemma PrintedParses(src: seq<byte>, run: Run, zone: string)
    requires |src| == 16 && IsBest(Words(src), run) && (zone != "" ==> zone[0] == '%')
    ensures var text := Tail(Words(src), run, 0);
            && |text| + 1 <= 46
            && Unzoned(text + zone) == text && Parse6(text) == Some(src)
  {
    var w := Words(src);
    var text := Tail(w, run, 0);
    RoundTrip6(w, run);
    BytesOfWords(src);
    TailLength(w, run, 0);
    TailChars(w, run, 0);
    assert (text + zone)[..|text|] == text;
    UnzonedIs(text + zone, |text|);
  }

  lemma {:induction false} HexChars(n: nat)
    ensures '%' !in Hex(n)
  {
    DigitValue(n % 16);
    if n >= 16 {
      HexChars(n / 16);
    }
  }

  lemma DottedChars(b: seq<byte>)
    requires |b| == 4
    ensures '%' !in Dotted(b)
  {
    SameDotted(b);
    DecDigits(b[0]);
    DecDigits(b[1]);
    DecDigits(b[2]);
    DecDigits(b[3]);
  }

  lemma {:induction false} TailChars(w: seq<word>, r: Run, i: int)
    requires Eight(w) && 0 <= i <= WORDS
    ensures '%' !in Tail(w, r, i)
    decreases WORDS - i
  {
    if i < WORDS {
      HexChars(w[i]);
      TailChars(w, r, i + 1);
      DottedChars(Bytes(w[6..]));
    }
  }
}
