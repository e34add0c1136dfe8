/** Which texts inet_pton6 of src/inet.c accepts, and what they stand for: the forms of section 2.2 of RFC 4291. */
module Inet6Grammar {
  import opened Basics
  import opened InetText
  import opened Inet6Text

  // ----- the grammar

  predicate IsHexDigit(c: char) {
    '0' <= c <= '9' || 'a' <= c <= 'f' || 'A' <= c <= 'F'
  }

  function DigitNumber(c: char): (d: nat)
    requires IsHexDigit(c)
    ensures d < 16
  {
    if c <= '9' then c as int - 48 else if c <= 'F' then c as int - 55 else c as int - 87
  }

  predicate HexDigitsOnly(g: string) {
    forall i :: 0 <= i < |g| ==> IsHexDigit(g[i])
  }

  function Number(g: string): (n: nat)
    requires HexDigitsOnly(g)
    ensures |g| <= 4 ==> n < Power16(|g|)
  {
    if g == "" then 0 else Number(g[..|g| - 1]) * 16 + DigitNumber(g[|g| - 1])
  }

  predicate IsGroup(g: string) {
    1 <= |g| <= 4 && HexDigitsOnly(g)
  }

  predicate Groups(gs: seq<string>) {
    forall i :: 0 <= i < |gs| ==> IsGroup(gs[i])
  }

  function GroupBytes(gs: seq<string>): (b: seq<byte>)
    requires Groups(gs)
    ensures |b| == 2 * |gs|
  {
    if gs == [] then []
    else
      var n := Number(gs[|gs| - 1]);
      GroupBytes(gs[..|gs| - 1]) + [n / 256, n % 256]
  }

  function Joined(gs: seq<string>): (s: string) {
    if gs == [] then "" else if |gs| == 1 then gs[0] else Joined(gs[..|gs| - 1]) + ":" + gs[|gs| - 1]
  }

  /** Groups, perhaps a gap "::" with groups behind it, and perhaps an IPv4 address at the end. */
  datatype Form = Form(front: seq<string>, gap: bool, back: seq<string>, v4: Option<seq<byte>>)

  /** The bytes that are written out: all 16, or fewer if there is a gap. */
  predicate IsForm(f: Form) {
    var n := 2 * (|f.front| + |f.back|) + if f.v4.Some? then 4 else 0;
    && Groups(f.front) && Groups(f.back) && (f.v4.Some? ==> |f.v4.value| == 4)
    && if f.gap then n <= 14 else f.back == [] && n == 16
  }

  function Address(v4: Option<seq<byte>>): (b: seq<byte>) {
    if v4.Some? then v4.value else []
  }

  function Items(gs: seq<string>, v4: Option<seq<byte>>): (q: seq<string>)
    requires v4.Some? ==> |v4.value| == 4
  {
    gs + if v4.Some? then [Dotted(v4.value)] else []
  }

  function Text(f: Form): (s: string)
    requires IsForm(f)
  {
    if f.gap then Joined(f.front) + "::" + Joined(Items(f.back, f.v4)) else Joined(Items(f.front, f.v4))
  }

  function Value(f: Form): (b: seq<byte>)
    requires IsForm(f)
    ensures |b| == 16
  {
    var back := GroupBytes(f.back) + Address(f.v4);
    GroupBytes(f.front) + Zeros(16 - 2 * |f.front| - |back|) + back
  }

  // ----- the states of the parser

  lemma HexValueIs(c: char)
    ensures HexValue(c) == if IsHexDigit(c) then DigitNumber(c) else -1
    ensures HexValue(':') == HexValue('.') == -1
  {}

  function WithColons(gs: seq<string>): (s: string) {
    if gs == [] then "" else WithColons(gs[..|gs| - 1]) + gs[|gs| - 1] + ":"
  }

  lemma {:induction false} JoinedLast(gs: seq<string>, x: string)
    ensures Joined(gs + [x]) == WithColons(gs) + x
    ensures gs != [] ==> Joined(gs) + ":" == WithColons(gs)
    decreases |gs|
  {
    if gs == [] {
      assert gs + [x] == [x];
    } else {
      var init, last := gs[..|gs| - 1], gs[|gs| - 1];
      assert gs == init + [last] && (gs + [x])[..|gs|] == gs;
      JoinedLast(init, last);
    }
  }

  /** The groups that have been read, the gap among them. */
  datatype Part = Part(front: seq<string>, gap: bool, back: seq<string>)

  predicate IsPart(p: Part) {
    Groups(p.front) && Groups(p.back) && |p.front| + |p.back| <= 8 && (!p.gap ==> p.back == [])
  }

  /** What has been read for them, behind a colon at the very beginning. */
  function Read(p: Part): (s: string) {
    WithColons(p.front) + if p.gap then ":" + WithColons(p.back) else ""
  }

  function With(p: Part, g: string): Part {
    if p.gap then p.(back := p.back + [g]) else p.(front := p.front + [g])
  }

  /** The state behind them and the digits cur. */
  function St(p: Part, cur: string, token: string): (st: State6)
    requires IsPart(p) && |cur| <= 4 && HexDigitsOnly(cur)
    ensures Fits(st)
  {
    State6(GroupBytes(p.front) + GroupBytes(p.back), if p.gap then 2 * |p.front| else -1, token, Number(cur), |cur|)
  }

  lemma GroupBytesSnoc(gs: seq<string>, g: string)
    requires Groups(gs) && IsGroup(g)
    ensures Groups(gs + [g]) && GroupBytes(gs + [g]) == GroupBytes(gs) + [Number(g) / 256, Number(g) % 256]
    ensures WithColons(gs + [g]) == WithColons(gs) + g + ":"
  {
    assert (gs + [g])[..|gs|] == gs;
  }

  /** A group is finished. */
  lemma PushGroup(p: Part, g: string, token: string)
    requires IsPart(p) && IsGroup(g) && |p.front| + |p.back| < 8
    ensures IsPart(With(p, g)) && Push(St(p, g, token)).(token := token) == St(With(p, g), "", token)
  {
    assert GroupBytes([]) == [];
    GroupBytesSnoc(if p.gap then p.back else p.front, g);
    hide GroupBytes, Number, WithColons;
    Associative(GroupBytes(p.front), GroupBytes(p.back), [Number(g) / 256, Number(g) % 256]);
    assert !p.gap ==> GroupBytes(p.front) + [] == GroupBytes(p.front);
  }

  lemma ReadWith(p: Part, g: string)
    requires IsPart(p) && IsGroup(g)
    ensures Read(With(p, g)) == Read(p) + g + ":"
  {
    var gs := if p.gap then p.back else p.front;
    GroupBytesSnoc(gs, g);
    hide WithColons, GroupBytes, Number, IsPart, IsGroup;
    var a, b := WithColons(p.front), WithColons(gs);
    if p.gap {
      Associative(a, ":", b);
      Associative(a + ":", b, g);
      Associative(a + ":", b + g, ":");
      Associative(a, ":", b + g + ":");
    }
  }

  lemma FinishGroup(p: Part, g: string, token: string)
    requires IsPart(p) && IsGroup(g) && |p.front| + |p.back| < 8
    ensures IsPart(With(p, g)) && Finish(St(p, g, token)) == Finish(St(With(p, g), "", token))
  {
    PushGroup(p, g, token);
    hide GroupBytes, Number;
  }

  // ----- every form is read

  lemma ReadOne(p: Part, cur: string, c: char, t: string, token: string)
    requires IsPart(p) && |cur| < 4 && HexDigitsOnly(cur) && IsHexDigit(c)
    ensures HexDigitsOnly(cur + [c]) && Read6([c] + t, St(p, cur, token)) == Read6(t, St(p, cur + [c], token))
  {
    HexValueIs(c);
    hide HexValue, IsHexDigit, DigitNumber, GroupBytes;
    assert (cur + [c])[..|cur|] == cur && ([c] + t)[1..] == t;
  }

  lemma FirstDigit(cur: string, g: string, t: string)
    requires HexDigitsOnly(g) && g != ""
    ensures g + t == [g[0]] + (g[1..] + t) && cur + [g[0]] + g[1..] == cur + g
    ensures IsHexDigit(g[0]) && HexDigitsOnly(g[1..])
  {
    hide IsHexDigit;
  }

  lemma {:induction false} ReadCur(p: Part, cur: string, g: string, t: string, token: string)
    requires IsPart(p) && |cur| + |g| <= 4 && HexDigitsOnly(cur) && HexDigitsOnly(g)
    ensures HexDigitsOnly(cur + g) && Read6(g + t, St(p, cur, token)) == Read6(t, St(p, cur + g, token))
    decreases |g|
  {
    if g == "" {
      assert g + t == t && cur + g == cur;
    } else {
      hide Read6, St, IsPart, IsHexDigit;
      FirstDigit(cur, g, t);
      ReadOne(p, cur, g[0], g[1..] + t, token);
      ReadCur(p, cur + [g[0]], g[1..], t, token);
    }
  }

  lemma ReadGroup(p: Part, g: string, t: string, token: string)
    requires IsPart(p) && IsGroup(g) && |p.front| + |p.back| < 8 && t != ""
    ensures IsPart(With(p, g)) && Read6(g + ":" + t, St(p, "", token)) == Read6(t, St(With(p, g), "", t))
  {
    assert g + ":" + t == g + (":" + t) && "" + g == g;
    ReadCur(p, "", g, ":" + t, token);
    PushGroup(p, g, t);
    ReadColonPending(t, St(p, g, token));
  }

  function WithAll(p: Part, gs: seq<string>): Part {
    if p.gap then p.(back := p.back + gs) else p.(front := p.front + gs)
  }

  lemma ColonsLast(gs: seq<string>, t: string)
    requires gs != []
    ensures WithColons(gs) + t == WithColons(gs[..|gs| - 1]) + (gs[|gs| - 1] + ":" + t)
  {
    var a, g := WithColons(gs[..|gs| - 1]), gs[|gs| - 1];
    assert WithColons(gs) == a + g + ":";
    hide WithColons;
    Associative(a, g, ":");
    Associative(a, g + ":", t);
  }

  lemma GroupsLast(p: Part, gs: seq<string>)
    requires IsPart(p) && Groups(gs) && gs != [] && |p.front| + |p.back| + |gs| <= 8
    ensures var (init, g) := (gs[..|gs| - 1], gs[|gs| - 1]);
            && Groups(init) && IsGroup(g) && IsPart(WithAll(p, init)) && With(WithAll(p, init), g) == WithAll(p, gs)
  {
    hide IsGroup;
    var init, g := gs[..|gs| - 1], gs[|gs| - 1];
    assert gs == init + [g];
    Associative(p.front, init, [g]);
    Associative(p.back, init, [g]);
  }

  lemma {:induction false} ReadGroups(p: Part, gs: seq<string>, t: string, token: string)
    requires IsPart(p) && Groups(gs) && |p.front| + |p.back| + |gs| <= 8 && t != ""
    ensures IsPart(WithAll(p, gs))
    ensures Read6(WithColons(gs) + t, St(p, "", token))
         == Read6(t, St(WithAll(p, gs), "", if gs == [] then token else t))
    decreases |gs|
  {
    if gs == [] {
      assert WithColons(gs) + t == t && WithAll(p, gs) == p;
    } else {
      ColonsLast(gs, t);
      GroupsLast(p, gs);
      hide Read6, St, WithColons, With, HexDigitsOnly;
      var init, g := gs[..|gs| - 1], gs[|gs| - 1];
      var q := WithAll(p, init);
      assert |q.front| + |q.back| < 8;
      hide WithAll;
      ReadGroups(p, init, g + ":" + t, token);
      ReadGroup(q, g, t, if init == [] then token else g + ":" + t);
    }
  }

  /** The end behind a group, behind a gap, and in an IPv4 address. */
  lemma EndGroup(p: Part, g: string, token: string)
    requires IsPart(p) && IsGroup(g) && (if p.gap then |p.front| + |p.back| < 7 else |p.front| == 7)
    ensures End(Read6(g, St(p, "", token)))
         == Some(Value(Form(With(p, g).front, p.gap, With(p, g).back, None)))
  {
    assert g + "" == g && "" + g == g;
    ReadCur(p, "", g, "", token);
    FinishGroup(p, g, token);
    EndBytes(With(p, g), [], token);
    hide GroupBytes, Number, Finish;
    assert St(With(p, g), "", token).bytes + [] == St(With(p, g), "", token).bytes;
  }

  lemma EndBytes(p: Part, b: seq<byte>, token: string)
    requires IsPart(p) && (if p.gap then 2 * (|p.front| + |p.back|) + |b| <= 14 else 2 * |p.front| + |b| == 16)
    requires b == [] || |b| == 4
    ensures var v4 := if b == [] then None else Some(b);
            && Fits(St(p, "", token).(bytes := St(p, "", token).bytes + b))
            && Finish(St(p, "", token).(bytes := St(p, "", token).bytes + b))
            == Some(Value(Form(p.front, p.gap, p.back, v4)))
  {
    var front, back := GroupBytes(p.front), GroupBytes(p.back);
    assert GroupBytes([]) == [];
    var all := front + back + b;
    assert all[..|front|] == front && all[|front|..] == back + b;
    if !p.gap {
      assert Zeros(0) == [];
    }
  }

  lemma EndGap(p: Part, token: string)
    requires IsPart(p) && p.gap && 2 * (|p.front| + |p.back|) <= 14
    ensures End(Read6("", St(p, "", token))) == Some(Value(Form(p.front, p.gap, p.back, None)))
  {
    EndBytes(p, [], token);
    hide GroupBytes, Finish, Value;
    assert St(p, "", token).bytes + [] == St(p, "", token).bytes;
  }

  lemma EndAddress(p: Part, b: seq<byte>)
    requires IsPart(p) && |b| == 4 && (if p.gap then |p.front| + |p.back| <= 5 else |p.front| == 6)
    ensures End(Read6(Dotted(b), St(p, "", Dotted(b)))) == Some(Value(Form(p.front, p.gap, p.back, Some(b))))
  {
    ReadEmbedded(b, St(p, "", Dotted(b)));
    EndBytes(p, b, Dotted(b));
  }

  /** What is behind the gap, or the whole text without one, but for the groups in front. */
  lemma ReadAddress(p: Part, gs: seq<string>, b: seq<byte>, token: string)
    requires IsPart(p) && |b| == 4 && Groups(gs)
    requires var q := WithAll(p, gs); IsForm(Form(q.front, q.gap, q.back, Some(b)))
    requires gs == [] ==> token == Joined(Items(gs, Some(b)))
    ensures var q := WithAll(p, gs);
            End(Read6(Joined(Items(gs, Some(b))), St(p, "", token)))
            == Some(Value(Form(q.front, q.gap, q.back, Some(b))))
  {
    var q, d := WithAll(p, gs), Dotted(b);
    var _ := DottedStarts(b);
    JoinedLast(gs, d);
    assert gs == [] ==> WithColons(gs) + d == d;
    hide Read6, WithColons, GroupBytes, Value, Finish, Dotted, St, Joined;
    ReadGroups(p, gs, d, token);
    EndAddress(q, b);
  }

  lemma ReadLast(p: Part, gs: seq<string>, token: string)
    requires IsPart(p) && Groups(gs) && gs != []
    requires var q := WithAll(p, gs); IsForm(Form(q.front, q.gap, q.back, None))
    ensures var q := WithAll(p, gs);
            End(Read6(Joined(gs), St(p, "", token))) == Some(Value(Form(q.front, q.gap, q.back, None)))
  {
    var init, g := gs[..|gs| - 1], gs[|gs| - 1];
    GroupsLast(p, gs);
    var r := WithAll(p, init);
    assert if p.gap then r.gap && |r.front| + |r.back| < 7 else !r.gap && |r.front| == 7;
    assert |p.front| + |p.back| + |init| <= 8 && g != "";
    hide Read6, WithColons, GroupBytes, Value, Finish, St, Joined, HexDigitsOnly, WithAll, With, IsForm;
    assert gs == init + [g];
    JoinedLast(init, g);
    ReadGroups(p, init, g, token);
    EndGroup(r, g, if init == [] then token else g);
  }

  lemma ReadItems(p: Part, gs: seq<string>, v4: Option<seq<byte>>, token: string)
    requires IsPart(p) && (v4.Some? ==> |v4.value| == 4) && Groups(gs)
    requires var q := WithAll(p, gs); IsForm(Form(q.front, q.gap, q.back, v4))
    requires gs == [] ==> token == Joined(Items(gs, v4)) && (p.gap || v4.Some?)
    ensures var q := WithAll(p, gs);
            End(Read6(Joined(Items(gs, v4)), St(p, "", token))) == Some(Value(Form(q.front, q.gap, q.back, v4)))
  {
    hide Read6, GroupBytes, Value, Finish, Dotted, St, Groups;
    if v4.Some? {
      ReadAddress(p, gs, v4.value, token);
    } else {
      assert Items(gs, v4) == gs;
      if gs != [] {
        ReadLast(p, gs, token);
      } else {
        assert WithAll(p, gs) == p;
        EndGap(p, token);
      }
    }
  }

  lemma ReadGap(front: seq<string>, t: string, token: string)
    requires Groups(front) && |front| <= 8
    ensures Read6(":" + t, St(Part(front, false, []), "", token)) == Read6(t, St(Part(front, true, []), "", t))
  {
    assert GroupBytes([]) == [];
    hide GroupBytes;
    ReadColonFresh(t, St(Part(front, false, []), "", token));
  }

  /** The text of a form starts with a colon exactly if it starts with its gap. */
  lemma {:induction false} JoinedStart(gs: seq<string>)
    requires gs != [] && gs[0] != ""
    ensures Joined(gs) != "" && Joined(gs)[0] == gs[0][0]
    decreases |gs|
  {
    if |gs| > 1 {
      JoinedStart(gs[..|gs| - 1]);
    }
  }

  lemma ReadsGapFirst(f: Form)
    requires IsForm(f) && f.gap && f.front == []
    ensures Parse6(Text(f)) == Some(Value(f))
  {
    var s, u := Text(f), Joined(Items(f.back, f.v4));
    assert s == "::" + u && s[1..] == ":" + u;
    Empty(s[1..]);
    hide Read6, GroupBytes, Value, Items, Joined, Start;
    ReadGap([], u, s[1..]);
    assert WithAll(Part([], true, []), f.back) == Part(f.front, true, f.back);
    ReadItems(Part([], true, []), f.back, f.v4, u);
  }

  lemma ReadsGapLater(f: Form)
    requires IsForm(f) && f.gap && f.front != []
    ensures Parse6(Text(f)) == Some(Value(f))
  {
    var s, u := Text(f), Joined(Items(f.back, f.v4));
    JoinedLast(f.front, "");
    assert s == WithColons(f.front) + (":" + u);
    JoinedStart(f.front);
    assert s[0] == Joined(f.front)[0] != ':';
    Empty(s);
    hide Read6, GroupBytes, Value, Items, Joined, Start, WithColons;
    ReadGroups(Part([], false, []), f.front, ":" + u, s);
    assert WithAll(Part([], false, []), f.front) == Part(f.front, false, []);
    ReadGap(f.front, u, ":" + u);
    assert WithAll(Part(f.front, true, []), f.back) == Part(f.front, true, f.back);
    ReadItems(Part(f.front, true, []), f.back, f.v4, u);
  }

  lemma Empty(token: string)
    ensures Start(token) == St(Part([], false, []), "", token)
  {}

  lemma ReadsPlain(f: Form)
    requires IsForm(f) && !f.gap
    ensures Parse6(Text(f)) == Some(Value(f))
  {
    var s := Text(f);
    Empty(s);
    JoinedStart(Items(f.front, f.v4));
    hide Read6, GroupBytes, Value, Joined;
    assert s[0] != ':';
    assert WithAll(Part([], false, []), f.front) == Part(f.front, false, []);
    ReadItems(Part([], false, []), f.front, f.v4, s);
  }

  // ----- what is read is a form

  /** The text s is left behind the groups of p and the digits cur; a colon has been read last only if it opens
      the gap or something follows it. */
  predicate Reading(p: Part, cur: string, s: string, st: State6) {
    && IsPart(p) && |cur| <= 4 && HexDigitsOnly(cur) && st == St(p, cur, cur + s)
    && (s == "" && cur == "" ==> (p.gap && p.back == []) || (p.front == [] && !p.gap))
  }

  /** The text behind a leading colon, if the form starts with its gap. */
  function TextBehind(f: Form): (s: string)
    requires IsForm(f)
  {
    if f.gap && f.front == [] then ":" + Joined(Items(f.back, f.v4)) else Text(f)
  }

  /** Groups that have been read, and a last item or nothing behind the gap. */
  lemma TextOf(p: Part, x: string)
    requires IsPart(p)
    ensures Read(p) + x == if !p.gap then Joined(p.front + [x])
                           else if p.front == [] then ":" + Joined(p.back + [x])
                           else Joined(p.front) + "::" + Joined(p.back + [x])
  {
    JoinedLast(p.front, x);
    JoinedLast(p.back, x);
    hide Joined;
    if p.gap {
      Associative(WithColons(p.front), ":", WithColons(p.back) + x);
      Associative(Joined(p.front), ":", ":");
      assert p.front == [] ==> WithColons(p.front) == "";
    }
  }

  lemma TextOfGap(front: seq<string>)
    ensures Read(Part(front, true, [])) == if front == [] then ":" else Joined(front) + "::"
  {
    JoinedLast(front, "");
    assert WithColons([]) == "";
  }

  lemma FinishIs(p: Part, b: seq<byte>, token: string, r: seq<byte>)
    requires IsPart(p) && (b == [] || |b| == 4) && 2 * (|p.front| + |p.back|) + |b| <= 16
    requires Fits(St(p, "", token).(bytes := St(p, "", token).bytes + b))
    requires Finish(St(p, "", token).(bytes := St(p, "", token).bytes + b)) == Some(r)
    ensures var f := Form(p.front, p.gap, p.back, if b == [] then None else Some(b)); IsForm(f) && Value(f) == r
  {
    EndBytes(p, b, token);
  }

  lemma EndsWithGroup(p: Part, cur: string, token: string, r: seq<byte>) returns (f: Form)
    requires IsPart(p) && IsGroup(cur) && Finish(St(p, cur, token)) == Some(r)
    ensures IsForm(f) && Value(f) == r && TextBehind(f) == Read(p) + cur
  {
    assert |p.front| + |p.back| < 8;
    FinishGroup(p, cur, token);
    var q := With(p, cur);
    assert St(q, "", token).bytes + [] == St(q, "", token).bytes;
    FinishIs(q, [], token, r);
    f := Form(q.front, q.gap, q.back, None);
    TextOf(p, cur);
    hide Joined, Value, Finish, Read, St;
    assert q.front + [] == q.front && q.back + [] == q.back;
  }

  lemma EndsWithGap(front: seq<string>, token: string, r: seq<byte>) returns (f: Form)
    requires IsPart(Part(front, true, [])) && Finish(St(Part(front, true, []), "", token)) == Some(r)
    ensures IsForm(f) && Value(f) == r && TextBehind(f) == Read(Part(front, true, []))
  {
    var p := Part(front, true, []);
    assert St(p, "", token).bytes + [] == St(p, "", token).bytes;
    FinishIs(p, [], token, r);
    f := Form(front, true, [], None);
    TextOfGap(front);
    hide Value, Finish, Read, St;
    assert Joined([]) == "" && [] + [] == Items([], None);
  }

  lemma EndsWithAddress(p: Part, b: seq<byte>, token: string, r: seq<byte>) returns (f: Form)
    requires IsPart(p) && |b| == 4 && 2 * (|p.front| + |p.back|) + 4 <= 16
    requires Finish(St(p, "", token).(bytes := St(p, "", token).bytes + b)) == Some(r)
    ensures IsForm(f) && Value(f) == r && TextBehind(f) == Read(p) + Dotted(b)
  {
    FinishIs(p, b, token, r);
    f := Form(p.front, p.gap, p.back, Some(b));
    TextOf(p, Dotted(b));
  }

  /** One character: a digit, or the colon behind a group or before another. */
  lemma StepDigit(p: Part, cur: string, s: string, st: State6)
    requires Reading(p, cur, s, st) && s != "" && IsHexDigit(s[0]) && |cur| < 4
    ensures var st' := St(p, cur + [s[0]], cur + s);
            Read6(s, st) == Read6(s[1..], st') && Reading(p, cur + [s[0]], s[1..], st')
  {
    assert [s[0]] + s[1..] == s && cur + [s[0]] + s[1..] == cur + s;
    ReadOne(p, cur, s[0], s[1..], cur + s);
  }

  lemma StepPush(p: Part, cur: string, s: string, st: State6)
    requires Reading(p, cur, s, st) && |s| >= 2 && s[0] == ':' && cur != "" && |p.front| + |p.back| < 8
    ensures var st' := St(With(p, cur), "", s[1..]);
            && IsPart(With(p, cur)) && Read6(s, st) == Read6(s[1..], st') && Reading(With(p, cur), "", s[1..], st')
            && Read(With(p, cur)) + s[1..] == Read(p) + cur + s
  {
    PushGroup(p, cur, s[1..]);
    ReadWith(p, cur);
    hide Read6, GroupBytes, Number, Read;
    assert ":" + s[1..] == s && "" + s[1..] == s[1..];
    Associative(Read(p) + cur, ":", s[1..]);
    ReadColonPending(s[1..], st);
  }

  lemma StepGap(p: Part, s: string, st: State6)
    requires Reading(p, "", s, st) && s != "" && s[0] == ':' && !p.gap
    ensures var (q, st') := (Part(p.front, true, []), St(Part(p.front, true, []), "", s[1..]));
            Read6(s, st) == Read6(s[1..], st') && Reading(q, "", s[1..], st') && Read(q) + s[1..] == Read(p) + s
  {
    assert WithColons([]) == "";
    hide Read6, GroupBytes, WithColons, Groups;
    assert ":" + s[1..] == s && "" + s[1..] == s[1..] && "" + s == s;
    ReadGap(p.front, s[1..], s);
    Associative(WithColons(p.front), ":", s[1..]);
  }

  /** What can be read at all. */
  lemma Accepts(p: Part, cur: string, s: string, st: State6)
    requires Reading(p, cur, s, st) && Read6(s, st).Some? && s != ""
    ensures IsHexDigit(s[0]) ==> |cur| < 4
    ensures !IsHexDigit(s[0]) ==>
              if s[0] == ':' then if cur == "" then !p.gap else |s| >= 2 && |p.front| + |p.back| < 8
              else
                && s[0] == '.' && 2 * (|p.front| + |p.back|) + 4 <= 16 && Parse4(cur + s).Some?
                && Read6(s, st) == Some(St(p, "", cur + s).(bytes := St(p, "", cur + s).bytes + Parse4(cur + s).value))
  {
    HexValueIs(s[0]);
    hide GroupBytes, Number, Parse4;
  }

  /** The form of a text that the loop reads to its end. */
  lemma {:induction false} FormOf(p: Part, cur: string, s: string, st: State6, r: seq<byte>) returns (f: Form)
    requires Reading(p, cur, s, st) && End(Read6(s, st)) == Some(r)
    ensures IsForm(f) && Value(f) == r && TextBehind(f) == Read(p) + (cur + s)
    decreases |s|
  {
    if s == "" {
      assert cur + s == cur;
      f := FormAtEnd(p, cur, st, r);
    } else {
      Accepts(p, cur, s, st);
      hide Read6, Finish, Value, TextBehind, Read, St, IsForm;
      if IsHexDigit(s[0]) {
        StepDigit(p, cur, s, st);
        f := FormOf(p, cur + [s[0]], s[1..], St(p, cur + [s[0]], cur + s), r);
        assert cur + [s[0]] + s[1..] == cur + s;
      } else if s[0] == ':' && cur != "" {
        StepPush(p, cur, s, st);
        f := FormOf(With(p, cur), "", s[1..], St(With(p, cur), "", s[1..]), r);
        assert "" + s[1..] == s[1..];
        Associative(Read(p), cur, s);
      } else if s[0] == ':' {
        StepGap(p, s, st);
        f := FormOf(Part(p.front, true, []), "", s[1..], St(Part(p.front, true, []), "", s[1..]), r);
        assert "" + s[1..] == s[1..] && cur + s == s;
      } else {
        var b := Parse4(cur + s).value;
        Parse4Iff(cur + s, b);
        f := EndsWithAddress(p, b, cur + s, r);
      }
    }
  }

  lemma FormAtEnd(p: Part, cur: string, st: State6, r: seq<byte>) returns (f: Form)
    requires Reading(p, cur, "", st) && Finish(st) == Some(r)
    ensures IsForm(f) && Value(f) == r && TextBehind(f) == Read(p) + cur
  {
    assert cur + "" == cur;
    if cur != "" {
      f := EndsWithGroup(p, cur, cur, r);
    } else if p.gap {
      assert p == Part(p.front, true, []);
      f := EndsWithGap(p.front, cur, r);
      assert Read(p) + "" == Read(p);
    } else {
      assert false;
    }
  }

  lemma StartsWithGap(f: Form)
    requires IsForm(f)
    ensures Text(f) != "" && (Text(f)[0] == ':' <==> f.gap && f.front == [])
    ensures Text(f) == (if f.gap && f.front == [] then ":" else "") + TextBehind(f)
    ensures TextBehind(f) != "" && (TextBehind(f)[0] == ':' <==> f.gap && f.front == [])
  {
    hide Value;
    if !f.gap {
      var gs := Items(f.front, f.v4);
      if f.v4.Some? {
        var rest := DottedStarts(f.v4.value);
        DecDigits(f.v4.value[0]);
        DecLength(f.v4.value[0]);
      }
      JoinedStart(gs);
    } else if f.front != [] {
      JoinedStart(f.front);
    } else {
      assert Text(f) == ":" + TextBehind(f);
    }
  }

  lemma FormOfAccepted(s: string, r: seq<byte>) returns (f: Form)
    requires Parse6(s) == Some(r)
    ensures IsForm(f) && Text(f) == s && Value(f) == r
  {
    var t := Behind(s, r);
    f := FormBehind(t, r);
    StartsWithGap(f);
    hide Parse6, Read6, Value, Text, TextBehind, IsForm;
    if s[0] == ':' {
      assert ":" + t == s;
    } else {
      assert "" + t == s;
    }
  }

  lemma Behind(s: string, r: seq<byte>) returns (t: string)
    requires Parse6(s) == Some(r)
    ensures s != "" && End(Read6(t, Start(t))) == Some(r)
    ensures if s[0] == ':' then t == s[1..] && t != "" && t[0] == ':' else t == s
  {
    t := if s != [] && s[0] == ':' then s[1..] else s;
  }

  lemma FormBehind(t: string, r: seq<byte>) returns (f: Form)
    requires End(Read6(t, Start(t))) == Some(r)
    ensures IsForm(f) && Value(f) == r && TextBehind(f) == t
  {
    var p := Part([], false, []);
    Empty(t);
    assert Read(p) == "" && "" + t == t && Reading(p, "", t, Start(t));
    hide Read6, Value, TextBehind, Finish, IsForm, Start, Read, Reading;
    f := FormOf(p, "", t, Start(t), r);
    assert "" + t == t;
  }

  // ----- upper and lower case

  function LowerCase(s: string): (t: string)
    ensures |t| == |s|
  {
    if s == "" then ""
    else [if 'A' <= s[0] <= 'F' then (s[0] as int + 32) as char else s[0]] + LowerCase(s[1..])
  }

  lemma {:induction false} Parse4Alike(s: string, st: State4)
    requires |st.done| <= 3
    ensures Read4(LowerCase(s), st) == Read4(s, st)
    decreases |s|
  {
    if s != "" {
      var t := LowerCase(s);
      assert t[1..] == LowerCase(s[1..]) && DecValue(t[0]) == DecValue(s[0]) && (t[0] == '.' <==> s[0] == '.');
      forall st': State4 | |st'.done| <= 3
        ensures Read4(t[1..], st') == Read4(s[1..], st')
      {
        Parse4Alike(s[1..], st');
      }
    }
  }

  lemma {:induction false} Read6Alike(s: string, st: State6)
    requires Fits(st)
    ensures var st' := st.(token := LowerCase(st.token));
            match Read6(s, st)
            case None => Read6(LowerCase(s), st') == None
            case Some(x) => Read6(LowerCase(s), st') == Some(x.(token := LowerCase(x.token)))
    decreases |s|
  {
    if s != "" {
      var t := LowerCase(s);
      assert t[1..] == LowerCase(s[1..]) && HexValue(t[0]) == HexValue(s[0]);
      assert (t[0] == '.' <==> s[0] == '.') && (t[0] == ':' <==> s[0] == ':');
      Parse4Alike(st.token, State4([], 0, false));
      var d, rest := HexValue(s[0]), s[1..];
      hide LowerCase, Read4, HexValue;
      if d >= 0 {
        if st.seen < 4 {
          Read6Alike(rest, st.(val := st.val * 16 + d, seen := st.seen + 1));
        }
      } else if s[0] == ':' {
        if st.seen == 0 {
          Read6Alike(rest, st.(colon := |st.bytes|, token := rest));
        } else if rest != [] && |st.bytes| + 2 <= 16 {
          Read6Alike(rest, Push(st).(token := rest));
        }
      }
    }
  }

  /** An address in upper case is parsed as the one in lower case. */
  lemma CaseAlike(s: string)
    ensures Parse6(LowerCase(s)) == Parse6(s)
  {
    if s != "" {
      var t := LowerCase(s);
      assert t[1..] == LowerCase(s[1..]) && (t[0] == ':' <==> s[0] == ':');
      assert |s| >= 2 ==> (t[1] == ':' <==> s[1] == ':');
      Read6Alike(s, Start(s));
      Read6Alike(s[1..], Start(s[1..]));
    }
  }

  /** inet_pton6 accepts exactly the texts of forms, and returns what they stand for: groups of one to four
      hexadecimal digits of either case, at most one gap, which stands for at least one group of zeros, and at the
      end perhaps an IPv4 address. */
  lemma Parse6Iff(s: string, r: seq<byte>)
    ensures Parse6(s) == Some(r) <==> exists f: Form :: IsForm(f) && Text(f) == s && Value(f) == r
  {
    hide Parse6, IsForm, Text, Value;
    if Parse6(s) == Some(r) {
      var f := FormOfAccepted(s, r);
    }
    if exists f: Form :: IsForm(f) && Text(f) == s && Value(f) == r {
      var f: Form :| IsForm(f) && Text(f) == s && Value(f) == r;
      if f.gap {
        if f.front == [] {
          ReadsGapFirst(f);
        } else {
          ReadsGapLater(f);
        }
      } else {
        ReadsPlain(f);
      }
    }
  }
}
