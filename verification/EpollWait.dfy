/** The events of one epoll_pwait in uv__io_poll of src/unix/linux.c: callbacks start, stop and close watchers
    while events for them are still in the buffer. */
module EpollWait {
  import opened Basics
  import opened IoWatchers
  import opened EpollCtl
  import opened NextPower

  /** What the kernel reports for a descriptor. */
  datatype Ready = Ready(fd: int, flags: Mask, err: bool, hup: bool)

  /** What a callback does to watchers. */
  datatype IoAction = StartIo(w: Watcher, events: Mask) | StopIo(w: Watcher, events: Mask) | CloseIo(w: Watcher)

  /** What becomes of an event: it was invalidated, its descriptor is taken out of the kernel because nobody
      watches it, it holds nothing its watcher wants, it is for the signal watcher, which runs after the others,
      or the watcher is called back. */
  datatype Outcome = Skipped | Disarmed | Filtered | Late | Called(w: Watcher, given: Ready)

  /** What the watchers want, the descriptors closed in this pass, and the kernel's interest list. */
  datatype Poll = Poll(want: map<Watcher, Mask>, gone: set<int>, kernel: Interest)

  // ----- the meaning of a pass

  /** What the watcher is given of an event; a lone error or hangup comes with everything it wants. */
  function Given(e: Ready, wanted: Mask): Ready {
    if e.flags * wanted == {} && e.err != e.hup then e.(flags := wanted) else e.(flags := e.flags * wanted)
  }

  predicate Nothing(e: Ready) {
    e.flags == {} && !e.err && !e.hup
  }

  /** No other watcher wants anything of w's descriptor. */
  ghost predicate Alone(want: map<Watcher, Mask>, w: Watcher) {
    forall v :: v in want && v != w && v.fd == w.fd ==> want[v] == {}
  }

  ghost function AfterAction(s: Poll, a: IoAction): Poll {
    if a.w !in s.want || (!a.StopIo? && !Alone(s.want, a.w)) then s
    else
      match a
      case StartIo(w, events) => s.(want := s.want[w := s.want[w] + events])
      case StopIo(w, events) => s.(want := s.want[w := s.want[w] - events])
      case CloseIo(w) => Poll(s.want[w := {}], s.gone + {w.fd}, s.kernel - {w.fd})
  }

  ghost function AfterScript(s: Poll, script: seq<IoAction>): Poll {
    if script == [] then s else AfterAction(AfterScript(s, script[..|script| - 1]), script[|script| - 1])
  }

  ghost predicate Watched(s: Poll, fd: int) {
    exists w :: w in s.want && w.fd == fd && s.want[w] != {}
  }

  ghost function OutcomeOf(s: Poll, e: Ready, signals: Watcher?): Outcome {
    if e.fd in s.gone then Skipped
    else if !Watched(s, e.fd) then Disarmed
    else
      var w :| w in s.want && w.fd == e.fd && s.want[w] != {};
      var g := Given(e, s.want[w]);
      if Nothing(g) then Filtered else if w == signals then Late else Called(w, g)
  }

  /** The state after an event, and the scripts of the callbacks behind it. */
  ghost function Next(s: Poll, o: Outcome, fd: int, scripts: seq<seq<IoAction>>): (Poll, seq<seq<IoAction>>) {
    if o.Disarmed? then (s.(kernel := s.kernel - {fd}), scripts)
    else if o.Called? && scripts != [] then (AfterScript(s, scripts[0]), scripts[1..])
    else (s, scripts)
  }

  /** scripts[k] is what the k-th callback does. */
  ghost function Outcomes(s: Poll, q: seq<Ready>, scripts: seq<seq<IoAction>>, signals: Watcher?): seq<Outcome>
    decreases |q|
  {
    if q == [] then []
    else
      var o := OutcomeOf(s, q[0], signals);
      var (t, rest) := Next(s, o, q[0].fd, scripts);
      [o] + Outcomes(t, q[1..], rest, signals)
  }

  ghost function Final(s: Poll, q: seq<Ready>, scripts: seq<seq<IoAction>>, signals: Watcher?): Poll
    decreases |q|
  {
    if q == [] then s
    else
      var o := OutcomeOf(s, q[0], signals);
      var (t, rest) := Next(s, o, q[0].fd, scripts);
      Final(t, q[1..], rest, signals)
  }

  // ----- the pass itself

  ghost function Want(loop: IoLoop): map<Watcher, Mask>
    reads loop`known, loop.known`pevents
  {
    map w | w in loop.known :: w.pevents
  }

  ghost function Now(loop: IoLoop, ctl: Ctl, gone: set<int>): Poll
    reads loop`known, loop.known`pevents, ctl`kernel
  {
    Poll(Want(loop), gone, ctl.kernel)
  }

  /** The invariant of the loop and its interest list. */
  ghost predicate Ok(loop: IoLoop, ctl: Ctl, async: Watcher?)
    reads loop, loop.known, ctl, ctl.sqe, ctl.events
  {
    && loop.Valid() && loop.Exclusive() && ctl.Valid() && ctl.pending == [] && ctl.cq == []
    && Tracked(loop, ctl, async) && Bounded(loop, ctl)
  }

  /** The events from the i-th on are those the kernel reported, but for those of closed descriptors. */
  ghost predicate Buffer(now: seq<Ready>, q: seq<Ready>, i: nat, gone: set<int>) {
    |now| == |q| && forall j :: i <= j < |q| ==> now[j] == if q[j].fd in gone then q[j].(fd := -1) else q[j]
  }

  /** What the source asserts of its callers; for the descriptor INT_MAX - 1 a start would abort. */
  ghost predicate Legal(a: IoAction, known: set<Watcher>) {
    && a.w in known && a.w.fd >= -1
    && (a.StartIo? ==> a.w.fd >= 0 && a.w.fd + 3 <= Power(WIDTH - 1))
    && (a.StopIo? || a.StartIo? ==> a.events != {})
  }

  /** uv__platform_invalidate_fd, on the events of the pass. */
  method Invalidate(events: array<Ready>, nfds: nat, fd: int, ghost q: seq<Ready>, ghost i: nat, ghost gone: set<int>)
    requires nfds <= events.Length && Buffer(events[..nfds], q, i, gone)
    modifies events
    ensures Buffer(events[..nfds], q, i, gone + {fd})
  {
    for k := 0 to nfds
      invariant forall j :: 0 <= j < nfds ==>
                  events[j] == if j < k && old(events[j]).fd == fd then old(events[j]).(fd := -1) else old(events[j])
    {
      if events[k].fd == fd {
        events[k] := events[k].(fd := -1);
      }
    }
    forall j | i <= j < nfds
      ensures events[j] == if q[j].fd in gone + {fd} then q[j].(fd := -1) else q[j]
    {
      assert old(events[..nfds])[j] == old(events[j]);
    }
  }

  lemma AloneIff(loop: IoLoop, w: Watcher)
    requires loop.Valid() && loop.Exclusive() && w in loop.known
    ensures Alone(Want(loop), w) <==>
              (0 <= w.fd < |loop.watchers| ==> loop.watchers[w.fd] == null || loop.watchers[w.fd] == w)
  {
    if 0 <= w.fd < |loop.watchers| {
      assert loop.SlotOk(w.fd);
    }
  }

  /** A start or a close waits until no other watcher has the descriptor: one watcher a descriptor. */
  method Act(loop: IoLoop, ctl: Ctl, async: Watcher?, events: array<Ready>, nfds: nat, a: IoAction,
             ghost q: seq<Ready>, ghost i: nat, ghost gone: set<int>)
    returns (ghost gone': set<int>)
    requires Ok(loop, ctl, async) && Legal(a, loop.known)
    requires nfds <= events.Length && Buffer(events[..nfds], q, i, gone)
    modifies loop`watchers, loop`nfds, loop`queue, loop.known`pevents, loop.known`events, ctl`kernel, events
    ensures Ok(loop, ctl, async) && |loop.watchers| >= old(|loop.watchers|)
    ensures Buffer(events[..nfds], q, i, gone')
    ensures Now(loop, ctl, gone') == AfterAction(old(Now(loop, ctl, gone)), a)
  {
    gone' := gone;
    AloneIff(loop, a.w);
    if !a.StopIo? && 0 <= a.w.fd < |loop.watchers| && loop.watchers[a.w.fd] != null && loop.watchers[a.w.fd] != a.w {
      return;
    }
    match a
    case StartIo(w, mask) =>
      StartOne(loop, ctl, async, w, mask);
    case StopIo(w, mask) =>
      StopOne(loop, ctl, async, w, mask);
    case CloseIo(w) =>
      CloseOne(loop, ctl, async, w);
      Invalidate(events, nfds, w.fd, q, i, gone);
      gone' := gone + {w.fd};
  }

  method StartOne(loop: IoLoop, ctl: Ctl, async: Watcher?, w: Watcher, mask: Mask)
    requires Ok(loop, ctl, async) && Legal(StartIo(w, mask), loop.known) && Alone(Want(loop), w)
    modifies loop`watchers, loop`nfds, loop`queue, w`pevents
    ensures Ok(loop, ctl, async) && |loop.watchers| >= old(|loop.watchers|)
    ensures Want(loop) == old(Want(loop))[w := old(w.pevents) + mask]
  {
    hide ctl.Valid, loop.Valid, loop.Exclusive;
    AloneIff(loop, w);
    var ok := loop.Start(w, mask);
    forall v | v in loop.known
      ensures TrackedAt(v, ctl.kernel, async)
    {
      assert old(TrackedAt(v, ctl.kernel, async));
    }
  }

  method StopOne(loop: IoLoop, ctl: Ctl, async: Watcher?, w: Watcher, mask: Mask)
    requires Ok(loop, ctl, async) && Legal(StopIo(w, mask), loop.known)
    modifies loop`watchers, loop`nfds, loop`queue, w`pevents, w`events
    ensures Ok(loop, ctl, async) && |loop.watchers| >= old(|loop.watchers|)
    ensures Want(loop) == old(Want(loop))[w := old(w.pevents) - mask]
  {
    hide ctl.Valid, loop.Valid, loop.Exclusive;
    loop.Stop(w, mask);
    forall v | v in loop.known
      ensures TrackedAt(v, ctl.kernel, async)
    {
      assert old(TrackedAt(v, ctl.kernel, async));
    }
  }

  method CloseOne(loop: IoLoop, ctl: Ctl, async: Watcher?, w: Watcher)
    requires Ok(loop, ctl, async) && Legal(CloseIo(w), loop.known) && Alone(Want(loop), w)
    modifies loop`watchers, loop`nfds, loop`queue, w`pevents, w`events, ctl`kernel
    ensures Ok(loop, ctl, async) && |loop.watchers| >= old(|loop.watchers|)
    ensures Want(loop) == old(Want(loop))[w := {}] && ctl.kernel == old(ctl.kernel) - {w.fd}
  {
    hide ctl.Valid, loop.Valid, loop.Exclusive;
    forall v | v in loop.known && v != w && v.fd == w.fd
      ensures v.pevents == {}
    {
      assert Want(loop)[v] == {};
    }
    Close(loop, ctl, async, w);
  }

  ghost predicate AllLegal(scripts: seq<seq<IoAction>>, known: set<Watcher>) {
    forall k, j :: 0 <= k < |scripts| && 0 <= j < |scripts[k]| ==> Legal(scripts[k][j], known)
  }

  /** A callback. */
  method Callback(loop: IoLoop, ctl: Ctl, async: Watcher?, events: array<Ready>, nfds: nat, script: seq<IoAction>,
                  ghost q: seq<Ready>, ghost i: nat, ghost gone: set<int>)
    returns (ghost gone': set<int>)
    requires Ok(loop, ctl, async) && forall j :: 0 <= j < |script| ==> Legal(script[j], loop.known)
    requires nfds <= events.Length && Buffer(events[..nfds], q, i, gone)
    modifies loop`watchers, loop`nfds, loop`queue, loop.known`pevents, loop.known`events, ctl`kernel, events
    ensures Ok(loop, ctl, async) && |loop.watchers| >= old(|loop.watchers|)
    ensures Buffer(events[..nfds], q, i, gone')
    ensures Now(loop, ctl, gone') == AfterScript(old(Now(loop, ctl, gone)), script)
  {
    hide Ok, Buffer, Now, AfterAction;
    gone' := gone;
    for k := 0 to |script|
      invariant Ok(loop, ctl, async) && |loop.watchers| >= old(|loop.watchers|)
      invariant Buffer(events[..nfds], q, i, gone')
      invariant Now(loop, ctl, gone') == AfterScript(old(Now(loop, ctl, gone)), script[..k])
    {
      gone' := Act(loop, ctl, async, events, nfds, script[k], q, i, gone');
      assert script[..k + 1][..k] == script[..k];
    }
    assert script[..|script|] == script;
  }

  /** The slot of a descriptor holds the watcher that wants something of it. */
  lemma SlotWatches(loop: IoLoop, ctl: Ctl, gone: set<int>, e: Ready, signals: Watcher?)
    requires loop.Valid() && loop.Exclusive() && 0 <= e.fd < |loop.watchers| && e.fd !in gone
    ensures var w := loop.watchers[e.fd];
            if w == null then OutcomeOf(Now(loop, ctl, gone), e, signals) == Disarmed
            else
              var g := Given(e, w.pevents);
              OutcomeOf(Now(loop, ctl, gone), e, signals)
                == if Nothing(g) then Filtered else if w == signals then Late else Called(w, g)
  {
    hide Given, Nothing;
    var s := Now(loop, ctl, gone);
    var w := loop.watchers[e.fd];
    assert loop.SlotOk(e.fd);
    assert forall v :: v in s.want && v.fd == e.fd && s.want[v] != {} ==> v == w;
    if w != null {
      assert w in s.want && s.want[w] == w.pevents;
    }
  }

  /** A descriptor that nobody watches any more is taken out of the kernel when it is reported. */
  method Disarm(loop: IoLoop, ctl: Ctl, async: Watcher?, fd: int)
    requires Ok(loop, ctl, async) && 0 <= fd < |loop.watchers| && loop.watchers[fd] == null
    modifies ctl`kernel
    ensures Ok(loop, ctl, async) && ctl.kernel == old(ctl.kernel) - {fd}
  {
    ctl.kernel := ctl.kernel - {fd};
    forall v | v in loop.known
      ensures TrackedAt(v, ctl.kernel, async)
    {
      assert old(TrackedAt(v, ctl.kernel, async)) && loop.WatcherOk(v);
    }
  }

  lemma SkippedWhen(s: Poll, e: Ready, signals: Watcher?)
    ensures e.fd in s.gone ==> OutcomeOf(s, e, signals) == Skipped
  {}

  /** One turn of the loop over the events. */
  method Turn(loop: IoLoop, ctl: Ctl, async: Watcher?, signals: Watcher?, events: array<Ready>, nfds: nat,
              scripts: seq<seq<IoAction>>, i: nat, ghost q: seq<Ready>, ghost gone: set<int>)
    returns (o: Outcome, rest: seq<seq<IoAction>>, ghost gone': set<int>)
    requires Ok(loop, ctl, async) && AllLegal(scripts, loop.known) && i < nfds <= events.Length
    requires Buffer(events[..nfds], q, i, gone) && 0 <= q[i].fd < |loop.watchers|
    modifies loop`watchers, loop`nfds, loop`queue, loop.known`pevents, loop.known`events, ctl`kernel, events
    ensures Ok(loop, ctl, async) && AllLegal(rest, loop.known) && |loop.watchers| >= old(|loop.watchers|)
    ensures Buffer(events[..nfds], q, i + 1, gone')
    ensures o == OutcomeOf(old(Now(loop, ctl, gone)), q[i], signals)
    ensures (Now(loop, ctl, gone'), rest) == Next(old(Now(loop, ctl, gone)), o, q[i].fd, scripts)
  {
    hide Given, Nothing, AfterScript, OutcomeOf, ctl.Valid, loop.Valid, loop.Exclusive;
    rest, gone' := scripts, gone;
    var e := events[..nfds][i];
    if e.fd == -1 {
      SkippedWhen(Now(loop, ctl, gone), q[i], signals);
      o := Skipped;
    } else {
      var w := loop.watchers[e.fd];
      SlotWatches(loop, ctl, gone, e, signals);
      if w == null {
        Disarm(loop, ctl, async, e.fd);
        o := Disarmed;
      } else {
        e := Given(e, w.pevents);
        events[i] := e;
        if Nothing(e) {
          o := Filtered;
        } else if w == signals {
          o := Late;
        } else {
          o := Called(w, e);
          if rest != [] {
            gone' := Callback(loop, ctl, async, events, nfds, rest[0], q, i + 1, gone);
            rest := rest[1..];
          }
        }
      }
    }
  }

  /** The loop over the events that epoll_pwait has reported: what becomes of each follows from what the
      watchers wanted at its turn and from what was closed before, and the invariant holds afterwards, so the
      next registration is right again. */
  method Dispatch(loop: IoLoop, ctl: Ctl, async: Watcher?, signals: Watcher?, events: array<Ready>, nfds: nat,
                  scripts: seq<seq<IoAction>>)
    returns (log: seq<Outcome>, ghost gone: set<int>)
    requires Ok(loop, ctl, async) && AllLegal(scripts, loop.known) && nfds <= events.Length
    requires forall i :: 0 <= i < nfds ==> events[i].fd in ctl.kernel
    modifies loop`watchers, loop`nfds, loop`queue, loop.known`pevents, loop.known`events, ctl`kernel, events
    ensures Ok(loop, ctl, async)
    ensures log == old(Outcomes(Now(loop, ctl, {}), events[..nfds], scripts, signals))
    ensures Now(loop, ctl, gone) == old(Final(Now(loop, ctl, {}), events[..nfds], scripts, signals))
  {
    hide OutcomeOf, Next, ctl.Valid, loop.Valid, loop.Exclusive;
    ghost var q, s := events[..nfds], Now(loop, ctl, {});
    var rest := scripts;
    log, gone := [], {};
    assert q[0..] == q;
    for i := 0 to nfds
      invariant Ok(loop, ctl, async) && AllLegal(rest, loop.known) && |loop.watchers| >= old(|loop.watchers|)
      invariant Buffer(events[..nfds], q, i, gone)
      invariant log + Outcomes(Now(loop, ctl, gone), q[i..], rest, signals) == Outcomes(s, q, scripts, signals)
      invariant Final(Now(loop, ctl, gone), q[i..], rest, signals) == Final(s, q, scripts, signals)
    {
      var o;
      assert q[i..][1..] == q[i + 1..];
      o, rest, gone := Turn(loop, ctl, async, signals, events, nfds, rest, i, q, gone);
      Associative(log, [o], Outcomes(Now(loop, ctl, gone), q[i + 1..], rest, signals));
      log := log + [o];
    }
    assert log + [] == log;
  }

  // ----- what a pass promises

  /** The state before the i-th event, and the scripts left. */
  ghost function Before(s: Poll, q: seq<Ready>, scripts: seq<seq<IoAction>>, signals: Watcher?, i: nat)
    : (Poll, seq<seq<IoAction>>)
    requires i <= |q|
    decreases i
  {
    if i == 0 then (s, scripts)
    else
      var (t, rest) := Next(s, OutcomeOf(s, q[0], signals), q[0].fd, scripts);
      Before(t, q[1..], rest, signals, i - 1)
  }

  lemma {:induction false} OutcomeAt(s: Poll, q: seq<Ready>, scripts: seq<seq<IoAction>>, signals: Watcher?, i: nat)
    requires i < |q|
    ensures |Outcomes(s, q, scripts, signals)| == |q|
    ensures Outcomes(s, q, scripts, signals)[i] == OutcomeOf(Before(s, q, scripts, signals, i).0, q[i], signals)
    ensures Before(s, q, scripts, signals, i + 1)
         == var (t, rest) := Before(s, q, scripts, signals, i); Next(t, OutcomeOf(t, q[i], signals), q[i].fd, rest)
    decreases |q|
  {
    hide OutcomeOf, Next;
    var (t, rest) := Next(s, OutcomeOf(s, q[0], signals), q[0].fd, scripts);
    if |q| > 1 {
      OutcomeAt(t, q[1..], rest, signals, if i > 0 then i - 1 else 0);
    }
  }

  /** One watcher a descriptor. */
  ghost predicate OneEach(want: map<Watcher, Mask>) {
    forall v, w :: v in want && w in want && v != w && v.fd == w.fd ==> want[v] == {} || want[w] == {}
  }

  /** One state after another: no watcher comes or goes, and what is closed stays closed. */
  ghost predicate Follows(s: Poll, t: Poll) {
    s.want.Keys == t.want.Keys && s.gone <= t.gone && (OneEach(s.want) ==> OneEach(t.want))
  }

  lemma ActionFollows(s: Poll, a: IoAction)
    ensures Follows(s, AfterAction(s, a))
  {
    if a.w in s.want && !a.StopIo? && Alone(s.want, a.w) {
      assert AfterAction(s, a).want.Keys == s.want.Keys;
    }
  }

  lemma {:induction false} ScriptFollows(s: Poll, script: seq<IoAction>)
    ensures Follows(s, AfterScript(s, script))
  {
    hide AfterAction;
    if script != [] {
      ScriptFollows(s, script[..|script| - 1]);
      ActionFollows(AfterScript(s, script[..|script| - 1]), script[|script| - 1]);
    }
  }

  lemma {:induction false} BeforeFollows(s: Poll, q: seq<Ready>, scripts: seq<seq<IoAction>>, signals: Watcher?,
                                         i: nat, j: nat)
    requires i <= j <= |q|
    ensures Follows(Before(s, q, scripts, signals, i).0, Before(s, q, scripts, signals, j).0)
    decreases j - i
  {
    hide OutcomeOf, Outcomes, AfterScript;
    if i < j {
      BeforeFollows(s, q, scripts, signals, i, j - 1);
      OutcomeAt(s, q, scripts, signals, j - 1);
      var (t, rest) := Before(s, q, scripts, signals, j - 1);
      if rest != [] {
        ScriptFollows(t, rest[0]);
      }
    }
  }

  /** An event reaches a watcher if and only if its descriptor has not been closed in this pass and a watcher
      of the descriptor wants, at its turn, some of what is reported; errors and hangups are always wanted. */
  lemma ReachesIff(s: Poll, q: seq<Ready>, scripts: seq<seq<IoAction>>, signals: Watcher?, i: nat, w: Watcher)
    requires i < |q| && OneEach(s.want)
    ensures |Outcomes(s, q, scripts, signals)| == |q|
    ensures var (t, o) := (Before(s, q, scripts, signals, i).0, Outcomes(s, q, scripts, signals)[i]);
            (if w == signals then o == Late else o == Called(w, Given(q[i], if w in t.want then t.want[w] else {})))
              <==>
            && q[i].fd !in t.gone && w in t.want && w.fd == q[i].fd && t.want[w] != {}
            && (q[i].err || q[i].hup || q[i].flags * t.want[w] != {})
  {
    OutcomeAt(s, q, scripts, signals, i);
    BeforeFollows(s, q, scripts, signals, 0, i);
    var t := Before(s, q, scripts, signals, i).0;
    GivenNothing(q[i], if w in t.want then t.want[w] else {});
  }

  /** The invariant of the loop gives each descriptor one watcher. */
  lemma LoopHasOneEach(loop: IoLoop)
    requires loop.Exclusive()
    ensures OneEach(Want(loop))
  {}

  /** What a callback is told: of the flags its watcher wants, those that were reported; but a lone error or
      hangup, with none of them, comes with all of them.  The descriptor, error and hangup are as reported. */
  lemma ToldIff(s: Poll, q: seq<Ready>, scripts: seq<seq<IoAction>>, signals: Watcher?, i: nat, f: Flag)
    requires i < |q| && OutcomeOf(Before(s, q, scripts, signals, i).0, q[i], signals).Called?
    ensures |Outcomes(s, q, scripts, signals)| == |q| && Outcomes(s, q, scripts, signals)[i].Called?
    ensures var (t, o, e) := (Before(s, q, scripts, signals, i).0, Outcomes(s, q, scripts, signals)[i], q[i]);
            && o.w in t.want && o.given.fd == e.fd && o.given.err == e.err && o.given.hup == e.hup
            && (f in o.given.flags <==>
                  f in t.want[o.w] &&
                  (f in e.flags || ((forall g :: g in e.flags ==> g !in t.want[o.w]) && (e.err <==> !e.hup))))
  {
    OutcomeAt(s, q, scripts, signals, i);
    var (t, e) := (Before(s, q, scripts, signals, i).0, q[i]);
    var o := OutcomeOf(t, e, signals);
    assert forall g :: g in e.flags * t.want[o.w] <==> g in e.flags && g in t.want[o.w];
  }

  lemma GivenNothing(e: Ready, wanted: Mask)
    ensures Nothing(Given(e, wanted)) <==> !e.err && !e.hup && e.flags * wanted == {}
  {}

  lemma {:induction false} CloseIsFinal(s: Poll, script: seq<IoAction>, k: nat)
    requires k < |script| && script[k].CloseIo? && script[k].w in s.want
    requires Alone(AfterScript(s, script[..k]).want, script[k].w)
    ensures script[k].w.fd in AfterScript(s, script).gone
  {
    var n := |script| - 1;
    ScriptFollows(s, script[..n]);
    ActionFollows(AfterScript(s, script[..n]), script[n]);
    if k < n {
      assert script[..n][..k] == script[..k];
      CloseIsFinal(s, script[..n], k);
    }
  }

  /** Once a callback has closed a watcher, no event of this pass for its descriptor reaches anybody, not even
      a watcher that has taken the descriptor over meanwhile. */
  lemma NoStaleEvent(s: Poll, q: seq<Ready>, scripts: seq<seq<IoAction>>, signals: Watcher?, i: nat, j: nat, k: nat)
    requires i < j < |q| && OutcomeOf(Before(s, q, scripts, signals, i).0, q[i], signals).Called?
    requires var (t, rest) := Before(s, q, scripts, signals, i);
             && rest != [] && k < |rest[0]| && rest[0][k].CloseIo? && rest[0][k].w in t.want
             && Alone(AfterScript(t, rest[0][..k]).want, rest[0][k].w) && rest[0][k].w.fd == q[j].fd
    ensures |Outcomes(s, q, scripts, signals)| == |q| && Outcomes(s, q, scripts, signals)[j] == Skipped
  {
    hide OutcomeOf, AfterScript;
    var (t, rest) := Before(s, q, scripts, signals, i);
    OutcomeAt(s, q, scripts, signals, i);
    CloseIsFinal(t, rest[0], k);
    BeforeFollows(s, q, scripts, signals, i + 1, j);
    OutcomeAt(s, q, scripts, signals, j);
    SkippedWhen(Before(s, q, scripts, signals, j).0, q[j], signals);
  }
}
