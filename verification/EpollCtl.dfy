/** How a loop tells the kernel what it is interested in: uv__epoll_ctl_prep, uv__epoll_ctl_flush and
    the registration phase of uv__io_poll, of src/unix/linux.c.

    The kernel is part of the model: its interest list, and a submission ring whose entries it runs
    in order when it is entered. */
module EpollCtl {
  import opened Basics
  import opened IoWatchers

  /** A struct epoll_event: the poll flags, EPOLLET, and the descriptor in the user data. */
  datatype Event = Event(mask: Mask, edge: bool, fd: int)

  datatype Op = Add | Mod

  function OpCode(op: Op): int {
    if op == Add then 1 else 3
  }

  const EPOLL_CTL_ADD := 1
  const EPOLL_CTL_DEL := 2
  const EEXIST := -17
  const ENOENT := -2

  const SLOTS := 256
  const UINT_RANGE := 0x1_0000_0000

  datatype Sqe = Sqe(addr: int, op: Op, fd: int, userData: int)
  datatype Cqe = Cqe(userData: int, res: int)

  /** What the kernel reads from the ring for one submission. */
  datatype Entry = Entry(op: Op, fd: int, event: Event)

  type Interest = map<int, Event>

  // ----- user data

  function UserData(op: Op, slot: int, fd: int): int {
    OpCode(op) + 4 * slot + UINT_RANGE * fd
  }

  lemma Split4(x: int, r: int)
    requires 0 <= r < 4
    ensures (4 * x + r) % 4 == r && (4 * x + r) / 4 == x
  {}

  lemma Split256(x: int, r: int)
    requires 0 <= r < SLOTS
    ensures (SLOTS * x + r) % SLOTS == r
  {}

  lemma Split32(x: int, r: int)
    requires 0 <= r < UINT_RANGE
    ensures (UINT_RANGE * x + r) / UINT_RANGE == x
  {}

  /** op | slot << 2 | fd << 32 can be taken apart again. */
  lemma UserDataRoundTrip(op: Op, slot: int, fd: int)
    requires 0 <= slot < SLOTS
    ensures UserData(op, slot, fd) % 4 == OpCode(op) && OpCode(Add) == 1 && OpCode(Mod) == 3
    ensures UserData(op, slot, fd) / 4 % SLOTS == slot
    ensures UserData(op, slot, fd) / UINT_RANGE == fd
  {
    var high := 0x40_0000 * fd;
    Split4(SLOTS * high + slot, OpCode(op));
    Split256(high, slot);
    Split32(fd, OpCode(op) + 4 * slot);
  }

  // ----- the kernel

  predicate Fails(k: Interest, e: Entry) {
    if e.op == Add then e.fd in k else e.fd !in k
  }

  /** The interest list after the submissions q, those that fail left out. */
  function Exec(k: Interest, q: seq<Entry>): (r: Interest)
    ensures k.Keys <= r.Keys
    decreases |q|
  {
    if q == [] then k else Exec(if Fails(k, q[0]) then k else k[q[0].fd := q[0].event], q[1..])
  }

  function Failures(k: Interest, q: seq<Entry>): (f: seq<bool>)
    ensures |f| == |q|
    decreases |q|
  {
    if q == [] then []
    else [Fails(k, q[0])] + Failures(if Fails(k, q[0]) then k else k[q[0].fd := q[0].event], q[1..])
  }

  /** The i-th submission alone, and the others after it. */
  lemma ExecNext(k: Interest, q: seq<Entry>, i: int)
    requires 0 <= i < |q|
    ensures var k' := if Fails(k, q[i]) then k else k[q[i].fd := q[i].event];
            && Exec(k, q[i..]) == Exec(k', q[i + 1..])
            && Failures(k, q[i..])[0] == Fails(k, q[i]) && Failures(k, q[i..])[1..] == Failures(k', q[i + 1..])
  {}

  // ----- the intention

  /** The interest list when every entry takes effect. */
  function Apply(k: Interest, q: seq<Entry>): (r: Interest)
    decreases |q|
  {
    if q == [] then k else Apply(k[q[0].fd := q[0].event], q[1..])
  }

  /** The failed entries, to be tried again as modifications. */
  function Again(q: seq<Entry>, f: seq<bool>): (r: seq<Entry>)
    requires |f| == |q|
    ensures |r| <= |q|
  {
    if q == [] then [] else (if f[0] then [q[0].(op := Mod)] else []) + Again(q[1..], f[1..])
  }

  predicate Distinct(q: seq<Entry>) {
    forall i, j :: 0 <= i < j < |q| ==> q[i].fd != q[j].fd
  }

  predicate Absent(fd: int, q: seq<Entry>) {
    forall i :: 0 <= i < |q| ==> q[i].fd != fd
  }

  lemma {:induction false} ApplyAppend(k: Interest, q: seq<Entry>, r: seq<Entry>)
    ensures Apply(k, q + r) == Apply(Apply(k, q), r)
    decreases |q|
  {
    if q == [] {
      assert q + r == r;
    } else {
      assert (q + r)[1..] == q[1..] + r;
      ApplyAppend(k[q[0].fd := q[0].event], q[1..], r);
    }
  }

  lemma ApplyOne(k: Interest, e: Entry)
    ensures Apply(k, [e]) == k[e.fd := e.event]
  {
    assert [e][1..] == [];
  }

  lemma {:induction false} ApplyKeys(k: Interest, q: seq<Entry>, fd: int)
    requires Absent(fd, q)
    ensures fd in Apply(k, q) <==> fd in k
    decreases |q|
  {
    if q != [] {
      ApplyKeys(k[q[0].fd := q[0].event], q[1..], fd);
    }
  }

  lemma {:induction false} ApplyLater(k: Interest, q: seq<Entry>, fd: int, event: Event)
    requires Absent(fd, q)
    ensures Apply(k[fd := event], q) == Apply(k, q)[fd := event]
    decreases |q|
  {
    if q != [] {
      assert k[fd := event][q[0].fd := q[0].event] == k[q[0].fd := q[0].event][fd := event];
      ApplyLater(k[q[0].fd := q[0].event], q[1..], fd, event);
    }
  }

  lemma {:induction false} AgainAbsent(q: seq<Entry>, f: seq<bool>, fd: int)
    requires |f| == |q| && Absent(fd, q)
    ensures Absent(fd, Again(q, f))
  {
    if q != [] {
      AgainAbsent(q[1..], f[1..], fd);
    }
  }

  /** Retrying the failed entries as modifications completes what was intended. */
  lemma {:induction false} RetryCompletes(k: Interest, q: seq<Entry>)
    requires Distinct(q)
    ensures Apply(Exec(k, q), Again(q, Failures(k, q))) == Apply(k, q)
    decreases |q|
  {
    if q != [] {
      var e, rest := q[0], q[1..];
      if Fails(k, e) {
        var f := Failures(k, rest);
        assert Failures(k, q) == [true] + f && ([true] + f)[1..] == f;
        RetryCompletes(k, rest);
        var again := Again(rest, f);
        assert Again(q, Failures(k, q)) == [e.(op := Mod)] + again;
        assert ([e.(op := Mod)] + again)[1..] == again;
        AgainAbsent(rest, f, e.fd);
        ApplyLater(Exec(k, rest), again, e.fd, e.event);
        ApplyLater(k, rest, e.fd, e.event);
      } else {
        var k' := k[e.fd := e.event];
        var f := Failures(k', rest);
        assert Failures(k, q) == [false] + f && ([false] + f)[1..] == f;
        RetryCompletes(k', rest);
        assert Again(q, Failures(k, q)) == Again(rest, f);
      }
    }
  }

  /** The event of the last entry for a descriptor. */
  function LastFor(q: seq<Entry>, fd: int): Option<Event> {
    if q == [] then None
    else if LastFor(q[1..], fd).Some? then LastFor(q[1..], fd)
    else if q[0].fd == fd then Some(q[0].event)
    else None
  }

  function At(k: Interest, fd: int): Option<Event> {
    if fd in k then Some(k[fd]) else None
  }

  lemma {:induction false} ApplyAt(k: Interest, q: seq<Entry>, fd: int)
    ensures At(Apply(k, q), fd) == if LastFor(q, fd).Some? then LastFor(q, fd) else At(k, fd)
    decreases |q|
  {
    if q != [] {
      ApplyAt(k[q[0].fd := q[0].event], q[1..], fd);
    }
  }

  /** A descriptor none of whose entries fail gets the last one. */
  lemma {:induction false} ExecAt(k: Interest, q: seq<Entry>, fd: int)
    requires LastFor(Again(q, Failures(k, q)), fd) == None
    ensures At(Exec(k, q), fd) == At(Apply(k, q), fd)
    decreases |q|
  {
    if q != [] {
      var f := Failures(k, q);
      var k' := if Fails(k, q[0]) then k else k[q[0].fd := q[0].event];
      assert f[1..] == Failures(k', q[1..]);
      var again := Again(q[1..], f[1..]);
      if f[0] {
        assert Again(q, f)[1..] == again;
      } else {
        assert Again(q, f) == again;
      }
      ExecAt(k', q[1..], fd);
      ApplyAt(k', q[1..], fd);
      ApplyAt(k[q[0].fd := q[0].event], q[1..], fd);
    }
  }

  /** What the retry leaves for a descriptor. */
  lemma RetryAt(k: Interest, q: seq<Entry>, fd: int)
    ensures var again := Again(q, Failures(k, q));
            && At(Apply(Exec(k, q), again), fd) ==
                 (if LastFor(again, fd).Some? then LastFor(again, fd) else At(Apply(k, q), fd))
            && (LastFor(again, fd).Some? ==> At(Apply(k, q), fd) == LastFor(q, fd))
  {
    var again := Again(q, Failures(k, q));
    ApplyAt(Exec(k, q), again, fd);
    ApplyAt(k, q, fd);
    if LastFor(again, fd) == None {
      ExecAt(k, q, fd);
    } else {
      AgainFor(q, Failures(k, q), fd);
    }
  }

  /** The last failed entry for the descriptor, if there is one, asks for the same as the last entry. */
  predicate AgreesAt(again: seq<Entry>, q: seq<Entry>, fd: int) {
    LastFor(again, fd).Some? ==> LastFor(again, fd) == LastFor(q, fd)
  }

  /** For any batch the retry completes what was intended exactly if the last failed entry of each descriptor
      asks for the same as its last entry. */
  lemma RetryCompletesIff(k: Interest, q: seq<Entry>)
    ensures var again := Again(q, Failures(k, q));
            Apply(Exec(k, q), again) == Apply(k, q) <==> forall fd :: AgreesAt(again, q, fd)
  {
    var again := Again(q, Failures(k, q));
    var got, wanted := Apply(Exec(k, q), again), Apply(k, q);
    forall fd
      ensures At(got, fd) == At(wanted, fd) <==> AgreesAt(again, q, fd)
    {
      RetryAt(k, q, fd);
    }
    SameAt(got, wanted);
  }

  lemma {:induction false} AgainFor(q: seq<Entry>, f: seq<bool>, fd: int)
    requires |f| == |q| && LastFor(Again(q, f), fd).Some?
    ensures LastFor(q, fd).Some?
  {
    var again := Again(q[1..], f[1..]);
    if f[0] {
      assert Again(q, f)[1..] == again;
      if LastFor(again, fd).Some? {
        AgainFor(q[1..], f[1..], fd);
      }
    } else {
      assert Again(q, f) == again;
      AgainFor(q[1..], f[1..], fd);
    }
  }

  lemma SameAt(k: Interest, r: Interest)
    ensures k == r <==> forall fd :: At(k, fd) == At(r, fd)
  {
    if forall fd :: At(k, fd) == At(r, fd) {
      forall fd
        ensures fd in k <==> fd in r
        ensures fd in k && fd in r ==> k[fd] == r[fd]
      {
        assert At(k, fd) == At(r, fd);
      }
    }
  }

  /** With two entries for one descriptor the retry of the first would undo the second. */
  lemma TwoEntriesForOneDescriptor()
    ensures var a, b := Event({In}, false, 5), Event({Out}, false, 5);
            var k, q := map[5 := Event({}, false, 5)], [Entry(Add, 5, a), Entry(Mod, 5, b)];
            Apply(k, q) == map[5 := b] && Apply(Exec(k, q), Again(q, Failures(k, q))) == map[5 := a]
  {
    var a, b := Event({In}, false, 5), Event({Out}, false, 5);
    var k, q := map[5 := Event({}, false, 5)], [Entry(Add, 5, a), Entry(Mod, 5, b)];
    assert q[1..] == [Entry(Mod, 5, b)] && q[1..][1..] == [];
    assert Exec(k, q[1..]) == k[5 := b];
    assert Failures(k, q) == [true, false];
    assert Again(q, [true, false]) == [Entry(Mod, 5, a)];
    assert Apply(k[5 := a], q[1..]) == k[5 := a][5 := b];
  }

  // ----- the ring

  function Slot(head: int, i: int): int {
    (head + i) % SLOTS
  }

  /** The tail is the slot behind the pending entries, and none of theirs. */
  lemma TailSlot(head: int, n: nat, tail: int)
    requires n < SLOTS && tail == (head + n) % UINT_RANGE
    ensures tail % SLOTS == Slot(head, n)
    ensures forall i :: 0 <= i < n ==> Slot(head, i) != Slot(head, n)
  {
    var x := head + n;
    assert x == SLOTS * (0x100_0000 * (x / UINT_RANGE)) + tail;
    SplitSlots(0x100_0000 * (x / UINT_RANGE), tail);
    forall i | 0 <= i < n
      ensures Slot(head, i) != Slot(head, n)
    {
      SlotsDiffer(head + i, n - i);
    }
  }

  lemma SplitSlots(x: int, r: int)
    ensures (SLOTS * x + r) % SLOTS == r % SLOTS
  {}

  lemma SlotsDiffer(x: int, d: int)
    requires 0 < d < SLOTS
    ensures x % SLOTS != (x + d) % SLOTS
  {}

  lemma NextIndex(x: nat)
    ensures (x % UINT_RANGE + 1) % UINT_RANGE == (x + 1) % UINT_RANGE
  {}

  predicate Matches(s: Sqe, slot: int, event: Event, e: Entry) {
    s == Sqe(slot, e.op, e.fd, UserData(e.op, slot, e.fd)) && event == e.event
  }

  class Ctl {
    var sqhead: int
    var sqtail: int
    const sqe: array<Sqe>
    const events: array<Event>   // the prep array of uv__io_poll
    const ring: bool             // ringfd != -1
    var cq: seq<Cqe>             // completions not read yet
    var kernel: Interest
    ghost var pending: seq<Entry>

    constructor (ring: bool)
      ensures this.ring == ring && Valid() && fresh(sqe) && fresh(events) && pending == [] && kernel == map[]
    {
      this.ring := ring;
      sqhead, sqtail, cq, kernel, pending := 0, 0, [], map[], [];
      sqe := new Sqe[SLOTS](_ => Sqe(0, Add, 0, 0));
      events := new Event[SLOTS](_ => Event({}, false, 0));
    }

    ghost predicate Holds(i: int)
      requires sqe.Length == events.Length == SLOTS && 0 <= i < |pending|
      reads this`sqhead, this`pending, sqe, events
    {
      var slot := Slot(sqhead, i);
      Matches(sqe[slot], slot, events[slot], pending[i])
    }

    /** The indices are unsigned 32 bit numbers and wrap. */
    ghost predicate Indices()
      reads this`sqhead, this`sqtail, this`pending
    {
      0 <= sqhead < UINT_RANGE && |pending| <= SLOTS && sqtail == (sqhead + |pending|) % UINT_RANGE
    }

    ghost predicate Ring()
      reads this, sqe, events
    {
      && sqe.Length == events.Length == SLOTS && Indices()
      && forall i :: 0 <= i < |pending| ==> Holds(i)
    }

    ghost predicate Entries()
      reads this`pending, this`kernel
    {
      && Distinct(pending)
      && forall i :: 0 <= i < |pending| && pending[i].op == Mod ==> pending[i].fd in kernel
    }

    /** Every completion has been read and there is room for one more entry. */
    ghost predicate Valid()
      reads this, sqe, events
    {
      Ring() && Entries() && |pending| < SLOTS
    }

    /** The interest list once everything pending has taken effect. */
    ghost function Goal(): Interest
      reads this`kernel, this`pending
    {
      Apply(kernel, pending)
    }

    /** uv__epoll_ctl_prep but for the flush at its end: fills the slot at the tail. */
    method Put(op: Op, fd: int, e: Event)
      requires Ring() && |pending| < SLOTS
      modifies this`sqtail, this`pending, sqe, events
      ensures Ring() && pending == old(pending) + [Entry(op, fd, e)]
    {
      hide UserData, Apply, Exec;
      TailSlot(sqhead, |pending|, sqtail);
      var slot := sqtail % SLOTS;
      NextIndex(sqhead + |pending|);
      sqtail := (sqtail + 1) % UINT_RANGE;
      events[slot] := e;
      sqe[slot] := Sqe(slot, op, fd, UserData(op, slot, fd));
      pending := pending + [Entry(op, fd, e)];
      forall i | 0 <= i < |pending|
        ensures Holds(i)
      {
        assert i < |old(pending)| ==> old(Holds(i));
      }
    }

    /** io_uring_enter: the kernel runs every submitted entry and posts its result. */
    method Enter(n: int)
      requires Ring() && n == |pending| && cq == []
      modifies this`sqhead, this`cq, this`kernel, this`pending
      ensures Ring() && pending == [] && sqhead == sqtail == old(sqtail)
      ensures kernel == Exec(old(kernel), old(pending))
      ensures |cq| == n
      ensures forall i :: 0 <= i < n ==> IsCompletion(cq[i], Slot(old(sqhead), i), old(pending)[i],
                                                      Failures(old(kernel), old(pending))[i])
    {
      ghost var q, k0 := pending, kernel;
      for i := 0 to n
        invariant |cq| == i && sqhead == old(sqhead) && pending == q
        invariant Exec(kernel, q[i..]) == Exec(k0, q) && Failures(kernel, q[i..]) == Failures(k0, q)[i..]
        invariant forall j :: 0 <= j < i ==> IsCompletion(cq[j], Slot(sqhead, j), q[j], Failures(k0, q)[j])
      {
        assert Holds(i);
        ExecNext(kernel, q, i);
        var s := sqe[Slot(sqhead, i)];
        var res := Run(s, events[s.addr]);
        cq := cq + [Cqe(s.userData, res)];
      }
      sqhead := sqtail;
      pending := [];
    }

    /** One EPOLL_CTL submission. */
    method Run(s: Sqe, e: Event) returns (res: int)
      modifies this`kernel
      ensures var entry := Entry(s.op, s.fd, e);
              if Fails(old(kernel), entry) then kernel == old(kernel) && res == if s.op == Add then EEXIST else ENOENT
              else kernel == old(kernel)[s.fd := e] && res == 0
    {
      res := 0;
      if s.op == Add && s.fd in kernel {
        res := EEXIST;
      } else if s.op == Mod && s.fd !in kernel {
        res := ENOENT;
      } else {
        kernel := kernel[s.fd := e];
      }
    }

    ghost predicate OnlyMods()
      reads this`pending
    {
      forall i :: 0 <= i < |pending| ==> pending[i].op == Mod
    }

    /** The descriptors of the pending entries. */
    ghost function Fds(): (s: set<int>)
      reads this`pending
      ensures forall g :: g !in s <==> Absent(g, pending)
    {
      set i | 0 <= i < |pending| :: pending[i].fd
    }

    /** uv__epoll_ctl_prep: one more entry will take effect. */
    method Prep(op: Op, fd: int, e: Event)
      requires Valid() && |pending| + |cq| < SLOTS
      requires Absent(fd, pending) && (op == Mod ==> fd in kernel)
      modifies this, sqe, events
      ensures Valid() && cq == old(cq) && Goal() == old(Goal())[fd := e]
      ensures |pending| <= |old(pending)| + 1 && Fds() <= old(Fds()) + {fd}
      ensures old(kernel).Keys <= kernel.Keys
      ensures old(OnlyMods()) && op == Mod ==> OnlyMods()
      decreases if OnlyMods() && op == Mod then 0 else 1, 1, 0
    {
      hide UserData, Exec;
      ApplyAppend(kernel, pending, [Entry(op, fd, e)]);
      ApplyOne(Apply(kernel, pending), Entry(op, fd, e));
      Put(op, fd, e);
      if sqhead % SLOTS == sqtail % SLOTS {
        Flush();
      }
    }

    /** The completions of the entries q have been read up to the i-th; those of them that failed (f)
        have been prepared again. */
    ghost predicate Completing(q: seq<Entry>, f: seq<bool>, i: int, goal: Interest)
      reads this, sqe, events
    {
      && |f| == |q| <= SLOTS && 0 <= i <= |q| && |cq| == |q| - i
      && Valid() && |pending| <= i && OnlyMods()
      && (forall j :: i <= j < |q| ==> Absent(q[j].fd, pending))
      && (forall j :: i <= j < |q| && f[j] ==> q[j].op == Add && q[j].fd in kernel)
      && Apply(Goal(), Again(q[i..], f[i..])) == goal
    }

    /** The first half of uv__epoll_ctl_flush: the kernel runs everything pending. */
    method Submit() returns (oldevents: seq<Event>)
      requires Ring() && Entries() && pending != [] && cq == []
      modifies this`sqhead, this`cq, this`kernel, this`pending
      ensures |oldevents| == SLOTS && pending == [] && old(kernel).Keys <= kernel.Keys
      ensures Completing(old(pending), old(Failures(kernel, pending)), 0, old(Goal()))
      ensures forall i {:trigger cq[i]} :: 0 <= i < |cq| ==>
                Reports(cq[i], oldevents, old(sqhead), i, old(pending)[i], old(Failures(kernel, pending))[i])
    {
      var n := (sqtail - sqhead) % UINT_RANGE;
      ghost var q, k0 := pending, kernel;
      ghost var f := Failures(k0, q);
      ghost var head := sqhead;
      forall i | 0 <= i < n
        ensures events[Slot(head, i)] == q[i].event
      {
        assert Holds(i);
      }
      Enter(n);
      RetryCompletes(k0, q);
      forall j | 0 <= j < n
        ensures f[j] ==> q[j].op == Add && q[j].fd in kernel
      {
        FailureFacts(k0, q, j);
      }
      oldevents := events[..];
      assert q[0..] == q && f[0..] == f;
      forall i | 0 <= i < n
        ensures Reports(cq[i], oldevents, head, i, q[i], f[i])
      {
        assert q[i].event == events[Slot(head, i)];
      }
    }

    /** uv__epoll_ctl_flush: everything pending takes effect, but for additions of descriptors the
        kernel knew, which are pending again as modifications. */
    method Flush()
      requires Ring() && Entries() && pending != [] && cq == []
      modifies this, sqe, events
      ensures Valid() && cq == [] && Goal() == old(Goal())
      ensures OnlyMods() && (old(OnlyMods()) ==> pending == []) && Fds() <= old(Fds())
      ensures old(kernel).Keys <= kernel.Keys
      decreases if OnlyMods() then 0 else 1, 0, 1
    {
      ghost var q, f, head, i := pending, Failures(kernel, pending), sqhead, 0;
      var oldevents := Submit();
      ghost var full := cq;
      while cq != []
        invariant Completing(q, f, i, old(Goal())) && cq == full[i..]
        invariant old(OnlyMods()) ==> pending == []
        invariant old(kernel).Keys <= kernel.Keys && Fds() <= old(Fds())
        decreases |cq|
      {
        Reap(oldevents, q, f, i, head, old(Goal()));
        i := i + 1;
      }
    }

    /** One turn of the loop over the completions. */
    method Reap(oldevents: seq<Event>, ghost q: seq<Entry>, ghost f: seq<bool>, ghost i: int, ghost head: int,
                ghost goal: Interest)
      requires Completing(q, f, i, goal) && cq != [] && |oldevents| == SLOTS && Distinct(q)
      requires Reports(cq[0], oldevents, head, i, q[i], f[i])
      modifies this, sqe, events
      ensures Completing(q, f, i + 1, goal) && cq == old(cq)[1..]
      ensures (!f[i] ==> pending == old(pending)) && Fds() <= old(Fds()) + {q[i].fd}
      ensures old(kernel).Keys <= kernel.Keys
      decreases 0, if f[i] then 2 else 0, 0
    {
      AgainNext(q, f, i);
      var c := cq[0];
      cq := cq[1..];
      if c.res == 0 {
        return;
      }
      UserDataRoundTrip(q[i].op, Slot(head, i), q[i].fd);
      var fd := c.userData / UINT_RANGE;
      var op := c.userData % 4;
      var oldslot := c.userData / 4 % SLOTS;
      assert op == EPOLL_CTL_ADD && c.res == EEXIST;
      Prep(Mod, fd, oldevents[oldslot]);
    }
  }

  /** The i-th entry of the retries. */
  lemma AgainNext(q: seq<Entry>, f: seq<bool>, i: int)
    requires |f| == |q| && 0 <= i < |q|
    ensures var rest := Again(q[i + 1..], f[i + 1..]);
            && (!f[i] ==> Again(q[i..], f[i..]) == rest)
            && (f[i] ==> forall k: Interest {:trigger Apply(k, Again(q[i..], f[i..]))} ::
                  Apply(k, Again(q[i..], f[i..])) == Apply(k[q[i].fd := q[i].event], rest))
  {}

  /** A completion, and the event of its entry in the copy made before its slot is used again. */
  predicate Reports(c: Cqe, oldevents: seq<Event>, head: int, i: int, e: Entry, failed: bool)
    requires |oldevents| == SLOTS
  {
    IsCompletion(c, Slot(head, i), e, failed) && oldevents[Slot(head, i)] == e.event
  }

  /** Which entries fail: additions of known descriptors, and no modification of one. */
  lemma {:induction false} FailureFacts(k: Interest, q: seq<Entry>, i: nat)
    requires i < |q|
    ensures Failures(k, q)[i] && q[i].op == Add ==> q[i].fd in Exec(k, q)
    ensures q[i].op == Mod && q[i].fd in k ==> !Failures(k, q)[i]
    decreases |q|
  {
    if i > 0 {
      FailureFacts(if Fails(k, q[0]) then k else k[q[0].fd := q[0].event], q[1..], i - 1);
    }
  }

  predicate IsCompletion(c: Cqe, slot: int, e: Entry, failed: bool) {
    && c.userData == UserData(e.op, slot, e.fd)
    && c.res == if !failed then 0 else if e.op == Add then EEXIST else ENOENT
  }

  // ----- the registration phase of uv__io_poll

  /** The event a watcher asks for; only the async watcher is edge triggered. */
  function Asked(w: Watcher, async: Watcher?): Event
    reads w`pevents
  {
    Event(w.pevents, w == async, w.fd)
  }

  /** The interest list once every watcher of q got what it asks for. */
  function Asking(k: Interest, q: seq<Watcher>, async: Watcher?): Interest
    reads q`pevents
    decreases |q|
  {
    if q == [] then k else Asking(k[q[0].fd := Asked(q[0], async)], q[1..], async)
  }

  lemma {:induction false} AskingFacts(k: Interest, q: seq<Watcher>, async: Watcher?)
    requires forall i, j :: 0 <= i < j < |q| ==> q[i].fd != q[j].fd
    ensures forall i :: 0 <= i < |q| ==>
              q[i].fd in Asking(k, q, async) && Asking(k, q, async)[q[i].fd] == Asked(q[i], async)
    ensures forall fd :: (forall i :: 0 <= i < |q| ==> q[i].fd != fd) ==>
              (fd in Asking(k, q, async) <==> fd in k)
              && (fd in k ==> Asking(k, q, async)[fd] == k[fd])
    decreases |q|
  {
    if q != [] {
      var k' := k[q[0].fd := Asked(q[0], async)];
      AskingFacts(k', q[1..], async);
      forall fd | forall i :: 0 <= i < |q| ==> q[i].fd != fd
        ensures (fd in Asking(k, q, async) <==> fd in k) && (fd in k ==> Asking(k, q, async)[fd] == k[fd])
      {
        assert fd != q[0].fd && forall i :: 0 <= i < |q[1..]| ==> q[1..][i].fd != fd;
      }
      assert q[0].fd in k' && forall i :: 0 <= i < |q[1..]| ==> q[1..][i].fd != q[0].fd;
    }
  }

  /** In the middle of the registration: what is pending belongs to watchers no longer queued. */
  ghost predicate Registering(loop: IoLoop, ctl: Ctl)
    reads loop, loop.known, ctl, ctl.sqe, ctl.events
  {
    && loop.Valid() && loop.Exclusive() && ctl.Valid() && ctl.cq == [] && (!ctl.ring ==> ctl.pending == [])
    && (forall w :: w in loop.queue ==> w.fd !in ctl.Fds())
    && (forall w :: w in loop.known && w.events != {} ==> w.fd in ctl.Goal())
  }

  /** Takes the head of the watcher queue, which counts as registered from now on. */
  method Take(loop: IoLoop) returns (w: Watcher, op: Op)
    requires loop.Valid() && loop.Exclusive() && loop.queue != []
    modifies loop`queue, loop.known`events
    ensures loop.Valid() && loop.Exclusive() && [w] + loop.queue == old(loop.queue) && w in loop.known && w.pevents != {}
    ensures op == if old(w.events) == {} then Add else Mod
    ensures forall v :: v in loop.known ==> v.events == if v == w then w.pevents else old(v.events)
    ensures forall v :: v in loop.queue ==> v.fd != w.fd
  {
    w := loop.queue[0];
    assert loop.WatcherOk(w);
    assert loop.queue == [w] + loop.queue[1..];
    assert forall v :: v in loop.queue[1..] ==> v != w && loop.WatcherOk(v);
    loop.queue := loop.queue[1..];
    op := if w.events == {} then Add else Mod;
    w.events := w.pevents;
    label Taken:
    forall i | 0 <= i < |loop.watchers|
      ensures loop.SlotOk(i)
    {
      assert old(loop.SlotOk(i));
    }
    forall v | v in loop.known
      ensures loop.WatcherOk(v)
    {
      assert old(loop.WatcherOk(v));
    }
  }

  /** Through the ring, or at once when there is none. */
  method Tell(ctl: Ctl, op: Op, fd: int, e: Event)
    requires ctl.Valid() && ctl.cq == [] && (!ctl.ring ==> ctl.pending == [])
    requires fd !in ctl.Fds() && (op == Mod ==> fd in ctl.kernel)
    modifies ctl, ctl.sqe, ctl.events
    ensures ctl.Valid() && ctl.cq == [] && (!ctl.ring ==> ctl.pending == [])
    ensures ctl.Goal() == old(ctl.Goal())[fd := e] && ctl.Fds() <= old(ctl.Fds()) + {fd}
  {
    if ctl.ring {
      ctl.Prep(op, fd, e);
      return;
    }
    var res := ctl.Run(Sqe(0, op, fd, 0), e);
    if res != 0 {
      assert op == Add && res == EEXIST;
      res := ctl.Run(Sqe(0, Mod, fd, 0), e);
      assert res == 0;
    }
  }

  /** One turn of the registration loop. */
  method RegisterOne(loop: IoLoop, ctl: Ctl, async: Watcher?)
    requires Registering(loop, ctl) && loop.queue != []
    modifies loop`queue, loop.known`events, ctl, ctl.sqe, ctl.events
    ensures Registering(loop, ctl) && loop.queue == old(loop.queue)[1..]
    ensures Asking(ctl.Goal(), loop.queue, async) == old(Asking(ctl.Goal(), loop.queue, async))
    ensures forall w :: w in loop.known ==>
              w.events == if w == old(loop.queue)[0] then w.pevents else old(w.events)
  {
    hide loop.Valid, ctl.Valid, loop.Exclusive;
    ghost var first := loop.queue[0];
    ApplyKeys(ctl.kernel, ctl.pending, first.fd);
    var w, op := Take(loop);
    assert w == first;
    Tell(ctl, op, w.fd, Asked(w, async));
    assert old(loop.queue)[1..] == loop.queue;
  }

  /** The loop before epoll_pwait: flushes until nothing is pending. */
  method Settle(ctl: Ctl)
    requires ctl.Valid() && ctl.cq == []
    modifies ctl, ctl.sqe, ctl.events
    ensures ctl.Valid() && ctl.cq == [] && ctl.pending == [] && ctl.kernel == old(ctl.Goal())
  {
    while ctl.sqhead != ctl.sqtail
      invariant ctl.Valid() && ctl.cq == [] && ctl.Goal() == old(ctl.Goal())
      decreases if ctl.OnlyMods() then 0 else 1, |ctl.pending|
    {
      ctl.Flush();
    }
  }

  /** A watcher that believes to be registered is known to the kernel. */
  ghost predicate Backed(loop: IoLoop, ctl: Ctl)
    reads loop`known, loop.known`events, ctl`kernel
  {
    forall w :: w in loop.known && w.events != {} ==> w.fd in ctl.kernel
  }

  /** The registration loop and the flushes: every queued watcher is registered. */
  method RegisterAll(loop: IoLoop, ctl: Ctl, async: Watcher?)
    requires loop.Valid() && loop.Exclusive() && ctl.Valid() && ctl.pending == [] && ctl.cq == []
    requires Backed(loop, ctl)
    modifies loop`queue, loop.known`events, ctl, ctl.sqe, ctl.events
    ensures loop.Valid() && loop.Exclusive() && loop.queue == []
    ensures ctl.Valid() && ctl.pending == [] && ctl.cq == []
    ensures ctl.kernel == old(Asking(ctl.kernel, loop.queue, async))
    ensures forall w :: w in loop.known ==>
              w.events == if w in old(loop.queue) then w.pevents else old(w.events)
  {
    hide ctl.Valid;
    ghost var q, want := loop.queue, Asking(ctl.kernel, loop.queue, async);
    while loop.queue != []
      invariant Registering(loop, ctl) && forall w :: w in loop.queue ==> w in q
      invariant Asking(ctl.Goal(), loop.queue, async) == want
      invariant forall w :: w in loop.known ==>
                  w.events == if w in q && w !in loop.queue then w.pevents else old(w.events)
      decreases |loop.queue|
    {
      ghost var rest := loop.queue;
      assert rest == [rest[0]] + rest[1..];
      RegisterOne(loop, ctl, async);
    }
    Settle(ctl);
  }

  /** The kernel's interest in a watcher's descriptor is the mask the watcher believes in. */
  ghost predicate TrackedAt(w: Watcher, kernel: Interest, async: Watcher?)
    reads w
  {
    w.events != {} ==> w.fd in kernel && kernel[w.fd] == Event(w.events, w == async, w.fd)
  }

  ghost predicate Tracked(loop: IoLoop, ctl: Ctl, async: Watcher?)
    reads loop, loop.known, ctl
  {
    forall w :: w in loop.known ==> TrackedAt(w, ctl.kernel, async)
  }

  /** The slots have never been fewer than what the kernel knows. */
  ghost predicate Bounded(loop: IoLoop, ctl: Ctl)
    reads loop`watchers, ctl`kernel
  {
    forall fd :: fd in ctl.kernel ==> 0 <= fd < |loop.watchers|
  }

  ghost predicate Untouched(fd: int, before: Interest, after: Interest) {
    (fd in after <==> fd in before) && (fd in after ==> after[fd] == before[fd])
  }

  /** The same, descriptor by descriptor. */
  method RegisterEach(loop: IoLoop, ctl: Ctl, async: Watcher?)
    requires loop.Valid() && loop.Exclusive() && ctl.Valid() && ctl.pending == [] && ctl.cq == [] && Backed(loop, ctl)
    requires forall i, j :: 0 <= i < j < |loop.queue| ==> loop.queue[i].fd != loop.queue[j].fd
    modifies loop`queue, loop.known`events, ctl, ctl.sqe, ctl.events
    ensures loop.Valid() && loop.Exclusive() && loop.queue == []
    ensures ctl.Valid() && ctl.pending == [] && ctl.cq == []
    ensures forall w :: w in loop.known ==>
              w.events == if w in old(loop.queue) then w.pevents else old(w.events)
    ensures forall w :: w in old(loop.queue) ==> w.fd in ctl.kernel && ctl.kernel[w.fd] == Asked(w, async)
    ensures forall fd {:trigger Untouched(fd, old(ctl.kernel), ctl.kernel)} ::
              (forall w :: w in old(loop.queue) ==> w.fd != fd) ==> Untouched(fd, old(ctl.kernel), ctl.kernel)
  {
    hide ctl.Valid, loop.Valid, loop.Exclusive;
    ghost var q := loop.queue;
    AskingFacts(ctl.kernel, q, async);
    RegisterAll(loop, ctl, async);
    forall w | w in q
      ensures w.fd in ctl.kernel && ctl.kernel[w.fd] == Asked(w, async)
    {
      var i :| 0 <= i < |q| && q[i] == w;
    }
  }

  /** Before the loop polls, the kernel's interest in the descriptor of every watcher that wants
      anything is exactly what it wants: whether the descriptor was new, known, or left over in the
      kernel, and however the ring indices wrap.  Other descriptors are untouched. */
  method Register(loop: IoLoop, ctl: Ctl, async: Watcher?)
    requires loop.Valid() && loop.Exclusive() && ctl.Valid() && ctl.pending == [] && ctl.cq == []
    requires Tracked(loop, ctl, async)
    modifies loop`queue, loop.known`events, ctl, ctl.sqe, ctl.events
    ensures loop.Valid() && loop.Exclusive() && loop.queue == [] && Tracked(loop, ctl, async)
    ensures ctl.Valid() && ctl.pending == [] && ctl.cq == []
    ensures forall w :: w in loop.known && w.pevents != {} ==>
              w.fd in ctl.kernel && ctl.kernel[w.fd] == Asked(w, async)
    ensures forall fd {:trigger Untouched(fd, old(ctl.kernel), ctl.kernel)} ::
              (forall w :: w in old(loop.queue) ==> w.fd != fd) ==> Untouched(fd, old(ctl.kernel), ctl.kernel)
    ensures old(Bounded(loop, ctl)) ==> Bounded(loop, ctl)
  {
    hide ctl.Valid;
    ghost var q := loop.queue;
    forall v | v in q
      ensures v in loop.known && 0 <= v.fd < |loop.watchers| && loop.watchers[v.fd] == v
    {
      assert loop.WatcherOk(v);
    }
    assert Backed(loop, ctl) by {
      assert forall w :: w in loop.known && w.events != {} ==> TrackedAt(w, ctl.kernel, async);
    }
    RegisterEach(loop, ctl, async);
    forall w | w in loop.known
      ensures TrackedAt(w, ctl.kernel, async) && (w.pevents != {} ==> w.events == w.pevents)
    {
      assert loop.WatcherOk(w) && old(TrackedAt(w, ctl.kernel, async));
      assert w !in q ==> Untouched(w.fd, old(ctl.kernel), ctl.kernel) || w.pevents == {};
    }
    assert forall w :: w in loop.known ==> TrackedAt(w, ctl.kernel, async);
    assert forall fd :: fd in ctl.kernel ==> Untouched(fd, old(ctl.kernel), ctl.kernel) || 0 <= fd < |loop.watchers|;
  }

  /** uv__io_close: the watcher is stopped and its descriptor taken out of the kernel at once. */
  method Close(loop: IoLoop, ctl: Ctl, async: Watcher?, w: Watcher)
    requires loop.Valid() && ctl.Valid() && ctl.pending == [] && ctl.cq == [] && Tracked(loop, ctl, async)
    requires w in loop.known && w.fd >= -1
    requires forall v :: v in loop.known && v != w && v.fd == w.fd ==> v.pevents == {}
    modifies loop`watchers, loop`nfds, loop`queue, w`pevents, w`events, ctl`kernel
    ensures loop.Valid() && (old(loop.Exclusive()) ==> loop.Exclusive()) && ctl.Valid() && Tracked(loop, ctl, async)
    ensures w.pevents == {} == w.events && w !in loop.queue && w.fd !in ctl.kernel
    ensures ctl.kernel == old(ctl.kernel) - {w.fd} && (old(Bounded(loop, ctl)) ==> Bounded(loop, ctl))
    ensures |loop.watchers| == old(|loop.watchers|)
  {
    loop.Stop(w, {In, Pri, Out, RdHup});
    forall f | f in w.pevents
      ensures false
    {
      match f
      case In =>
      case Pri =>
      case Out =>
      case RdHup =>
    }
    assert w.pevents == {} && loop.WatcherOk(w);
    ctl.kernel := ctl.kernel - {w.fd};
    forall v | v in loop.known
      ensures TrackedAt(v, ctl.kernel, async)
    {
      assert loop.WatcherOk(v) && old(TrackedAt(v, ctl.kernel, async));
    }
  }
}
