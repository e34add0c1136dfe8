/** The command queue of the Swift side, seen by the loop thread alone: UVFIFOQueue.swift and the
    draining loop of UVJobs.swift.  Async gives the interleavings with other threads. */
module Jobs {
  import opened Basics

  /** The commands that need a delegate, and those that do not. */
  datatype Command = Blocking(task: nat) | Stop | TimeNow(callback: nat) | Schedule(task: nat) | Tcp(request: nat)

  class FifoQueue<T> {
    var items: seq<T>
    ghost var enqueued: seq<T>   // everything ever put in and taken out, in order
    ghost var dequeued: seq<T>

    /** What was put in first comes out first. */
    ghost predicate Valid()
      reads this
    {
      enqueued == dequeued + items
    }

    constructor ()
      ensures Valid() && items == enqueued == dequeued == []
    {
      items, enqueued, dequeued := [], [], [];
    }

    method Enqueue(element: T)
      requires Valid()
      modifies this
      ensures Valid() && enqueued == old(enqueued) + [element] && dequeued == old(dequeued)
      ensures items == old(items) + [element]
    {
      items := items + [element];
      enqueued := enqueued + [element];
    }

    /** The k-th element taken out is the k-th that was put in; there is none exactly when all are out. */
    method Dequeue() returns (r: Option<T>)
      requires Valid()
      modifies this
      ensures Valid() && enqueued == old(enqueued)
      ensures old(items) == (match r case None => [] case Some(x) => [x] + items) && (r.None? ==> items == [])
      ensures match r
              case None => dequeued == old(dequeued) == enqueued
              case Some(x) =>
                |old(dequeued)| < |enqueued| && x == enqueued[|old(dequeued)|] && dequeued == old(dequeued) + [x]
    {
      if items == [] {
        r := None;
      } else {
        r := Some(items[0]);
        dequeued := dequeued + [items[0]];
        items := items[1..];
      }
    }
  }

  /** What the work of a performed command does to the queue and the delegates; or it fails an assertion. */
  datatype Effect = Effect(adds: seq<Command>, timers: bool, tcp: bool) | Fails

  /** A command whose delegate has not been set is dropped.  The failure of an assertion ends the program. */
  datatype Outcome = Dropped | Done | Failed

  /** A command taken from the queue, the delegates set at that moment, and what came of it. */
  datatype Handled = Handled(command: Command, timers: bool, tcp: bool, outcome: Outcome)

  /** The queue, the delegates that are set, whether the handle of the loop is closing, and what the commands
      performed from here on do. */
  datatype State = State(queue: seq<Command>, timers: bool, tcp: bool, closing: bool, script: seq<Effect>)

  predicate Lacks(c: Command, timers: bool, tcp: bool) {
    (c.Schedule? && !timers) || (c.Tcp? && !tcp)
  }

  /** A Stop closes the handle, and a handle that is closing cannot be closed. */
  function OutcomeOf(c: Command, s: State): Outcome {
    if Lacks(c, s.timers, s.tcp) then Dropped
    else if (c.Stop? && s.closing) || (s.script != [] && s.script[0].Fails?) then Failed
    else Done
  }

  function Handle(c: Command, s: State): Handled {
    Handled(c, s.timers, s.tcp, OutcomeOf(c, s))
  }

  /** The state after the command c, which has left the queue. */
  function Next(c: Command, s: State): (r: State)
    ensures |r.script| < |s.script| || (r.script == s.script && r.queue == s.queue)
  {
    if OutcomeOf(c, s) != Done then s
    else if s.script == [] then s.(closing := s.closing || c.Stop?)
    else
      var e := s.script[0];
      State(s.queue + e.adds, s.timers || e.timers, s.tcp || e.tcp, s.closing || c.Stop?, s.script[1..])
  }

  /** The state once the first command has left the queue. */
  function Taken(s: State): State
    requires s.queue != []
  {
    s.(queue := s.queue[1..])
  }

  /** What becomes of the commands of the queue and of those added meanwhile. */
  function Drain(s: State): seq<Handled>
    decreases |s.script|, |s.queue|
  {
    if s.queue == [] then []
    else
      var h := Handle(s.queue[0], Taken(s));
      if h.outcome == Failed then [h] else [h] + Drain(Next(s.queue[0], Taken(s)))
  }

  /** The state in which that ends. */
  function Final(s: State): State
    decreases |s.script|, |s.queue|
  {
    if s.queue == [] then s
    else
      var n := Next(s.queue[0], Taken(s));
      if OutcomeOf(s.queue[0], Taken(s)) == Failed then n else Final(n)
  }

  predicate Breaks(log: seq<Handled>) {
    log != [] && log[|log| - 1].outcome == Failed
  }

  function Commands(log: seq<Handled>): (q: seq<Command>)
    ensures |q| == |log|
  {
    seq(|log|, i requires 0 <= i < |log| => log[i].command)
  }

  function Stops(q: seq<Command>): nat {
    if q == [] then 0 else (if q[0].Stop? then 1 else 0) + Stops(q[1..])
  }

  lemma CommandsSnoc(log: seq<Handled>, h: Handled)
    ensures Commands([]) == [] && Commands(log + [h]) == Commands(log) + [h.command]
  {}

  lemma CommandsCons(h: Handled, log: seq<Handled>)
    ensures Commands([h] + log) == [h.command] + Commands(log)
    ensures Stops(Commands([h] + log)) == (if h.command.Stop? then 1 else 0) + Stops(Commands(log))
    ensures log != [] ==> (Breaks([h] + log) <==> Breaks(log))
  {
    assert Commands([h] + log)[1..] == Commands(log);
  }

  lemma CommandsOne(h: Handled)
    ensures Commands([h]) == [h.command] && Stops(Commands([h])) == if h.command.Stop? then 1 else 0
  {
    assert Commands([h])[1..] == [];
  }

  /** The commands of the queue are taken out first and in order, unless the drain ends before; what was not
      taken out is left, in order. */
  lemma {:induction false} DrainTakesAll(s: State)
    ensures s.queue <= Commands(Drain(s)) + Final(s).queue
    ensures !Breaks(Drain(s)) ==> Final(s).queue == [] && s.queue <= Commands(Drain(s))
    decreases |s.script|, |s.queue|
  {
    hide OutcomeOf;
    if s.queue != [] {
      var h := Handle(s.queue[0], Taken(s));
      if h.outcome == Failed {
        CommandsOne(h);
        assert s.queue == [s.queue[0]] + s.queue[1..];
      } else {
        var n := Next(s.queue[0], Taken(s));
        DrainTakesAll(n);
        CommandsCons(h, Drain(n));
        assert s.queue[1..] <= n.queue;
        PrefixBehind(s.queue, n.queue, Commands(Drain(n)) + Final(n).queue);
        Associative([s.queue[0]], Commands(Drain(n)), Final(n).queue);
      }
    }
  }

  lemma PrefixBehind(q: seq<Command>, rest: seq<Command>, all: seq<Command>)
    requires q != [] && q[1..] <= rest <= all
    ensures q <= [q[0]] + all
  {
    assert all[..|q| - 1] == rest[..|q| - 1] == q[1..];
  }

  lemma FailsWhy(c: Command, s: State)
    requires OutcomeOf(c, s) == Failed && Fails !in s.script
    ensures c.Stop? && s.closing
  {}

  lemma ClosingKept(c: Command, s: State)
    requires OutcomeOf(c, s) != Failed
    ensures Next(c, s).closing == (s.closing || c.Stop?) && (s.closing ==> !c.Stop?)
    ensures Fails !in s.script ==> Fails !in Next(c, s).script
  {}

  /** The drain ends early exactly at the second Stop, the one that closed the handle before the drain counted,
      unless the work of another command fails an assertion itself. */
  lemma {:induction false} SecondStopFails(s: State)
    ensures var stops := (if s.closing then 1 else 0) + Stops(Commands(Drain(s)));
            && (stops > 1 ==> Breaks(Drain(s)) && Drain(s)[|Drain(s)| - 1].command.Stop?)
            && (Breaks(Drain(s)) && Fails !in s.script ==> stops > 1)
    decreases |s.script|, |s.queue|
  {
    hide OutcomeOf, Next, Commands;
    if s.queue != [] {
      var h := Handle(s.queue[0], Taken(s));
      if h.outcome == Failed {
        CommandsOne(h);
        if Fails !in s.script {
          FailsWhy(s.queue[0], Taken(s));
        }
      } else {
        var n := Next(s.queue[0], Taken(s));
        SecondStopFails(n);
        CommandsCons(h, Drain(n));
        ClosingKept(s.queue[0], Taken(s));
      }
    }
  }

  /** Two stop commands in the queue: the drain ends at the second, and what is behind it is not taken out. */
  lemma TwoStops(c: Command, timers: bool, tcp: bool)
    ensures var s := State([Stop, Stop, c], timers, tcp, false, []);
            && Drain(s) == [Handled(Stop, timers, tcp, Done), Handled(Stop, timers, tcp, Failed)]
            && Final(s).queue == [c]
  {
    var s := State([Stop, Stop, c], timers, tcp, false, []);
    var n := Next(Stop, Taken(s));
    assert n.queue == [Stop, c] && Taken(n).queue == [c];
    assert Drain(n) == [Handle(Stop, Taken(n))];
  }

  /** Scheduling commands need the timers and TCP commands the TCP manager, and no other is dropped.  A delegate
      that is set stays set, so no command behind it is dropped for lack of it; only the last command fails. */
  lemma {:induction false} DelegatesStay(s: State, k: nat)
    requires k < |Drain(s)|
    ensures var h := Drain(s)[k];
            && (s.timers ==> h.timers) && (s.tcp ==> h.tcp)
            && (h.outcome == Dropped <==> (h.command.Schedule? && !h.timers) || (h.command.Tcp? && !h.tcp))
            && (s.timers && s.tcp ==> h.outcome != Dropped)
            && (h.outcome == Failed ==> k == |Drain(s)| - 1)
    decreases |s.script|, |s.queue|
  {
    if k > 0 {
      DelegatesStay(Next(s.queue[0], Taken(s)), k - 1);
    }
  }

  class UVJobs {
    const tasks: FifoQueue<Command>
    var timers: bool
    var tcp: bool
    var closing: bool   // of req, the handle that wakes the loop
    var log: seq<Handled>

    constructor ()
      ensures fresh(tasks) && tasks.Valid() && tasks.items == [] && !timers && !tcp && !closing && log == []
    {
      tasks := new FifoQueue();
      timers, tcp, closing, log := false, false, false, [];
    }

    ghost function Now(script: seq<Effect>): State
      reads this, tasks
    {
      State(tasks.items, timers, tcp, closing, script)
    }

    /** Drains the queue, for everything the commands may do.  If no assertion fails it is empty afterwards, and
        every command that was in it or was added meanwhile, one behind a Stop included, has been taken out once
        and in order, and performed exactly if its delegate was set by then.  Otherwise those up to the failing
        one have, and the others are still in the queue. */
    method HandleJobs(script: seq<Effect>) returns (ok: bool)
      requires tasks.Valid()
      modifies this, tasks
      ensures tasks.Valid() && old(tasks.enqueued) <= tasks.enqueued && (ok ==> tasks.items == [])
      ensures var s := old(Now(script));
              && log == old(log) + Drain(s) && tasks.dequeued == old(tasks.dequeued) + Commands(Drain(s))
              && Now(Final(s).script) == Final(s) && (ok <==> !Breaks(Drain(s)))
      ensures Fails !in script ==>
                (ok <==> (if old(closing) then 1 else 0) + Stops(Commands(Drain(old(Now(script))))) <= 1)
    {
      hide OutcomeOf, Next, Commands, Stops;
      ghost var s, gained := Now(script), [];
      assert Commands([]) == [] by { CommandsSnoc([], Handle(Stop, s)); }
      var rest, more := script, true;
      ok := true;
      while more
        invariant tasks.Valid() && old(tasks.enqueued) <= tasks.enqueued && (!more && ok ==> tasks.items == [])
        invariant log == old(log) + gained && tasks.dequeued == old(tasks.dequeued) + Commands(gained)
        invariant more ==> ok
        invariant if ok then gained + Drain(Now(rest)) == Drain(s) && Final(Now(rest)) == Final(s)
                  else gained == Drain(s) && Now(rest) == Final(s) && Breaks(gained)
        invariant !Breaks(gained) || !ok
        decreases |rest|, |tasks.items|, more
      {
        ghost var before := Now(rest);
        more, ok, rest := Turn(rest);
        if before.queue != [] {
          ghost var h := Handle(before.queue[0], Taken(before));
          Associative(gained, [h], Drain(Now(rest)));
          CommandsSnoc(gained, h);
          gained := gained + [h];
        }
      }
      assert gained + [] == gained;
      SecondStopFails(s);
    }

    /** One turn of the loop; more is false if the queue is empty, and ok if an assertion fails. */
    method Turn(script: seq<Effect>) returns (more: bool, ok: bool, rest: seq<Effect>)
      requires tasks.Valid()
      modifies this, tasks
      ensures tasks.Valid() && old(tasks.enqueued) <= tasks.enqueued
      ensures old(tasks.items) == [] ==>
                !more && ok && log == old(log) && tasks.dequeued == old(tasks.dequeued) && Now(rest) == old(Now(script))
      ensures old(tasks.items) != [] ==>
                var s, c := old(Now(script)), old(tasks.items)[0];
                && log == old(log) + [Handle(c, Taken(s))] && tasks.dequeued == old(tasks.dequeued) + [c]
                && Now(rest) == Next(c, Taken(s)) && more == ok == (OutcomeOf(c, Taken(s)) != Failed)
    {
      rest := script;
      var task := tasks.Dequeue();
      if task == None {
        return false, true, rest;
      }
      ok, rest := Perform(task.value, rest);
      more := ok;
    }

    /** One command of the switch. */
    method Perform(command: Command, script: seq<Effect>) returns (ok: bool, rest: seq<Effect>)
      requires tasks.Valid()
      modifies this, tasks
      ensures tasks.Valid() && old(tasks.enqueued) <= tasks.enqueued && tasks.dequeued == old(tasks.dequeued)
      ensures log == old(log) + [Handle(command, old(Now(script)))]
      ensures Now(rest) == Next(command, old(Now(script))) && ok == (OutcomeOf(command, old(Now(script))) != Failed)
    {
      rest := script;
      if (command.Schedule? && !timers) || (command.Tcp? && !tcp) {
        log := log + [Handled(command, timers, tcp, Dropped)];
        return true, rest;
      }
      if (command.Stop? && closing) || (rest != [] && rest[0].Fails?) {
        log := log + [Handled(command, timers, tcp, Failed)];
        return false, rest;
      }
      log := log + [Handled(command, timers, tcp, Done)];
      if command.Stop? {
        closing := true;
      }
      if rest != [] {
        Act(rest[0]);
        rest := rest[1..];
      }
      ok := true;
    }

    /** A performed command adds commands and sets delegates, which are never taken away. */
    method Act(e: Effect)
      requires tasks.Valid() && e.Effect?
      modifies this`timers, this`tcp, tasks
      ensures tasks.Valid() && tasks.items == old(tasks.items) + e.adds && tasks.dequeued == old(tasks.dequeued)
      ensures tasks.enqueued == old(tasks.enqueued) + e.adds
      ensures timers == (old(timers) || e.timers) && tcp == (old(tcp) || e.tcp)
    {
      for k := 0 to |e.adds|
        invariant tasks.Valid() && tasks.dequeued == old(tasks.dequeued) && timers == old(timers) && tcp == old(tcp)
        invariant tasks.enqueued == old(tasks.enqueued) + e.adds[..k]
        invariant tasks.items == old(tasks.items) + e.adds[..k]
      {
        tasks.Enqueue(e.adds[k]);
      }
      if e.timers {
        timers := true;
      }
      if e.tcp {
        tcp := true;
      }
    }
  }
}
