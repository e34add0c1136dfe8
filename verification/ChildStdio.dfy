/** The descriptor setup of uv__process_child_init in src/unix/process.c: every slot of the child gets the
    file its source named at entry, as if all slots were assigned at once.  System calls succeed. */
module ChildStdio {

  type File = nat

  /** An entry of the descriptor table. */
  datatype Desc = Desc(file: File, cloexec: bool)

  type Table = map<int, Desc>

  const DEV_NULL: File := 0

  ghost function Largest(s: set<int>): (m: int)
    ensures forall x :: x in s ==> x <= m
  {
    if exists x :: x in s then
      var x :| x in s;
      var m := Largest(s - {x});
      assert forall y :: y in s ==> y == x || y in s - {x};
      if x > m then x else m
    else 0
  }

  class Process {
    var table: Table

    /** fcntl(fd, F_DUPFD_CLOEXEC, min) */
    method DupFrom(fd: int, min: nat) returns (r: int)
      requires fd in table
      modifies this
      ensures r >= min && r !in old(table) && table == old(table)[r := Desc(old(table)[fd].file, true)]
    {
      ghost var last := Largest(table.Keys);
      r := min;
      while r in table
        invariant r >= min && (r > last ==> r !in table)
        decreases last - r
      {
        r := r + 1;
      }
      table := table[r := Desc(table[fd].file, true)];
    }

    /** open: the lowest descriptor that is free. */
    method Open(file: File, ghost free: nat) returns (r: int)
      requires free !in table && forall k :: 0 <= k < free ==> k in table
      modifies this
      ensures r == free && table == old(table)[r := Desc(file, false)]
    {
      r := 0;
      while r in table
        invariant 0 <= r <= free
        decreases free - r
      {
        r := r + 1;
      }
      table := table[r := Desc(file, false)];
    }

    method Dup2(from: int, to: int)
      requires from in table && from != to
      modifies this
      ensures table == old(table)[to := Desc(old(table)[from].file, false)]
    {
      table := table[to := Desc(table[from].file, false)];
    }

    method ClearCloexec(fd: int)
      requires fd in table
      modifies this
      ensures table == old(table)[fd := Desc(old(table)[fd].file, false)]
    {
      table := table[fd := table[fd].(cloexec := false)];
    }

    method Close(fd: int)
      modifies this
      ensures table == old(table) - {fd}
    {
      table := table - {fd};
    }

    /** Slot fd after the move, in terms of the table t and the sources at entry. */
    static ghost predicate Placed(t: Table, sources: seq<int>, after: Table, fd: int)
      requires 0 <= fd < |sources|
    {
      if sources[fd] >= 0 then
        sources[fd] in t && fd in after && after[fd] == Desc(t[sources[fd]].file, false)
      else if fd < 3 then fd in after && after[fd] == Desc(DEV_NULL, false)
      else Same(t, after, fd)
    }

    static ghost predicate Same(t: Table, after: Table, fd: int) {
      (fd in t <==> fd in after) && (fd in t ==> after[fd] == t[fd])
    }

    /** The source of slot j can still be read from pipe p: it names the same file, and it is not a slot
        before j. */
    static ghost predicate Ready(t: Table, sources: seq<int>, now: Table, p: int, j: int)
      requires 0 <= j < |sources|
    {
      if sources[j] < 0 then p < 0
      else p >= j && sources[j] in t && p in now && now[p].file == t[sources[j]].file
    }

    /** The first loop: sources below their slot are duplicated above all slots. */
    method Duplicate(pipes: array<int>)
      requires forall j :: 0 <= j < pipes.Length && pipes[j] >= 0 ==> pipes[j] in table
      modifies this, pipes
      ensures forall j :: 0 <= j < pipes.Length ==> Ready(old(table), old(pipes[..]), table, pipes[j], j)
      ensures forall fd :: fd in old(table) ==> Same(old(table), table, fd)
      ensures forall fd :: fd < pipes.Length ==> Same(old(table), table, fd)
    {
      ghost var t, sources := table, pipes[..];
      for fd := 0 to pipes.Length
        invariant forall j :: 0 <= j < fd ==> Ready(t, sources, table, pipes[j], j)
        invariant forall j :: fd <= j < pipes.Length ==> pipes[j] == sources[j]
        invariant forall k :: k in t || k < pipes.Length ==> Same(t, table, k)
      {
        var use := pipes[fd];
        if use < 0 || use >= fd {
          continue;
        }
        pipes[fd] := DupFrom(use, pipes.Length);
      }
    }

    /** One turn of the second loop. */
    method Place(use: int, fd: nat, count: nat, ghost t: Table, ghost sources: seq<int>)
      requires fd < count == |sources| && Ready(t, sources, table, use, fd)
      requires fd < 3 ==> forall k :: 0 <= k < fd ==> k in table
      requires Same(t, table, fd)
      modifies this
      ensures Placed(t, sources, table, fd)
      ensures forall k :: k != fd ==> Same(old(table), table, k)
    {
      var source, closing := use, -1;
      if use < 0 {
        if fd >= 3 {
          return;
        }
        Close(fd);
        source := Open(DEV_NULL, fd);
        closing := source;
      }
      if fd == source {
        if closing == -1 {
          ClearCloexec(source);
        }
      } else {
        Dup2(source, fd);
      }
      // The descriptor of /dev/null is the slot itself, so it is never closed here.
      assert closing < count;
    }

    /** Both loops.  Sources may be slots, in any permutation, and shared.  Slots with a source name its file
        and survive exec; slots 0 to 2 without one name /dev/null; other slots, and descriptors above the
        slots that were open, like the error pipe, are as before. */
    method Arrange(pipes: array<int>)
      requires pipes.Length >= 3
      requires forall j :: 0 <= j < pipes.Length && pipes[j] >= 0 ==> pipes[j] in table
      modifies this, pipes
      ensures forall fd :: 0 <= fd < pipes.Length ==> Placed(old(table), old(pipes[..]), table, fd)
      ensures forall fd :: fd >= pipes.Length && fd in old(table) ==> Same(old(table), table, fd)
    {
      ghost var t, sources := table, pipes[..];
      Duplicate(pipes);
      for fd := 0 to pipes.Length
        invariant forall j :: fd <= j < pipes.Length ==> Ready(t, sources, table, pipes[j], j)
        invariant forall k :: 0 <= k < fd ==> Placed(t, sources, table, k)
        invariant forall k :: fd <= k < pipes.Length ==> Same(t, table, k)
        invariant forall k :: k >= pipes.Length && k in t ==> Same(t, table, k)
      {
        ghost var before := table;
        forall k | 0 <= k < fd && fd < 3
          ensures k in table
        {
          assert Placed(t, sources, table, k);
        }
        assert Same(t, table, fd) && Ready(t, sources, table, pipes[fd], fd);
        Place(pipes[fd], fd, pipes.Length, t, sources);
        StillReady(t, sources, pipes[..], before, table, fd);
      }
    }
  }

  /** What the other slots and descriptors keep when slot fd changes. */
  lemma StillReady(t: Table, sources: seq<int>, pipes: seq<int>, before: Table, after: Table, fd: nat)
    requires |pipes| == |sources| && fd < |sources|
    requires forall k :: k != fd ==> Process.Same(before, after, k)
    ensures forall j {:trigger Process.Ready(t, sources, after, pipes[j], j)} ::
              fd < j < |sources| && Process.Ready(t, sources, before, pipes[j], j) ==>
                Process.Ready(t, sources, after, pipes[j], j)
    ensures forall k {:trigger Process.Placed(t, sources, after, k)} ::
              0 <= k < fd && Process.Placed(t, sources, before, k) ==> Process.Placed(t, sources, after, k)
    ensures forall k {:trigger Process.Same(t, after, k)} ::
              k != fd && Process.Same(t, before, k) ==> Process.Same(t, after, k)
  {
    forall j | fd < j < |sources| && Process.Ready(t, sources, before, pipes[j], j)
      ensures Process.Ready(t, sources, after, pipes[j], j)
    {
      assert pipes[j] != fd ==> Process.Same(before, after, pipes[j]);
    }
    forall k | 0 <= k < fd && Process.Placed(t, sources, before, k)
      ensures Process.Placed(t, sources, after, k)
    {
      assert Process.Same(before, after, k);
    }
    forall k | k != fd && Process.Same(t, before, k)
      ensures Process.Same(t, after, k)
    {
      assert Process.Same(before, after, k);
    }
  }
}
