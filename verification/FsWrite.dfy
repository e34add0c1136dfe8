/** Scattered writes of src/unix/fs.c: uv__fs_buf_offset, uv__fs_write and uv__fs_write_all.  A buffer is the
    bytes between its base and its end; advancing its base drops bytes from its front. */
module FsWrite {
  import opened Basics

  type Buffer = seq<byte>

  /** What a write call does: it writes a number of the bytes offered, is interrupted, or fails. */
  datatype Outcome = Wrote(n: nat) | Interrupted | Failed(code: int)

  const EINTR := -4

  function Concat(q: seq<Buffer>): (b: seq<byte>) {
    if q == [] then [] else q[0] + Concat(q[1..])
  }

  lemma {:induction false} ConcatAppend(q: seq<Buffer>, r: seq<Buffer>)
    ensures Concat(q + r) == Concat(q) + Concat(r)
  {
    if q == [] {
      assert q + r == r;
    } else {
      assert (q + r)[1..] == q[1..] + r;
      ConcatAppend(q[1..], r);
    }
  }

  function At(data: seq<byte>, off: int, k: int): byte
    requires off <= k < off + |data|
  {
    data[k - off]
  }

  /** Bytes laid over a file from an offset on. */
  function Overlay(content: map<int, byte>, off: int, data: seq<byte>): (r: map<int, byte>)
    ensures forall k :: k in r <==> k in content || off <= k < off + |data|
    ensures forall k :: k in r ==> r[k] == if off <= k < off + |data| then data[k - off] else content[k]
  {
    content + map k | off <= k < off + |data| :: At(data, off, k)
  }

  lemma OverlayTwice(content: map<int, byte>, off: int, a: seq<byte>, b: seq<byte>)
    ensures Overlay(Overlay(content, off, a), off + |a|, b) == Overlay(content, off, a + b)
  {}

  /** An open file: what was written at its own position, and what it holds at each offset. */
  class File {
    var stream: seq<byte>
    var content: map<int, byte>

    /** write, writev, pwrite or pwritev, the latter two for an offset. */
    method Write(data: seq<byte>, off: int, outcome: Outcome) returns (r: int)
      modifies this
      ensures r >= 0 ==> outcome.Wrote? && r <= |data| && r == (if outcome.n <= |data| then outcome.n else |data|)
      ensures r < 0 ==> r == (if outcome.Failed? && outcome.code < 0 then outcome.code else EINTR)
      ensures outcome.Wrote? ==> r >= 0
      ensures var done := if r > 0 then data[..r] else [];
              if off < 0 then stream == old(stream) + done && content == old(content)
              else stream == old(stream) && content == Overlay(old(content), off, done)
    {
      var done := [];
      match outcome {
        case Wrote(n) =>
          r := if n <= |data| then n else |data|;
          done := data[..r];
        case Interrupted =>
          r := EINTR;
        case Failed(code) =>
          r := if code < 0 then code else EINTR;
      }
      if off < 0 {
        stream := stream + done;
      } else {
        content := Overlay(content, off, done);
      }
    }
  }

  /** uv__fs_buf_offset: the first size bytes of the buffers from first on are done; how many buffers that is,
      the buffer it ends in being shortened. */
  method BufOffset(bufs: array<Buffer>, first: nat, size: nat) returns (offset: nat)
    requires first <= bufs.Length && size <= |Concat(bufs[first..])|
    modifies bufs
    ensures first + offset <= bufs.Length && bufs[..first] == old(bufs[..first])
    ensures Concat(bufs[first + offset..]) == old(Concat(bufs[first..]))[size..]
    ensures forall k :: first + offset <= k < bufs.Length && old(bufs[k]) != [] ==> bufs[k] != []
  {
    offset := 0;
    var left := size;
    ghost var o := bufs[..];
    while left > 0 && |bufs[first + offset]| <= left
      invariant first + offset <= bufs.Length && 0 <= left <= |Concat(o[first + offset..])|
      invariant left > 0 ==> first + offset < bufs.Length
      invariant Concat(o[first + offset..])[left..] == Concat(o[first..])[size..]
      decreases bufs.Length - first - offset
    {
      assert o[first + offset..][0] == bufs[first + offset] && o[first + offset..][1..] == o[first + offset + 1..];
      left := left - |bufs[first + offset]|;
      offset := offset + 1;
    }
    if left > 0 {
      var i := first + offset;
      assert o[i..][0] == o[i] && o[i..][1..] == o[i + 1..];
      bufs[i] := bufs[i][left..];
      assert bufs[i..] == [o[i][left..]] + o[i + 1..];
    } else {
      assert bufs[first + offset..] == o[first + offset..];
    }
  }

  /** What a write at off adds to a file when it writes data. */
  ghost predicate Added(stream: seq<byte>, content: map<int, byte>, file: File, off: int, data: seq<byte>)
    reads file
  {
    if off < 0 then file.stream == stream + data && file.content == content
    else file.stream == stream && file.content == Overlay(content, off, data)
  }

  lemma AddedNothing(file: File, off: int)
    ensures Added(file.stream, file.content, file, off, [])
  {}

  predicate Succeeds(script: seq<Outcome>) {
    forall i :: 0 <= i < |script| ==> !script[i].Failed? && (script[i].Wrote? ==> script[i].n > 0)
  }

  /** What the calls from the k-th on come to: interrupted ones are made again, and behind the script every call
      writes what it is offered. */
  function Settled(script: seq<Outcome>, k: nat): Outcome
    decreases |script| - k
  {
    if k >= |script| then Wrote(0)
    else if script[k].Interrupted? || (script[k].Failed? && (script[k].code >= 0 || script[k].code == EINTR)) then
      Settled(script, k + 1)
    else script[k]
  }

  /** The result of a write is the code of the failure, if it fails. */
  predicate Reported(o: Outcome, r: int) {
    if o.Failed? then r < 0 && r == o.code else r >= 0
  }

  /** One write that is not interrupted; k counts the calls. */
  method WriteOnce(file: File, data: seq<byte>, off: int, script: seq<Outcome>, k0: nat) returns (r: int, k: nat)
    modifies file
    ensures r <= |data|
    ensures Added(old(file.stream), old(file.content), file, off, if r > 0 then data[..r] else [])
    ensures Succeeds(script) ==> r >= 0 && (data != [] ==> r > 0)
    ensures Reported(Settled(script, k0), r)
  {
    k := k0;
    r := EINTR;
    AddedNothing(file, off);
    while true
      invariant file.stream == old(file.stream) && file.content == old(file.content)
      invariant k <= |script| || k == k0
      invariant Settled(script, k) == Settled(script, k0)
      decreases |script| - k
    {
      var outcome := if k < |script| then script[k] else Wrote(|data|);
      k := k + 1;
      r := file.Write(data, off, outcome);
      assert r <= 0 && off >= 0 ==> Overlay(old(file.content), off, []) == old(file.content);
      if r != EINTR || k > |script| {
        break;
      }
    }
  }

  /** uv__fs_write_all, for any sequence of short, empty, interrupted or failed writes and any batch limit.
      The bytes in the file are the prefix of all buffers whose length is returned, at consecutive offsets for
      a positioned write.  When the first write fails its code is returned and nothing is written; a failure
      behind it leaves the number of bytes.  If none fails or writes nothing, and no buffer is empty,
      everything is written. */
  method WriteAll(file: File, bufs: array<Buffer>, off0: int, iovmax: nat, script: seq<Outcome>) returns (total: int)
    requires iovmax >= 1
    modifies file, bufs
    ensures total <= |old(Concat(bufs[..]))|
    ensures Added(old(file.stream), old(file.content), file, off0,
                  if total > 0 then old(Concat(bufs[..]))[..total] else [])
    ensures Succeeds(script) && old([] !in bufs[..]) ==> total == |old(Concat(bufs[..]))|
    ensures if bufs.Length == 0 then total == 0 else Reported(Settled(script, 0), total)
  {
    ghost var all, full := Concat(bufs[..]), [] !in bufs[..];
    var first, nbufs, off, k := 0, bufs.Length, off0, 0;
    total := 0;
    assert bufs[0..] == bufs[..];
    AddedNothing(file, off0);
    assert full ==> NoneEmpty(bufs[..], 0);
    hide Added, Concat, Succeeds, NoneEmpty, Writing, Settled;
    while nbufs > 0
      invariant 0 <= first && 0 <= nbufs && first + nbufs == bufs.Length && 0 <= total <= |all|
      invariant Writing(file, bufs, first, off0, total, all, old(file.stream), old(file.content))
      invariant off == Advanced(off0, total) && (full ==> NoneEmpty(bufs[..], first))
      invariant if total == 0 then k == 0 && nbufs == bufs.Length else Reported(Settled(script, 0), total)
      decreases |all| - total
    {
      var result, offset;
      result, offset, k :=
        WriteTurn(file, bufs, first, off0, total, iovmax, script, k, all, old(file.stream), old(file.content));
      if result <= 0 {
        WrittenSoFar(file, bufs, first, off0, total, all, old(file.stream), old(file.content));
        if total == 0 {
          total := result;
        }
        return;
      }
      off := Advanced(off, result);
      first, nbufs, total := first + offset, nbufs - offset, total + result;
    }
    WrittenSoFar(file, bufs, first, off0, total, all, old(file.stream), old(file.content));
  }

  ghost predicate NoneEmpty(b: seq<Buffer>, first: nat) {
    forall i :: first <= i < |b| ==> b[i] != []
  }

  /** The buffers from first on hold what is left of all, and the file has the rest. */
  ghost predicate Writing(file: File, bufs: array<Buffer>, first: nat, off0: int, total: nat, all: seq<byte>,
                          stream0: seq<byte>, content0: map<int, byte>)
    reads file, bufs
  {
    && first <= bufs.Length && total <= |all| && Concat(bufs[first..]) == all[total..]
    && Added(stream0, content0, file, off0, all[..total])
  }

  lemma WrittenSoFar(file: File, bufs: array<Buffer>, first: nat, off0: int, total: nat, all: seq<byte>,
                     stream0: seq<byte>, content0: map<int, byte>)
    requires Writing(file, bufs, first, off0, total, all, stream0, content0)
    ensures total <= |all| && Added(stream0, content0, file, off0, if total > 0 then all[..total] else [])
    ensures first == bufs.Length ==> total == |all|
  {
    hide Added;
    assert total == 0 ==> all[..total] == [];
  }

  /** One turn of the loop: a write, and the buffers without what it has written. */
  method WriteTurn(file: File, bufs: array<Buffer>, first: nat, off0: int, total: nat, iovmax: nat, script: seq<Outcome>,
                   k0: nat, ghost all: seq<byte>, ghost stream0: seq<byte>, ghost content0: map<int, byte>)
    returns (result: int, offset: nat, k: nat)
    requires iovmax >= 1 && first < bufs.Length && Writing(file, bufs, first, off0, total, all, stream0, content0)
    modifies file, bufs
    ensures result <= |all| - total && first + offset <= bufs.Length
    ensures if result > 0 then Writing(file, bufs, first + offset, off0, total + result, all, stream0, content0)
            else Writing(file, bufs, first, off0, total, all, stream0, content0)
    ensures old(NoneEmpty(bufs[..], first)) ==> NoneEmpty(bufs[..], first + offset) && (Succeeds(script) ==> result > 0)
    ensures Reported(Settled(script, k0), result)
  {
    hide Added, Concat, Succeeds;
    result, k := WriteBatch(file, bufs[first..], off0, total, iovmax, script, k0, all, stream0, content0);
    if result <= 0 {
      return result, 0, k;
    }
    offset := BufOffset(bufs, first, result);
    assert all[total..][result..] == all[total + result..];
  }

  /** The offset after n more bytes; a negative offset stands for the position of the file itself. */
  function Advanced(off: int, n: int): int { if off >= 0 then off + n else off }

  /** One turn of the loop up to its write. */
  method WriteBatch(file: File, bufs: seq<Buffer>, off0: int, total: nat, iovmax: nat, script: seq<Outcome>, k0: nat,
                    ghost all: seq<byte>, ghost stream0: seq<byte>, ghost content0: map<int, byte>)
    returns (result: int, k: nat)
    requires iovmax >= 1 && bufs != [] && total <= |all| && Concat(bufs) == all[total..]
    requires Added(stream0, content0, file, off0, all[..total])
    modifies file
    ensures result <= |all| - total
    ensures Added(stream0, content0, file, off0, if result > 0 then all[..total + result] else all[..total])
    ensures Succeeds(script) && bufs[0] != [] ==> result > 0
    ensures Reported(Settled(script, k0), result)
  {
    var batch := if |bufs| > iovmax then iovmax else |bufs|;
    var data := Concat(bufs[..batch]);
    Batch(bufs, batch);
    ghost var stream, content := file.stream, file.content;
    result, k := WriteOnce(file, data, Advanced(off0, total), script, k0);
    if result > 0 {
      assert data[..result] == all[total..][..result];
      AddedTwice(stream0, content0, stream, content, file, off0, all, total, result);
    } else {
      assert off0 >= 0 ==> Overlay(content, off0 + total, []) == content;
    }
  }

  /** A batch offers a prefix of what is left. */
  lemma Batch(q: seq<Buffer>, n: nat)
    requires 1 <= n <= |q|
    ensures Concat(q[..n]) <= Concat(q) && (q[0] != [] ==> Concat(q[..n]) != [])
  {
    assert q == q[..n] + q[n..];
    ConcatAppend(q[..n], q[n..]);
  }

  lemma AddedTwice(stream0: seq<byte>, content0: map<int, byte>, stream: seq<byte>, content: map<int, byte>, file: File,
                   off: int, all: seq<byte>, total: nat, result: nat)
    requires total + result <= |all|
    requires if off < 0 then stream == stream0 + all[..total] && content == content0
             else stream == stream0 && content == Overlay(content0, off, all[..total])
    requires Added(stream, content, file, Advanced(off, total), all[total..][..result])
    ensures Added(stream0, content0, file, off, all[..total + result])
  {
    var a, b := all[..total], all[total..][..result];
    assert all[..total + result] == a + b;
    if off < 0 {
      assert stream0 + a + b == stream0 + (a + b);
    } else {
      OverlayTwice(content0, off, a, b);
    }
  }
}
