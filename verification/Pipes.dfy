/** Reading and writing pipes, as src/fs/vfs.c does.  Each turn of a reader's or writer's loop runs with
    interrupts off and is one step; between steps anything else may happen. */
module Pipes {
  import opened Prelude
  import opened FileTable
  import opened PipeRing
  import opened Descriptors

  const E_INTR: int := 4
  const E_PIPE: int := 32

  // ---- one step of a read or a write ----------------------------------------------------------

  datatype ReadStep = Nothing | Bytes(data: seq<Octet>) | EndOfFile | ReadInterrupted | ReadSleeps

  datatype WriteStep = Accepted(n: nat) | Broken | WriteInterrupted | WriteSleeps

  /** One turn of `pipe_node_read` on pipe `k`. */
  method Read(kernel: Kernel, k: nat, len: nat, signalled: bool) returns (r: ReadStep)
    requires kernel.Valid() && kernel.RingsOk() && k < MAX_PIPES
    modifies {kernel.rings[k]}`tail, {kernel.rings[k]}`count, {kernel.rings[k]}`delivered
    ensures kernel.Valid() && kernel.RingsOk()
    ensures r.Nothing? <==> len == 0
    ensures r.Bytes? <==> len > 0 && old(kernel.rings[k].count) > 0
    ensures r.Bytes? ==>
              && 0 < |r.data| <= len
              && old(kernel.rings[k].Contents()) == r.data + kernel.rings[k].Contents()
              && kernel.rings[k].delivered == old(kernel.rings[k].delivered) + r.data
    ensures !r.Bytes? ==>
              && kernel.rings[k].delivered == old(kernel.rings[k].delivered)
              && kernel.rings[k].Contents() == old(kernel.rings[k].Contents())
    ensures r.EndOfFile? <==> len > 0 && old(kernel.rings[k].count) == 0 && kernel.pipes[k].writers == 0
    ensures r.EndOfFile? ==> kernel.rings[k].accepted == kernel.rings[k].delivered
    ensures r.EndOfFile? && CountsRight(kernel.T()) ==> NoDescriptorOnto(kernel, End(k, true))
    ensures r.ReadInterrupted? || r.ReadSleeps? <==>
              len > 0 && old(kernel.rings[k].count) == 0 && kernel.pipes[k].writers > 0
    ensures r.ReadInterrupted? ==> signalled
    ensures r.ReadSleeps? ==> !signalled
  {
    hide Window, PipeOk, Counted;
    var ring := kernel.rings[k];
    if len == 0 {
      return Nothing;
    }
    if ring.count == 0 {
      if kernel.pipes[k].writers == 0 {
        if CountsRight(kernel.T()) { NoneOnto(kernel, End(k, true)); }
        NoBytes(ring);
        return EndOfFile;
      }
      if signalled {
        return ReadInterrupted;
      }
      return ReadSleeps;
    }
    var data := ring.Take(len);
    return Bytes(data);
  }

  /** One turn of `pipe_node_write` on pipe `k`, with `s` still to be written. */
  method Write(kernel: Kernel, k: nat, s: seq<Octet>, signalled: bool) returns (r: WriteStep)
    requires kernel.Valid() && kernel.RingsOk() && k < MAX_PIPES && s != []
    modifies {kernel.rings[k]}`head, {kernel.rings[k]}`count, {kernel.rings[k]}`accepted, kernel.rings[k].buf
    ensures kernel.Valid() && kernel.RingsOk()
    ensures r.Accepted? <==> kernel.pipes[k].readers > 0 && old(kernel.rings[k].count) < CAP
    ensures r.Accepted? ==>
              && 0 < r.n <= |s|
              && kernel.rings[k].Contents() == old(kernel.rings[k].Contents()) + s[..r.n]
              && kernel.rings[k].accepted == old(kernel.rings[k].accepted) + s[..r.n]
    ensures !r.Accepted? ==>
              && kernel.rings[k].accepted == old(kernel.rings[k].accepted)
              && kernel.rings[k].Contents() == old(kernel.rings[k].Contents())
    ensures r.Broken? <==> kernel.pipes[k].readers == 0
    ensures r.Broken? && CountsRight(kernel.T()) ==> NoDescriptorOnto(kernel, End(k, false))
    ensures r.WriteInterrupted? || r.WriteSleeps? <==>
              kernel.pipes[k].readers > 0 && old(kernel.rings[k].count) == CAP
    ensures r.WriteInterrupted? ==> signalled
    ensures r.WriteSleeps? ==> !signalled
  {
    hide Window, PipeOk, Counted;
    var ring := kernel.rings[k];
    if ring.count == CAP && kernel.pipes[k].readers > 0 {
      if signalled {
        return WriteInterrupted;
      }
      return WriteSleeps;
    }
    if kernel.pipes[k].readers == 0 {
      if CountsRight(kernel.T()) { NoneOnto(kernel, End(k, false)); }
      return Broken;
    }
    var n := ring.Put(s);
    return Accepted(n);
  }

  // ---- a whole write ---------------------------------------------------------------------------

  /** A call of `pipe_node_write` under way on pipe `k`: what is written so far and, once it has returned,
      its result. */
  class WriteCall {
    const k: nat
    const data: seq<Octet>
    var done: nat
    var result: Option<int>
    /** The parts that the ring accepted from this call, in order. */
    ghost var sent: seq<Octet>

    /** The ring has accepted exactly the first `done` bytes, and the result says how many they are unless
        there were none. */
    ghost predicate Valid()
      reads this
    {
      && k < MAX_PIPES && done <= |data| && sent == data[..done]
      && (done == |data| ==> result == Some(done))
      && (result.Some? && done > 0 ==> result == Some(done))
      && (result.Some? && done == 0 && data != [] ==> result.value == -E_PIPE || result.value == -E_INTR)
    }

    constructor (k: nat, data: seq<Octet>)
      requires k < MAX_PIPES
      ensures Valid() && this.k == k && this.data == data && done == 0 && (result.None? <==> data != [])
    {
      this.k, this.data, done, sent := k, data, 0, [];
      result := if data == [] then Some(0) else None;
    }

    /** One turn of a call that has not returned.  The ring accepts the bytes that follow those already
        written, so over all turns, whatever happens between them, it accepts a prefix of the data once and
        in order. */
    method Turn(kernel: Kernel, signalled: bool)
      requires Valid() && result.None? && kernel.Valid() && kernel.RingsOk()
      modifies this, {kernel.rings[k]}`head, {kernel.rings[k]}`count, {kernel.rings[k]}`accepted, kernel.rings[k].buf
      ensures Valid() && kernel.Valid() && kernel.RingsOk()
      ensures old(done) <= done && sent == old(sent) + data[old(done)..done]
      ensures kernel.rings[k].accepted == old(kernel.rings[k].accepted) + data[old(done)..done]
      ensures kernel.rings[k].Contents() == old(kernel.rings[k].Contents()) + data[old(done)..done]
      ensures done > old(done) <==> kernel.pipes[k].readers > 0 && old(kernel.rings[k].count) < CAP
      ensures result.Some? && done < |data| ==> done == old(done) && (signalled || kernel.pipes[k].readers == 0)
      ensures result.Some? && done < |data| && kernel.pipes[k].readers > 0 ==>
                result == Some(if done > 0 then done else -E_INTR)
      ensures kernel.pipes[k].readers == 0 ==> result == Some(if done > 0 then done else -E_PIPE)
      ensures result.None? && done == old(done) ==> !signalled
    {
      hide Window, PipeOk, Counted;
      var r := Write(kernel, k, data[done..], signalled);
      match r {
        case Accepted(n) =>
          NextPart(data, done, n);
          sent := sent + data[done..done + n];
          done := done + n;
          if done == |data| {
            result := Some(done);
          }
        case Broken =>
          result := Some(if done > 0 then done else -E_PIPE);
        case WriteInterrupted =>
          result := Some(if done > 0 then done else -E_INTR);
        case WriteSleeps =>
      }
    }
  }

  lemma NextPart(data: seq<Octet>, done: nat, n: nat)
    requires done + n <= |data|
    ensures data[done..][..n] == data[done..done + n]
    ensures data[..done] + data[done..done + n] == data[..done + n]
  {
  }

  /** No descriptor of any process is onto this end. */
  ghost predicate NoDescriptorOnto(kernel: Kernel, e: End)
    reads kernel
  {
    forall p, fd | 0 <= p < |kernel.procs| && 0 <= fd < |kernel.procs[p].fds|
                   && 0 <= kernel.procs[p].fds[fd] < |kernel.files| ::
      kernel.files[kernel.procs[p].fds[fd]].end != Some(e)
  }

  lemma NoneOnto(kernel: Kernel, e: End)
    requires kernel.Valid() && CountsRight(kernel.T()) && e.pipe < MAX_PIPES
    requires EndCount(kernel.pipes[e.pipe], e.write) == 0
    ensures NoDescriptorOnto(kernel, e)
  {
    hide TablesOk, Counted;
    forall p, fd | 0 <= p < |kernel.procs| && 0 <= fd < |kernel.procs[p].fds|
                   && 0 <= kernel.procs[p].fds[fd] < |kernel.files|
      ensures kernel.files[kernel.procs[p].fds[fd]].end != Some(e)
    {
      assert ProcOk(kernel.procs[p]);
      UncountedEndHasNoDescriptor(kernel.T(), kernel.procs, e.pipe, e.write, p, fd);
    }
  }

  lemma NoBytes(ring: Ring)
    requires ring.Valid() && ring.count == 0
    ensures ring.accepted == ring.delivered
  {
    assert ring.delivered + [] == ring.delivered;
  }

  // ---- what O_NONBLOCK on a write end does -------------------------------------------------------

  /** A process with both ends of an empty pipe, in a system with nothing else open. */
  method MakePipe() returns (kernel: Kernel, rfd: int, wfd: int, ghost k: nat)
    ensures fresh(kernel) && (forall r <- kernel.rings :: fresh(r) && fresh(r.buf))
    ensures kernel.Valid() && kernel.RingsOk() && kernel.Live(0) && |kernel.procs| == 1
    ensures OnlyPipe(kernel, rfd, wfd, k) && kernel.rings[k].count == 0
  {
    hide PipeOk, Counted, Window, CountsRight, Right;
    kernel := new Kernel(1);
    kernel.Spawn(0);
    Room(kernel);
    var r;
    r, rfd, wfd, k := kernel.Pipe2(0, false);
  }

  lemma Room(kernel: Kernel)
    requires |kernel.files| == MAX_FILES && |kernel.pipes| == MAX_PIPES && |kernel.procs| == 1
    requires (forall h | 0 <= h < MAX_FILES :: kernel.files[h].refs == 0) && !kernel.pipes[0].used
    requires |kernel.procs[0].fds| == MAX_FD && NoneOpen(kernel.procs[0])
    ensures !AllUsed(kernel.pipes) && TwoFilesFree(kernel.files) && TwoFdsFree(kernel.procs[0])
  {
    assert kernel.files[0].refs == 0 && kernel.files[1].refs == 0;
    assert kernel.procs[0].fds[0] < 0 && kernel.procs[0].fds[1] < 0;
  }

  /** All that is open are the two ends of pipe `k`. */
  ghost predicate OnlyPipe(kernel: Kernel, rfd: int, wfd: int, k: nat)
    reads kernel
  {
    && |kernel.procs| == 1 && k < MAX_PIPES == |kernel.pipes| && kernel.pipes[k] == Pipe(true, 1, 1)
    && 0 <= rfd < wfd < MAX_FD == |kernel.procs[0].fds|
    && (forall fd | 0 <= fd < MAX_FD && fd != rfd && fd != wfd :: kernel.procs[0].fds[fd] < 0)
    && var rh, wh := kernel.procs[0].fds[rfd], kernel.procs[0].fds[wfd];
       && 0 <= rh < |kernel.files| && 0 <= wh < |kernel.files| && rh != wh
       && kernel.files[rh] == EndFile(k, false) && kernel.files[wh] == EndFile(k, true)
  }

  /** Setting O_NONBLOCK on the write end, duplicating it, clearing the flag and closing the copy leaves no
      writer counted. */
  method LoseWriter(kernel: Kernel, ghost rfd: int, wfd: int, ghost k: nat)
    requires kernel.Valid() && kernel.Live(0) && OnlyPipe(kernel, rfd, wfd, k)
    modifies kernel
    ensures kernel.Valid() && kernel.Live(0) && |kernel.procs| == 1 && |kernel.procs[0].fds| == MAX_FD
    ensures kernel.procs[0].fds[wfd] >= 0 && FileOf(kernel.T(), kernel.procs[0].fds[wfd]) == EndFile(k, true)
    ensures |kernel.pipes| == MAX_PIPES && kernel.pipes[k].writers == 0
  {
    hide PipeOk, Counted, CountsRight, Right, AllOk;
    var r := kernel.SetNonblock(0, wfd, true);
    assert kernel.procs[0].fds[0] < 0 || kernel.procs[0].fds[1] < 0 || kernel.procs[0].fds[2] < 0;
    var copy := kernel.Dup(0, wfd);
    assert kernel.pipes[k] == Pipe(true, 2, 1);
    r := kernel.SetNonblock(0, wfd, false);
    r := kernel.Close(0, copy);
  }

  /** A read then reports the end of the file although the write end is open. */
  method EarlyEndOfFile() returns (kernel: Kernel, wfd: int, ghost k: nat, step: ReadStep)
    ensures kernel.Valid() && kernel.Live(0) && 0 <= wfd < |kernel.procs[0].fds| && kernel.procs[0].fds[wfd] >= 0
    ensures FileOf(kernel.T(), kernel.procs[0].fds[wfd]) == EndFile(k, true)
    ensures step.EndOfFile?
  {
    hide PipeOk, Counted, Window, CountsRight, Right, AllOk, Refd, Unrefd, Ring.Contents;
    var rfd;
    kernel, rfd, wfd, k := MakePipe();
    LoseWriter(kernel, rfd, wfd, k);
    var pipe := kernel.files[kernel.procs[0].fds[wfd]].end.value.pipe;
    step := Read(kernel, pipe, 1, false);
  }

  /** Setting it and closing both ends: nothing is open any more, and the pipe stays in use. */
  method LostPipe() returns (kernel: Kernel, ghost k: nat)
    ensures kernel.Valid() && |kernel.procs| == 1 && NoneOpen(kernel.procs[0])
    ensures k < |kernel.pipes| && kernel.pipes[k] == Pipe(true, 0, 1)
  {
    hide PipeOk, Counted, Window, CountsRight, Right;
    var rfd, wfd, r;
    kernel, rfd, wfd, k := MakePipe();
    r := kernel.SetNonblock(0, wfd, true);
    r := kernel.Close(0, wfd);
    r := kernel.Close(0, rfd);
  }
}
