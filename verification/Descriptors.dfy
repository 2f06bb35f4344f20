/** The descriptor calls of src/kernel/syscall.c and the descriptor handling of fork, clone, exec and
    exit in src/kernel/proc.c, over the open-file table of src/fs/vfs.c. */
module Descriptors {
  import opened Prelude
  import opened FileTable
  import opened PipeRing

  const E_BADF: int := 9
  const E_NOMEM: int := 12
  const E_INVAL: int := 22
  const E_MFILE: int := 24
  const O_CLOEXEC: bv32 := 0x80000

  /** The lowest free descriptor, or none. */
  ghost predicate LowestFree(p: Proc, from: nat, fd: nat) {
    from <= fd < |p.fds| && p.fds[fd] < 0 && forall i | from <= i < fd :: p.fds[i] >= 0
  }

  ghost predicate NoneFree(p: Proc, from: nat) { forall i | from <= i < |p.fds| :: p.fds[i] >= 0 }

  class Kernel {
    var files: seq<File>
    var pipes: seq<Pipe>
    var procs: seq<Proc>
    const rings: seq<Ring>

    /** The rings of the pipes, one each. */
    ghost predicate RingsOk()
      reads rings, set r | r in rings :: r.buf
    {
      && |rings| == MAX_PIPES
      && (forall k | 0 <= k < MAX_PIPES :: rings[k].Valid())
      && forall j, k | 0 <= j < k < MAX_PIPES :: rings[j] != rings[k] && rings[j].buf != rings[k].buf
    }

    ghost function RingSet(): set<Ring> { set r | r in rings }

    ghost function T(): Tables
      reads this
    {
      Tables(files, pipes)
    }

    /** Every open file is referenced by exactly the descriptors onto it, a pipe that an end of is open is in
        use, and only open descriptors are close-on-exec. */
    ghost predicate Valid()
      reads this
    {
      AllOk(T(), procs)
    }

    /** Right pipe counts stay right while no open write end has O_NONBLOCK set. */
    twostate predicate KeepsRight()
      reads this
    {
      old(Right(T())) ==> Right(T())
    }

    ghost predicate Live(p: nat)
      reads this
    {
      p < |procs| && procs[p].live
    }

    /** No process, no open file. */
    constructor (slots: nat)
      ensures Valid() && |procs| == slots && forall p | 0 <= p < slots :: !procs[p].live
      ensures RingsOk() && Right(T()) && forall r <- rings :: fresh(r) && fresh(r.buf)
      ensures forall h | 0 <= h < MAX_FILES :: files[h].refs == 0
      ensures forall k | 0 <= k < MAX_PIPES :: !pipes[k].used
    {
      var rs: seq<Ring> := [];
      for i := 0 to MAX_PIPES
        invariant |rs| == i
        invariant forall k | 0 <= k < i :: fresh(rs[k]) && fresh(rs[k].buf) && rs[k].Valid()
        invariant forall j, k | 0 <= j < k < i :: rs[j] != rs[k] && rs[j].buf != rs[k].buf
      {
        var ring := new Ring();
        rs := rs + [ring];
      }
      rings := rs;
      files := seq(MAX_FILES, _ => File(0, None, false));
      pipes := seq(MAX_PIPES, _ => Pipe(false, 0, 0));
      procs := seq(slots, _ => Proc(false, seq(MAX_FD, _ => -1), {}));
      new;
      forall h | 0 <= h < MAX_FILES ensures Total(procs, h) == 0 { NothingHeld(procs, h); }
      forall k, w | 0 <= k < MAX_PIPES ensures EndRefs(files, End(k, w)) == 0 { NothingOpen(files, End(k, w)); }
    }

    /** A free process slot is taken. */
    method Spawn(p: nat)
      requires Valid() && p < |procs| && !procs[p].live
      modifies this`procs
      ensures Valid() && Live(p) && NoneOpen(procs[p]) && |procs[p].fds| == MAX_FD && procs[p].cloexec == {}
      ensures procs == old(procs)[p := procs[p]]
    {
      assert ProcOk(procs[p]);
      var fresh_ := Proc(true, seq(MAX_FD, _ => -1), {});
      assert fresh_.fds == procs[p].fds;
      SameFdsOk(T(), procs, p, fresh_);
      procs := procs[p := fresh_];
    }

    // ---- references --------------------------------------------------------------------

    method FileRef(h: int)
      requires TablesOk(T())
      modifies this`files, this`pipes
      ensures T() == Refd(old(T()), h)
    {
      if h < 0 || h >= MAX_FILES || files[h].refs == 0 {
        return;
      }
      var f := files[h];
      files := files[h := f.(refs := f.refs + 1)];
      if f.end.Some? {
        assert FileOk(f);
        var k := f.end.value.pipe;
        if AsWriter(f) {
          pipes := pipes[k := pipes[k].(writers := pipes[k].writers + 1)];
        } else {
          pipes := pipes[k := pipes[k].(readers := pipes[k].readers + 1)];
        }
      }
    }

    method FileUnref(h: int)
      requires TablesOk(T())
      modifies this`files, this`pipes
      ensures T() == Unrefd(old(T()), h)
    {
      if h < 0 || h >= MAX_FILES || files[h].refs == 0 {
        return;
      }
      var f := files[h];
      files := files[h := f.(refs := f.refs - 1)];
      if f.end.Some? {
        assert FileOk(f);
        var k := f.end.value.pipe;
        if AsWriter(f) {
          if pipes[k].writers > 0 {
            pipes := pipes[k := pipes[k].(writers := pipes[k].writers - 1)];
          }
        } else if pipes[k].readers > 0 {
          pipes := pipes[k := pipes[k].(readers := pipes[k].readers - 1)];
        }
        if files[h].refs == 0 && pipes[k].readers == 0 && pipes[k].writers == 0 {
          pipes := pipes[k := pipes[k].(used := false)];
        }
      }
    }

    method SlotAlloc() returns (h: int)
      requires |files| == MAX_FILES
      ensures h >= 0 ==> h < MAX_FILES && files[h].refs == 0 && forall i | 0 <= i < h :: files[i].refs > 0
      ensures h < 0 ==> h == -E_MFILE && forall i | 0 <= i < MAX_FILES :: files[i].refs > 0
    {
      for i := 0 to MAX_FILES
        invariant forall j | 0 <= j < i :: files[j].refs > 0
      {
        if files[i].refs == 0 {
          return i;
        }
      }
      return -E_MFILE;
    }

    /** Gives `handle` the lowest free descriptor, which starts out surviving exec. */
    method FdAlloc(p: nat, handle: int) returns (fd: int)
      requires p < |procs| && |procs[p].fds| == MAX_FD
      modifies this`procs
      ensures fd >= 0 ==> LowestFree(old(procs[p]), 0, fd)
                          && procs == Flagged(SetFd(old(procs), p, fd, handle), p, fd, false)
      ensures fd < 0 ==> fd == -E_MFILE && procs == old(procs) && NoneFree(procs[p], 0)
    {
      for i := 0 to MAX_FD
        invariant procs == old(procs) && forall j | 0 <= j < i :: procs[p].fds[j] >= 0
      {
        if procs[p].fds[i] < 0 {
          var q := procs[p];
          procs := procs[p := q.(fds := q.fds[i := handle])];
          procs := procs[p := procs[p].(cloexec := procs[p].cloexec - {i})];
          return i;
        }
      }
      return -E_MFILE;
    }

    // ---- closing -------------------------------------------------------------------------

    method Close(p: nat, fd: int) returns (r: int)
      requires Valid() && Live(p)
      modifies this
      ensures Valid()
      ensures r == if 0 <= fd < MAX_FD && old(procs[p].fds)[fd] >= 0 then 0 else -E_BADF
      ensures r == 0 ==> procs == Closed(old(procs), p, fd) && T() == Unrefd(old(T()), old(procs[p].fds)[fd])
      ensures r != 0 ==> procs == old(procs) && T() == old(T())
      ensures KeepsRight()
      ensures r == 0 && old(CountsRight(T())) ==>
                (CountsRight(T()) <==> !Miscounted(FileOf(old(T()), old(procs[p].fds)[fd])))
    {
      hide TablesOk, Counted, Unrefd, Refd, Right, CountsRight;
      assert ProcOk(procs[p]);
      if fd < 0 || fd >= MAX_FD || procs[p].fds[fd] < 0 {
        return -E_BADF;
      }
      LetGoOk(T(), procs, p, fd);
      OpenFdIsCounted(T(), procs, p, fd);
      SizesOf(T());
      if CountsRight(T()) { UnrefCounts(T(), procs[p].fds[fd]); }
      FileUnref(procs[p].fds[fd]);
      var q := procs[p];
      procs := procs[p := q.(fds := q.fds[fd := -1], cloexec := q.cloexec - {fd})];
      return 0;
    }
  
    /** Closes, or marks close-on-exec, every open descriptor in a range.  Of the 64 flag bits only the
        lower 32 are looked at. */
    method CloseRange(p: nat, first: nat, last: nat, flags: nat) returns (r: int)
      requires Valid() && Live(p)
      modifies this
      ensures Valid() && KeepsRight() && |procs| == |old(procs)|
      ensures r == if flags % 0x1_0000_0000 > 1 || first > last then -E_INVAL else 0
      ensures r != 0 ==> procs == old(procs) && T() == old(T())
      ensures forall q | 0 <= q < |procs| && q != p :: procs[q] == old(procs)[q]
      ensures r == 0 && flags % 2 == 1 ==>
                && procs[p].fds == old(procs[p].fds) && T() == old(T())
                && procs[p].cloexec == old(procs[p].cloexec) + OpenIn(old(procs[p]), first, last + 1)
      ensures r == 0 && flags % 2 == 0 ==>
                && procs[p].cloexec == old(procs[p].cloexec) - OpenIn(old(procs[p]), first, last + 1)
                && forall fd | 0 <= fd < MAX_FD ::
                     procs[p].fds[fd] == if first <= fd <= last then -1 else old(procs[p].fds)[fd]
    {
      hide Right, TablesOk, Counted;
      if flags % 0x1_0000_0000 > 1 || first > last {
        return -E_INVAL;
      }
      assert ProcOk(procs[p]);
      var end: nat := if last >= MAX_FD then MAX_FD else last + 1;
      CloseFrom(p, first, end, flags % 2 == 1);
      assert OpenIn(old(procs[p]), first, end) == OpenIn(old(procs[p]), first, last + 1);
      return 0;
    }

    /** The loop of `CloseRange`. */
    method CloseFrom(p: nat, first: nat, end: nat, flag: bool)
      requires Valid() && Live(p) && end <= MAX_FD == |procs[p].fds|
      modifies this
      ensures Valid() && KeepsRight() && |procs| == |old(procs)| && |procs[p].fds| == MAX_FD
      ensures forall q | 0 <= q < |procs| && q != p :: procs[q] == old(procs)[q]
      ensures flag ==>
                && procs[p].fds == old(procs[p].fds) && T() == old(T())
                && procs[p].cloexec == old(procs[p].cloexec) + OpenIn(old(procs[p]), first, end)
      ensures !flag ==>
                && procs[p].cloexec == old(procs[p].cloexec) - OpenIn(old(procs[p]), first, end)
                && forall i | 0 <= i < MAX_FD ::
                     procs[p].fds[i] == if first <= i < end then -1 else old(procs[p].fds)[i]
    {
      hide Right, TablesOk, Counted, AllOk;
      ParentOk(T(), procs, p);
      var fd := first;
      while fd < end
        invariant Valid() && KeepsRight() && Live(p) && |procs| == |old(procs)| && |procs[p].fds| == MAX_FD
        invariant first <= fd && (fd <= end || fd == first)
        invariant forall q | 0 <= q < |procs| && q != p :: procs[q] == old(procs)[q]
        invariant flag ==>
                    && procs[p].fds == old(procs[p].fds) && T() == old(T())
                    && procs[p].cloexec == old(procs[p].cloexec) + OpenIn(old(procs[p]), first, fd)
        invariant !flag ==>
                    && procs[p].cloexec == old(procs[p].cloexec) - OpenIn(old(procs[p]), first, fd)
                    && forall i | 0 <= i < MAX_FD ::
                         procs[p].fds[i] == if first <= i < fd then -1 else old(procs[p].fds)[i]
      {
        ParentOk(T(), procs, p);
        CloseOrFlag(p, fd, flag);
        fd := fd + 1;
      }
    }

    /** One turn of `CloseRange`. */
    method CloseOrFlag(p: nat, fd: nat, flag: bool)
      requires Valid() && Live(p) && fd < MAX_FD
      modifies this
      ensures Valid() && KeepsRight()
      ensures |old(procs[p].fds)| == MAX_FD
      ensures flag ==> T() == old(T())
      ensures procs == if old(procs[p].fds)[fd] < 0 then old(procs)
                       else if flag then Flagged(old(procs), p, fd, true) else Closed(old(procs), p, fd)
    {
      hide TablesOk, Counted, Unrefd;
      assert ProcOk(procs[p]);
      if procs[p].fds[fd] >= 0 {
        if flag {
          FlagOk(T(), procs, p, fd, true);
          procs := procs[p := procs[p].(cloexec := procs[p].cloexec + {fd})];
        } else {
          var r := Close(p, fd);
        }
      }
    }

    // ---- duplicating -----------------------------------------------------------------------

    method Dup(p: nat, oldfd: int) returns (r: int)
      requires Valid() && Live(p)
      modifies this
      ensures Valid() && KeepsRight()
      ensures r == -E_BADF <==> !(0 <= oldfd < MAX_FD && old(procs[p].fds)[oldfd] >= 0)
      ensures r == -E_MFILE ==> NoneFree(old(procs[p]), 0)
      ensures r < 0 ==> (r == -E_BADF || r == -E_MFILE) && procs == old(procs) && T() == old(T())
      ensures r >= 0 ==> Duplicated(old(procs), old(T()), p, oldfd, 0, r, false)
      ensures r >= 0 && old(CountsRight(T())) ==>
                (CountsRight(T()) <==> !Miscounted(FileOf(old(T()), old(procs[p].fds)[oldfd])))
    {
      hide TablesOk, Counted, Refd, Right, CountsRight;
      assert ProcOk(procs[p]);
      if oldfd < 0 || oldfd >= MAX_FD || procs[p].fds[oldfd] < 0 {
        return -E_BADF;
      }
      var h := procs[p].fds[oldfd];
      ghost var before := procs;
      OpenFdIsCounted(T(), procs, p, oldfd);
      SizesOf(T());
      if CountsRight(T()) { RefCounts(T(), h); }
      r := FdAlloc(p, h);
      if r < 0 {
        return;
      }
      HoldFlagOk(T(), before, p, r, h, oldfd, false);
      FileRef(h);
    }

    /** Descriptor `fd`, the lowest free one from `from` on, is another name of `oldfd`'s file. */
    ghost predicate Duplicated(before: seq<Proc>, t: Tables, p: nat, oldfd: int, from: nat, fd: int, cloexec: bool)
      reads this
      requires p < |before| && |before[p].fds| == MAX_FD && TablesOk(t)
    {
      && 0 <= oldfd < MAX_FD && 0 <= fd && LowestFree(before[p], from, fd)
      && procs == Flagged(SetFd(before, p, fd, before[p].fds[oldfd]), p, fd, cloexec)
      && T() == Refd(t, before[p].fds[oldfd])
    }

    /** fcntl's F_DUPFD and F_DUPFD_CLOEXEC. */
    method FcntlDup(p: nat, oldfd: int, arg: int, cloexec: bool) returns (r: int)
      requires Valid() && Live(p)
      modifies this
      ensures Valid() && KeepsRight()
      ensures r < 0 ==> procs == old(procs) && T() == old(T())
      ensures r < 0 ==> r == if !(0 <= oldfd < MAX_FD && old(procs[p].fds)[oldfd] >= 0) then -E_BADF
                             else if !(0 <= arg < MAX_FD) then -E_INVAL else -E_MFILE
      ensures r == -E_MFILE ==> 0 <= arg && NoneFree(old(procs[p]), arg)
      ensures r >= 0 ==> 0 <= arg && Duplicated(old(procs), old(T()), p, oldfd, arg, r, cloexec)
    {
      hide TablesOk, Counted, Refd, Right;
      assert ProcOk(procs[p]);
      if oldfd < 0 || oldfd >= MAX_FD || procs[p].fds[oldfd] < 0 {
        return -E_BADF;
      }
      if arg < 0 || arg >= MAX_FD {
        return -E_INVAL;
      }
      var h, fd := procs[p].fds[oldfd], arg;
      while fd < MAX_FD && procs[p].fds[fd] >= 0
        invariant arg <= fd <= MAX_FD && forall i | arg <= i < fd :: procs[p].fds[i] >= 0
      {
        fd := fd + 1;
      }
      if fd >= MAX_FD {
        return -E_MFILE;
      }
      HoldFlagOk(T(), procs, p, fd, h, oldfd, cloexec);
      procs := procs[p := procs[p].(fds := procs[p].fds[fd := h])];
      FileRef(h);
      procs := procs[p := procs[p].(cloexec := if cloexec then procs[p].cloexec + {fd} else procs[p].cloexec - {fd})];
      return fd;
    }

    /** dup2 and dup3: `newfd` lets go of what it named and becomes another name of `oldfd`'s file. */
    method DupOnto(p: nat, oldfd: int, newfd: int, cloexec: bool) returns (r: int)
      requires Valid() && Live(p)
      modifies this
      ensures Valid() && KeepsRight() && |procs| == |old(procs)|
      ensures r == if 0 <= oldfd < MAX_FD && old(procs[p].fds)[oldfd] >= 0 && 0 <= newfd < MAX_FD then newfd else -E_BADF
      ensures r < 0 || oldfd == newfd ==> procs == old(procs) && T() == old(T())
      ensures r >= 0 && oldfd != newfd ==>
                procs == Flagged(SetFd(old(procs), p, newfd, old(procs[p].fds)[oldfd]), p, newfd, cloexec)
    {
      hide TablesOk, Counted, Refd, Unrefd, Right;
      assert ProcOk(procs[p]);
      if oldfd < 0 || oldfd >= MAX_FD || procs[p].fds[oldfd] < 0 {
        return -E_BADF;
      }
      if newfd < 0 || newfd >= MAX_FD {
        return -E_BADF;
      }
      if oldfd == newfd {
        return newfd;
      }
      var h := procs[p].fds[oldfd];
      ghost var free := procs;
      if procs[p].fds[newfd] >= 0 {
        LetGoOk(T(), procs, p, newfd);
        free := Closed(procs, p, newfd);
        FileUnref(procs[p].fds[newfd]);
      }
      HoldFlagOk(T(), free, p, newfd, h, oldfd, cloexec);
      procs := procs[p := procs[p].(fds := procs[p].fds[newfd := h])];
      FileRef(h);
      procs := procs[p := procs[p].(cloexec := if cloexec then procs[p].cloexec + {newfd} else procs[p].cloexec - {newfd})];
      DupOntoIs(old(procs), free, p, newfd, h, cloexec);
      return newfd;
    }

    /** dup3 differs from dup2 in its flags and in refusing equal descriptors. */
    method Dup3(p: nat, oldfd: int, newfd: int, flags: bv32) returns (r: int)
      requires Valid() && Live(p)
      modifies this
      ensures Valid() && KeepsRight()
      ensures r == if flags & !O_CLOEXEC != 0 || oldfd == newfd then -E_INVAL
                   else if 0 <= oldfd < MAX_FD && old(procs[p].fds)[oldfd] >= 0 && 0 <= newfd < MAX_FD then newfd
                   else -E_BADF
      ensures r < 0 ==> procs == old(procs) && T() == old(T())
      ensures r >= 0 ==> 0 <= oldfd < MAX_FD && newfd < |old(procs[p].fds)|
                         && procs == Flagged(SetFd(old(procs), p, newfd, old(procs[p].fds)[oldfd]),
                                             p, newfd, flags & O_CLOEXEC != 0)
    {
      hide TablesOk, Counted, Right;
      assert ProcOk(procs[p]);
      if flags & !O_CLOEXEC != 0 {
        return -E_INVAL;
      }
      if oldfd == newfd {
        return -E_INVAL;
      }
      r := DupOnto(p, oldfd, newfd, flags & O_CLOEXEC != 0);
    }

    /** fcntl's F_SETFD. */
    method SetCloexec(p: nat, fd: int, on: bool) returns (r: int)
      requires Valid() && Live(p)
      modifies this`procs
      ensures Valid()
      ensures r == if 0 <= fd < MAX_FD && old(procs[p].fds)[fd] >= 0 then 0 else -E_BADF
      ensures procs == if r == 0 then Flagged(old(procs), p, fd, on) else old(procs)
    {
      hide TablesOk, Counted;
      assert ProcOk(procs[p]);
      if fd < 0 || fd >= MAX_FD || procs[p].fds[fd] < 0 {
        return -E_BADF;
      }
      FlagOk(T(), procs, p, fd, on);
      procs := procs[p := procs[p].(cloexec := if on then procs[p].cloexec + {fd} else procs[p].cloexec - {fd})];
      return 0;
    }

    /** fcntl's F_SETFL: only O_NONBLOCK changes, and no count moves; but a write end that has it set is from
        then on counted with the readers. */
    method SetNonblock(p: nat, fd: int, on: bool) returns (r: int)
      requires Valid() && Live(p)
      modifies this`files
      ensures Valid() && (CountsRight(T()) <==> old(CountsRight(T())))
      ensures r == if 0 <= fd < MAX_FD && procs[p].fds[fd] >= 0 then 0 else -E_BADF
      ensures r != 0 ==> T() == old(T())
      ensures r == 0 ==> FlagSet(old(files), procs[p].fds[fd], on)
      ensures r == 0 && old(Right(T())) ==>
                (Right(T()) <==> !(on && IsWriteEnd(FileOf(old(T()), procs[p].fds[fd]))))
    {
      hide TablesOk, Right, CountsRight;
      assert ProcOk(procs[p]);
      if fd < 0 || fd >= MAX_FD || procs[p].fds[fd] < 0 {
        return -E_BADF;
      }
      var h := procs[p].fds[fd];
      OpenFdIsCounted(T(), procs, p, fd);
      SetFlagOk(T(), h, on);
      SizesOf(T());
      files := files[h := files[h].(nonblock := on)];
      return 0;
    }

    ghost predicate FlagSet(before: seq<File>, h: int, on: bool)
      reads this
    {
      0 <= h < |before| && files == before[h := before[h].(nonblock := on)]
    }

    // ---- opening --------------------------------------------------------------------------

    /** open: a new file in a free slot gets the lowest free descriptor; `error` is a failure to
        resolve the path, and `ptyFails` one to attach a terminal pair. */
    method Open(p: nat, error: int, ptyFails: bool, cloexec: bool, nonblock: bool) returns (r: int)
      requires Valid() && Live(p) && error <= 0
      modifies this
      ensures Valid() && KeepsRight()
      ensures r < 0 <==> error < 0 || ptyFails || NoFileFree(old(files)) || NoneFree(old(procs[p]), 0)
      ensures r < 0 ==> procs == old(procs)
      ensures r < 0 ==> r == if error < 0 then error
                             else if ptyFails && !NoFileFree(old(files)) then -E_NOMEM else -E_MFILE
      ensures r >= 0 ==>
                && LowestFree(old(procs[p]), 0, r) && |procs| == |old(procs)| && |procs[p].fds| == MAX_FD
                && 0 <= procs[p].fds[r] < MAX_FILES
                && old(files)[procs[p].fds[r]].refs == 0
                && files == old(files)[procs[p].fds[r] := File(1, None, nonblock)]
                && procs == Flagged(SetFd(old(procs), p, r, procs[p].fds[r]), p, r, cloexec)
    {
      hide PipeOk, Counted, Unrefd, Right;
      assert ProcOk(procs[p]);
      if error < 0 {
        return error;
      }
      var h := SlotAlloc();
      if h < 0 {
        return h;
      }
      NewFileOk(T(), procs, h, nonblock);
      files := files[h := File(1, None, nonblock)];
      AloneIs(h);
      if ptyFails {
        AbandonOk(T(), procs, h, multiset{});
        FileUnref(h);
        NothingExtra(T(), procs);
        return -E_NOMEM;
      }
      ghost var before := procs;
      r := FdAlloc(p, h);
      if r < 0 {
        AbandonOk(T(), procs, h, multiset{});
        FileUnref(h);
        NothingExtra(T(), procs);
        return;
      }
      GiveOk(T(), before, p, r, h, multiset{});
      NothingExtra(T(), SetFd(before, p, r, h));
      FlagOk(T(), SetFd(before, p, r, h), p, r, cloexec);
      FlagOk(T(), SetFd(before, p, r, h), p, r, false);
      if cloexec {
        procs := procs[p := procs[p].(cloexec := procs[p].cloexec + {r})];
        FlagTwice(SetFd(before, p, r, h), p, r);
      }
    }

    /** Finds an unused pipe and two free slots for its ends, or changes nothing. */
    method ClaimEnds() returns (r: int, k: nat, rh: int, wh: int)
      requires TablesOk(T())
      modifies this`files, this`pipes
      ensures r == if AllUsed(old(pipes)) then -E_NOMEM else if !TwoFilesFree(old(files)) then -E_MFILE else 0
      ensures r != 0 ==> T() == old(T())
      ensures r == 0 ==>
                && k < MAX_PIPES && !old(pipes)[k].used
                && 0 <= rh < MAX_FILES && 0 <= wh < MAX_FILES && rh != wh
                && old(files)[rh].refs == 0 && old(files)[wh].refs == 0
                && T() == NewPipe(old(T()), k, rh, wh)
    {
      hide PipeOk;
      k, rh, wh := 0, 0, 0;
      var i: nat := 0;
      while i < MAX_PIPES && pipes[i].used
        invariant i <= MAX_PIPES && forall j | 0 <= j < i :: pipes[j].used
      {
        i := i + 1;
      }
      if i == MAX_PIPES {
        return -E_NOMEM, k, rh, wh;
      }
      k := i;
      rh := SlotAlloc();
      if rh < 0 {
        return rh, k, rh, wh;
      }
      files := files[rh := files[rh].(refs := 1)];
      wh := SlotAlloc();
      if wh < 0 {
        files := files[rh := files[rh].(refs := 0)];
        assert files == old(files);
        return wh, k, rh, wh;
      }
      pipes := pipes[i := Pipe(true, 1, 1)];
      files := files[rh := EndFile(i, false)];
      files := files[wh := EndFile(i, true)];
      assert files == NewPipe(old(T()), k, rh, wh).files;
      return 0, k, rh, wh;
    }

    /** Empties the ring of pipe `k`. */
    method ResetRing(k: nat)
      requires RingsOk() && k < MAX_PIPES
      modifies RingSet()`head, RingSet()`tail, RingSet()`count, RingSet()`accepted, RingSet()`delivered
      ensures RingsOk() && RingsKept(0, k)
    {
      hide Window;
      rings[k].Reset();
    }

    /** `vfs_pipe`: both ends of an unused pipe, which is emptied, in two free slots; or nothing. */
    method VfsPipe() returns (r: int, ghost k: nat, rh: int, wh: int)
      requires TablesOk(T()) && RingsOk()
      modifies this`files, this`pipes
      modifies RingSet()`head, RingSet()`tail, RingSet()`count, RingSet()`accepted, RingSet()`delivered
      ensures r == if AllUsed(old(pipes)) then -E_NOMEM else if !TwoFilesFree(old(files)) then -E_MFILE else 0
      ensures r != 0 ==> T() == old(T())
      ensures r == 0 ==>
                && k < MAX_PIPES && !old(pipes)[k].used
                && 0 <= rh < MAX_FILES && 0 <= wh < MAX_FILES && rh != wh
                && old(files)[rh].refs == 0 && old(files)[wh].refs == 0
                && T() == NewPipe(old(T()), k, rh, wh)
      ensures RingsOk() && RingsKept(r, k)
    {
      hide NewPipe, TablesOk, Window, AllUsed, TwoFilesFree;
      var i: nat;
      r, i, rh, wh := ClaimEnds();
      k := i;
      if r == 0 {
        ResetRing(i);
      }
    }

    /** A new pipe starts empty, and no other ring changes. */
    twostate predicate RingsKept(r: int, k: nat)
      requires old(RingsOk()) && RingsOk()
      reads rings, set r | r in rings :: r.buf
    {
      && (r == 0 ==> k < MAX_PIPES && rings[k].count == 0 && rings[k].accepted == [] && rings[k].delivered == [])
      && forall j | 0 <= j < MAX_PIPES && (r == 0 ==> j != k) ::
           && rings[j].count == old(rings[j].count) && rings[j].Contents() == old(rings[j].Contents())
           && rings[j].accepted == old(rings[j].accepted) && rings[j].delivered == old(rings[j].delivered)
    }

    /** pipe2: both descriptors or neither; the pipe starts empty. */
    method Pipe2(p: nat, cloexec: bool) returns (r: int, rfd: int, wfd: int, ghost k: nat)
      requires Valid() && Live(p) && RingsOk()
      modifies this, RingSet()`head, RingSet()`tail, RingSet()`count, RingSet()`accepted, RingSet()`delivered
      ensures RingsOk() && Valid() && KeepsRight() && r <= 0
      ensures r == 0 <==> !AllUsed(old(pipes)) && TwoFilesFree(old(files)) && TwoFdsFree(old(procs[p]))
      ensures r < 0 ==> procs == old(procs)
      ensures r == 0 ==>
                && 0 <= rfd < wfd && LowestFree(old(procs[p]), 0, rfd) && LowestFree(old(procs[p]), rfd + 1, wfd)
                && PipeOpened(old(procs), p, rfd, wfd, cloexec, k)
                && k < MAX_PIPES && !old(pipes)[k].used
                && T() == NewPipe(old(T()), k, procs[p].fds[rfd], procs[p].fds[wfd])
                && RingsKept(0, k)
    {
      hide PipeOk, Counted, NewPipe, AllOkBut, Right, Ring.Valid, Ring.Contents, Window;
      hide AllUsed, TwoFilesFree, TwoFdsFree;
      rfd, wfd := -1, -1;
      ghost var t := T();
      var rh: int, wh: int;
      r, k, rh, wh := VfsPipe();
      if r < 0 {
        return;
      }
      NewPipeOk(t, procs, k, rh, wh);
      EndsAre(t, k, rh, wh);
      r, rfd, wfd := GiveEnds(p, rh, wh, cloexec, k);
    }

    /** Gives the two ends of a new pipe to descriptors, or gives them up. */
    method GiveEnds(p: nat, rh: nat, wh: nat, cloexec: bool, ghost k: nat) returns (r: int, rfd: int, wfd: int)
      requires rh < |files| == MAX_FILES && wh < MAX_FILES && Live(p) && AllOkBut(T(), procs, multiset{rh, wh})
      requires files[rh] == EndFile(k, false) && files[wh] == EndFile(k, true)
      modifies this
      ensures Valid() && KeepsRight() && r <= 0
      ensures r == 0 <==> TwoFdsFree(old(procs[p]))
      ensures r < 0 ==> procs == old(procs)
      ensures r == 0 ==>
                && 0 <= rfd < wfd && LowestFree(old(procs[p]), 0, rfd) && LowestFree(old(procs[p]), rfd + 1, wfd)
                && PipeOpened(old(procs), p, rfd, wfd, cloexec, k)
                && procs[p].fds[rfd] == rh && procs[p].fds[wfd] == wh && T() == old(T())
    {
      hide PipeOk, Counted, Unrefd, AllOkBut, Right;
      r, wfd := 0, -1;
      ghost var before := procs;
      BothAre(rh, wh);
      TablesOfBut(T(), procs, multiset{rh, wh});
      assert ProcOk(procs[p]);
      rfd := FdAlloc(p, rh);
      if rfd < 0 {
        GiveUp(rh, wh);
        return rfd, -1, -1;
      }
      GiveFresh(T(), before, p, rfd, rh, multiset{wh});
      ghost var middle := procs;
      wfd := FdAlloc(p, wh);
      if wfd < 0 {
        TakeBackOk(T(), procs, p, rfd, rh, multiset{wh});
        procs := procs[p := procs[p].(fds := procs[p].fds[rfd := -1])];
        UndoIs(before, procs, p, rfd, rh);
        BothAre(rh, wh);
        GiveUp(rh, wh);
        return wfd, -1, -1;
      }
      SecondFree(before[p], middle[p], rfd, rh, wfd);
      AloneIs(wh);
      GiveFresh(T(), middle, p, wfd, wh, multiset{});
      NothingExtra(T(), procs);
      if cloexec {
        FlagBoth(T(), procs, p, rfd, wfd);
        procs := procs[p := procs[p].(cloexec := procs[p].cloexec + {rfd, wfd})];
      }
    }

    // ---- processes -------------------------------------------------------------------------

    /** fork and clone: the child, which starts with no descriptor, shares every file of its parent. */
    method CopyDescriptors(parent: nat, child: nat)
      requires Valid() && Live(parent) && Live(child) && child != parent
      requires NoneOpen(procs[child]) && procs[child].cloexec == {}
      modifies this
      ensures Valid() && KeepsRight() && procs == old(procs)[child := old(procs[parent])]
    {
      hide PipeOk, Counted, Refd, AllOk, Right;
      ParentOk(T(), procs, parent);
      ParentOk(T(), procs, child);
      ghost var fds := procs[parent].fds;
      for i := 0 to MAX_FD
        invariant Valid() && KeepsRight() && |procs| == |old(procs)|
        invariant forall q | 0 <= q < |procs| && q != child :: procs[q] == old(procs)[q]
        invariant procs[child].live && procs[child].cloexec == {} && |procs[child].fds| == MAX_FD
        invariant forall j | 0 <= j < MAX_FD :: procs[child].fds[j] == if j < i then fds[j] else -1
      {
        ParentOk(T(), procs, parent);
        var h := procs[parent].fds[i];
        if h >= 0 {
          OpenFdIsCounted(T(), procs, parent, i);
          HoldOk(T(), procs, child, i, h);
        } else {
          assert procs[child].fds[i := h] == procs[child].fds;
          assert procs[child := procs[child].(fds := procs[child].fds[i := h])] == procs;
        }
        procs := procs[child := procs[child].(fds := procs[child].fds[i := h])];
        if procs[child].fds[i] >= 0 {
          FileRef(h);
        }
      }
      assert procs[child].fds == fds;
      SameFdsOk(T(), procs, child, old(procs)[parent]);
      procs := procs[child := procs[child].(cloexec := procs[parent].cloexec)];
      assert procs == old(procs)[child := old(procs[parent])];
    }

    /** exec: the close-on-exec descriptors close, and no flag is left. */
    method ExecSweep(p: nat)
      requires Valid() && Live(p)
      modifies this
      ensures Valid() && KeepsRight() && |procs| == |old(procs)|
      ensures forall q | 0 <= q < |procs| && q != p :: procs[q] == old(procs)[q]
      ensures procs[p].live && procs[p].cloexec == {} && |procs[p].fds| == MAX_FD
      ensures forall fd | 0 <= fd < MAX_FD ::
                procs[p].fds[fd] == if fd in old(procs[p].cloexec) then -1 else old(procs[p].fds)[fd]
    {
      hide PipeOk, Counted, Unrefd, AllOk, Right;
      ParentOk(T(), procs, p);
      ghost var left := procs;
      assert FromOn(procs[p].cloexec, 0) == procs[p].cloexec;
      for i := 0 to MAX_FD
        invariant AllOk(T(), left) && KeepsRight() && |procs| == |left| == |old(procs)|
        invariant forall q | 0 <= q < |procs| && q != p :: procs[q] == old(procs)[q]
        invariant procs[p].live && procs[p].cloexec == old(procs[p].cloexec) && |procs[p].fds| == MAX_FD
        invariant left == procs[p := procs[p].(cloexec := FromOn(old(procs[p].cloexec), i))]
        invariant forall fd | 0 <= fd < MAX_FD ::
                    procs[p].fds[fd] == if fd < i && fd in old(procs[p].cloexec) then -1 else old(procs[p].fds)[fd]
      {
        left := SweepOne(p, i, left);
      }
      EndOfSweep(T(), left, p);
      assert left[p].cloexec == {};
      procs := procs[p := procs[p].(cloexec := {})];
    }

    /** One turn of `ExecSweep`; `left` is the state with the flags that are still to be looked at. */
    method SweepOne(p: nat, i: nat, ghost left: seq<Proc>) returns (ghost after: seq<Proc>)
      requires p < |procs| && i < MAX_FD && |procs[p].fds| == MAX_FD && procs[p].live
      requires AllOk(T(), left) && left == procs[p := procs[p].(cloexec := FromOn(procs[p].cloexec, i))]
      modifies this
      ensures AllOk(T(), after) && KeepsRight() && |procs| == |old(procs)| && p < |procs|
      ensures after == procs[p := procs[p].(cloexec := FromOn(procs[p].cloexec, i + 1))]
      ensures procs == old(procs)[p := old(procs[p]).(fds := if i in old(procs[p].cloexec) then old(procs[p].fds)[i := -1]
                                                            else old(procs[p].fds))]
    {
      hide PipeOk, Counted, Unrefd, AllOk, Right;
      ParentOk(T(), left, p);
      after := left;
      if i in procs[p].cloexec && procs[p].fds[i] >= 0 {
        LetGoOk(T(), left, p, i);
        after := Closed(left, p, i);
        FileUnref(procs[p].fds[i]);
        procs := procs[p := procs[p].(fds := procs[p].fds[i := -1])];
      }
      assert after[p].cloexec == FromOn(procs[p].cloexec, i + 1) && after[p].fds == procs[p].fds;
    }

    /** exit: every descriptor closes. */
    method Teardown(p: nat)
      requires Valid() && Live(p)
      modifies this
      ensures Valid() && KeepsRight() && |procs| == |old(procs)| && !procs[p].live && NoneOpen(procs[p])
      ensures forall q | 0 <= q < |procs| && q != p :: procs[q] == old(procs)[q]
    {
      hide PipeOk, Counted, Unrefd, AllOk, Right;
      ParentOk(T(), procs, p);
      ghost var left := procs;
      for i := 0 to MAX_FD
        invariant AllOk(T(), left) && KeepsRight() && |procs| == |left| == |old(procs)|
        invariant forall q | 0 <= q < |procs| && q != p :: procs[q] == old(procs)[q]
        invariant procs[p].live && |procs[p].fds| == MAX_FD
        invariant left[p].live && left[p].fds == procs[p].fds
        invariant left == procs[p := left[p]]
        invariant forall fd | 0 <= fd < i :: procs[p].fds[fd] == -1
      {
        ParentOk(T(), left, p);
        if procs[p].fds[i] >= 0 {
          LetGoOk(T(), left, p, i);
          left := Closed(left, p, i);
          FileUnref(procs[p].fds[i]);
          procs := procs[p := procs[p].(fds := procs[p].fds[i := -1])];
        }
      }
      var dead := procs[p].(live := false);
      assert ProcOk(dead);
      SameFdsOk(T(), left, p, dead);
      procs := procs[p := dead];
      assert procs == left[p := dead];
    }

    /** The two descriptors are onto the two ends of pipe `k`. */
    ghost predicate PipeOpened(before: seq<Proc>, p: nat, rfd: int, wfd: int, cloexec: bool, k: nat)
      reads this
    {
      && p < |before| == |procs| && 0 <= rfd < |before[p].fds| && 0 <= wfd < |before[p].fds| && rfd != wfd
      && |procs[p].fds| == |before[p].fds|
      && var rh, wh := procs[p].fds[rfd], procs[p].fds[wfd];
         && 0 <= rh < |files| && 0 <= wh < |files| && files[rh] == EndFile(k, false) && files[wh] == EndFile(k, true)
         && procs == before[p := before[p].(fds := before[p].fds[rfd := rh][wfd := wh],
                                            cloexec := if cloexec then before[p].cloexec + {rfd, wfd}
                                                       else before[p].cloexec)]
    }

    /** Drops the only references to a pipe's ends. */
    method GiveUp(rh: nat, wh: nat)
      requires AllOkBut(T(), procs, multiset{rh, wh}) && rh < MAX_FILES && wh < MAX_FILES
      modifies this`files, this`pipes
      ensures Valid() && KeepsRight()
    {
      hide PipeOk, ProcOk, Unrefd, Right;
      BothAre(wh, rh);
      AbandonOk(T(), procs, rh, multiset{wh});
      FileUnref(rh);
      AloneIs(wh);
      AbandonOk(T(), procs, wh, multiset{});
      FileUnref(wh);
      NothingExtra(T(), procs);
    }
  }

  lemma {:induction false} NothingHeld(procs: seq<Proc>, h: nat)
    requires forall p | 0 <= p < |procs| :: NoneOpen(procs[p])
    ensures Total(procs, h) == 0
  {
    if procs != [] {
      NothingHeld(procs[..|procs| - 1], h);
      assert h !in procs[|procs| - 1].fds;
    }
  }

  lemma {:induction false} NothingOpen(files: seq<File>, e: End)
    requires forall h | 0 <= h < |files| :: files[h].refs == 0
    ensures EndRefs(files, e) == 0
  {
    if files != [] { NothingOpen(files[..|files| - 1], e); }
  }

  ghost predicate AllUsed(pipes: seq<Pipe>) { forall k | 0 <= k < |pipes| :: pipes[k].used }

  ghost predicate NoFileFree(files: seq<File>) { forall h | 0 <= h < |files| :: files[h].refs > 0 }

  ghost predicate TwoFilesFree(files: seq<File>) {
    exists i, j :: 0 <= i < j < |files| && files[i].refs == 0 && files[j].refs == 0
  }

  ghost predicate TwoFdsFree(p: Proc) { exists i, j :: 0 <= i < j < |p.fds| && p.fds[i] < 0 && p.fds[j] < 0 }

  predicate IsWriteEnd(f: File) { f.end.Some? && f.end.value.write }

  function FileOf(t: Tables, h: int): File {
    if 0 <= h < |t.files| then t.files[h] else File(0, None, false)
  }

  predicate NoneOpen(p: Proc) { forall fd | 0 <= fd < |p.fds| :: p.fds[fd] == -1 }

  lemma ParentOk(t: Tables, procs: seq<Proc>, p: nat)
    requires AllOk(t, procs) && p < |procs|
    ensures TablesOk(t) && ProcOk(procs[p])
  {
  }

  /** The flags from descriptor `i` on. */
  function FromOn(flags: set<nat>, i: nat): set<nat> { set fd <- flags | fd >= i }

  lemma EndOfSweep(t: Tables, left: seq<Proc>, p: nat)
    requires AllOk(t, left) && p < |left| && left[p].live && left[p].cloexec == FromOn(left[p].cloexec, MAX_FD)
    ensures left[p].cloexec == {}
  {
    assert ProcOk(left[p]);
    assert forall fd <- FromOn(left[p].cloexec, MAX_FD) :: fd >= MAX_FD;
  }

  function OpenIn(p: Proc, from: nat, end: nat): set<nat> {
    set i: nat | from <= i < end && i < |p.fds| && p.fds[i] >= 0
  }

  /** Another reference to an open file, in a free descriptor, with its own flag. */
  lemma HoldFlagOk(t: Tables, procs: seq<Proc>, p: nat, fd: nat, h: nat, oldfd: nat, cloexec: bool)
    requires AllOk(t, procs) && p < |procs| && procs[p].live && fd < MAX_FD && procs[p].fds[fd] < 0
    requires oldfd < MAX_FD && procs[p].fds[oldfd] == h
    ensures AllOk(Refd(t, h), Flagged(SetFd(procs, p, fd, h), p, fd, cloexec)) && (Right(t) ==> Right(Refd(t, h)))
  {
    hide PipeOk, Counted, Refd, Right;
    assert ProcOk(procs[p]);
    OpenFdIsCounted(t, procs, p, oldfd);
    HoldOk(t, procs, p, fd, h);
    FlagOk(Refd(t, h), SetFd(procs, p, fd, h), p, fd, cloexec);
  }

  lemma DupOntoIs(procs: seq<Proc>, free: seq<Proc>, p: nat, fd: nat, h: int, cloexec: bool)
    requires p < |procs| && fd < |procs[p].fds| && (free == procs || free == Closed(procs, p, fd))
    ensures Flagged(SetFd(free, p, fd, h), p, fd, cloexec) == Flagged(SetFd(procs, p, fd, h), p, fd, cloexec)
  {
    var a, b := Flagged(SetFd(free, p, fd, h), p, fd, cloexec), Flagged(SetFd(procs, p, fd, h), p, fd, cloexec);
    assert a[p].fds == b[p].fds && a[p].cloexec == b[p].cloexec;
    assert a == b;
  }

  lemma AloneIs(h: int)
    ensures multiset{} + multiset{h} == multiset{h}
  {
  }

  lemma BothAre(a: int, b: int)
    ensures multiset{a} + multiset{b} == multiset{a, b} == multiset{b} + multiset{a}
  {
  }

  lemma TablesOfBut(t: Tables, procs: seq<Proc>, extra: multiset<int>)
    requires AllOkBut(t, procs, extra)
    ensures TablesOk(t) && forall p | 0 <= p < |procs| :: ProcOk(procs[p])
  {
  }

  lemma FlagTwice(procs: seq<Proc>, p: nat, fd: nat)
    requires p < |procs|
    ensures Flagged(Flagged(procs, p, fd, false), p, fd, true) == Flagged(procs, p, fd, true)
  {
    assert procs[p].cloexec - {fd} + {fd} == procs[p].cloexec + {fd};
  }

  /** Giving a new file to the descriptor `FdAlloc` found for it. */
  lemma GiveFresh(t: Tables, procs: seq<Proc>, p: nat, fd: nat, h: nat, extra: multiset<int>)
    requires AllOkBut(t, procs, extra + multiset{h}) && h < MAX_FILES
    requires p < |procs| && procs[p].live && fd < MAX_FD && |procs[p].fds| == MAX_FD && procs[p].fds[fd] < 0
    ensures AllOkBut(t, Flagged(SetFd(procs, p, fd, h), p, fd, false), extra)
    ensures Flagged(SetFd(procs, p, fd, h), p, fd, false) == SetFd(procs, p, fd, h)
  {
    TablesOfBut(t, procs, extra + multiset{h});
    assert ProcOk(procs[p]);
    GiveOk(t, procs, p, fd, h, extra);
    hide AllOkBut;
    assert procs[p].cloexec - {fd} == procs[p].cloexec;
    assert Flagged(SetFd(procs, p, fd, h), p, fd, false) == SetFd(procs, p, fd, h);
  }

  lemma UndoIs(before: seq<Proc>, procs: seq<Proc>, p: nat, fd: nat, h: int)
    requires p < |before| && fd < |before[p].fds| && before[p].fds[fd] == -1
    requires procs == SetFd(SetFd(before, p, fd, h), p, fd, -1)
    ensures procs == before
  {
    assert procs[p].fds == before[p].fds;
  }

  lemma SecondFree(before: Proc, after: Proc, rfd: nat, rh: nat, wfd: nat)
    requires LowestFree(before, 0, rfd) && after.fds == before.fds[rfd := rh] && LowestFree(after, 0, wfd)
    ensures rfd < wfd && LowestFree(before, rfd + 1, wfd)
  {
    forall i | rfd + 1 <= i < wfd ensures before.fds[i] >= 0 { assert after.fds[i] == before.fds[i]; }
  }

  lemma FlagBoth(t: Tables, procs: seq<Proc>, p: nat, a: nat, b: nat)
    requires AllOk(t, procs) && p < |procs| && a < MAX_FD && b < MAX_FD
    requires procs[p].fds[a] >= 0 && procs[p].fds[b] >= 0
    ensures AllOk(t, procs[p := procs[p].(cloexec := procs[p].cloexec + {a, b})])
  {
    hide TablesOk, Counted;
    assert ProcOk(procs[p]);
    SameFdsOk(t, procs, p, procs[p].(cloexec := procs[p].cloexec + {a, b}));
  }

  lemma EndsAre(t: Tables, k: nat, rh: nat, wh: nat)
    requires k < |t.pipes| && rh < |t.files| && wh < |t.files| && rh != wh
    ensures NewPipe(t, k, rh, wh).files[rh] == EndFile(k, false)
    ensures NewPipe(t, k, rh, wh).files[wh] == EndFile(k, true)
    ensures |NewPipe(t, k, rh, wh).files| == |t.files|
  {
  }
}
