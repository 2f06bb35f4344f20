/** The open-file table, the pipe ends it counts and the descriptors of every process, as values:
    what it means for the counts to be right, and the two steps that change a descriptor. */
module FileTable {
  import opened Prelude

  const MAX_FILES: nat := 1024
  const MAX_PIPES: nat := 16
  const MAX_FD: nat := 64

  /** One end of a pipe. */
  datatype End = End(pipe: nat, write: bool)

  /** An open file, free when nothing refers to it.  Its flags are the access mode, which for a pipe is the
      end, and O_NONBLOCK. */
  datatype File = File(refs: nat, end: Option<End>, nonblock: bool)

  datatype Pipe = Pipe(used: bool, readers: nat, writers: nat)

  /** The descriptors of a process: -1 or a handle, and which of them exec closes. */
  datatype Proc = Proc(live: bool, fds: seq<int>, cloexec: set<nat>)

  datatype Tables = Tables(files: seq<File>, pipes: seq<Pipe>)

  // ---- counting -----------------------------------------------------------------------

  /** How often a process holds handle `h`. */
  function Held(p: Proc, h: int): nat { multiset(p.fds)[h] }

  function Total(procs: seq<Proc>, h: int): nat {
    if procs == [] then 0 else Total(procs[..|procs| - 1], h) + Held(procs[|procs| - 1], h)
  }

  function Weight(f: File, e: End): nat { if f.end == Some(e) then f.refs else 0 }

  /** The references to one end of a pipe. */
  function EndRefs(files: seq<File>, e: End): nat {
    if files == [] then 0 else EndRefs(files[..|files| - 1], e) + Weight(files[|files| - 1], e)
  }

  lemma {:induction false} TotalUpdate(procs: seq<Proc>, i: nat, p: Proc, h: int)
    requires i < |procs|
    ensures Total(procs[i := p], h) == Total(procs, h) - Held(procs[i], h) + Held(p, h)
  {
    var n := |procs| - 1;
    if i == n {
      assert procs[i := p][..n] == procs[..n];
    } else {
      assert procs[i := p][..n] == procs[..n][i := p];
      TotalUpdate(procs[..n], i, p, h);
    }
  }

  lemma {:induction false} TotalAtLeast(procs: seq<Proc>, i: nat, h: int)
    requires i < |procs|
    ensures Total(procs, h) >= Held(procs[i], h)
  {
    if i < |procs| - 1 { TotalAtLeast(procs[..|procs| - 1], i, h); }
  }

  lemma {:induction false} EndRefsUpdate(files: seq<File>, i: nat, f: File, e: End)
    requires i < |files|
    ensures EndRefs(files[i := f], e) == EndRefs(files, e) - Weight(files[i], e) + Weight(f, e)
  {
    var n := |files| - 1;
    if i == n {
      assert files[i := f][..n] == files[..n];
    } else {
      assert files[i := f][..n] == files[..n][i := f];
      EndRefsUpdate(files[..n], i, f, e);
    }
  }

  lemma {:induction false} EndRefsAtLeast(files: seq<File>, i: nat, e: End)
    requires i < |files|
    ensures EndRefs(files, e) >= Weight(files[i], e)
  {
    if i < |files| - 1 { EndRefsAtLeast(files[..|files| - 1], i, e); }
  }

  // ---- what holds of the counts --------------------------------------------------------

  /** A pipe has at least as many readers and writers together as there are references to its ends, and is
      in use as long as it has any. */
  ghost predicate PipeOk(t: Tables, k: nat)
    requires k < |t.pipes|
  {
    && t.pipes[k].readers + t.pipes[k].writers >= EndRefs(t.files, End(k, false)) + EndRefs(t.files, End(k, true))
    && (t.pipes[k].used <==> t.pipes[k].readers + t.pipes[k].writers > 0)
  }

  predicate FileOk(f: File) { f.refs > 0 && f.end.Some? ==> f.end.value.pipe < MAX_PIPES }

  /** What holds whatever is done to the flags of open files. */
  ghost predicate TablesOk(t: Tables) {
    && |t.files| == MAX_FILES && |t.pipes| == MAX_PIPES
    && (forall h | 0 <= h < MAX_FILES :: FileOk(t.files[h]))
    && forall k | 0 <= k < MAX_PIPES :: PipeOk(t, k)
  }

  ghost predicate PipeRight(t: Tables, k: nat)
    requires k < |t.pipes|
  {
    && t.pipes[k].readers == EndRefs(t.files, End(k, false))
    && t.pipes[k].writers == EndRefs(t.files, End(k, true))
  }

  /** Readers and writers of every pipe are the references to its two ends. */
  ghost predicate CountsRight(t: Tables) { forall k | 0 <= k < |t.pipes| :: PipeRight(t, k) }

  /** A write end that the comparison of its flags with O_WRONLY misses. */
  predicate Miscounted(f: File) { f.end.Some? && f.end.value.write && f.nonblock }

  /** The counts are right, and no open file is one that would be counted on the wrong side. */
  ghost predicate Right(t: Tables) {
    CountsRight(t) && forall h | 0 <= h < |t.files| && t.files[h].refs > 0 :: !Miscounted(t.files[h])
  }

  ghost predicate ProcOk(p: Proc) {
    && |p.fds| == MAX_FD
    && (forall fd | 0 <= fd < MAX_FD :: -1 <= p.fds[fd] < MAX_FILES)
    && (p.live ==> forall fd <- p.cloexec :: fd < MAX_FD && p.fds[fd] >= 0)
    && (!p.live ==> forall fd | 0 <= fd < MAX_FD :: p.fds[fd] == -1)
  }

  /** Every open file has as many references as there are descriptors onto it. */
  ghost predicate Counted(files: seq<File>, procs: seq<Proc>) {
    forall h | 0 <= h < |files| :: files[h].refs == Total(procs, h)
  }

  ghost predicate AllOk(t: Tables, procs: seq<Proc>) {
    && TablesOk(t) && Counted(t.files, procs)
    && forall p | 0 <= p < |procs| :: ProcOk(procs[p])
  }

  // ---- taking and dropping a reference ------------------------------------------------------

  function EndCount(p: Pipe, write: bool): nat { if write then p.writers else p.readers }

  function WithCount(p: Pipe, write: bool, n: nat): Pipe {
    if write then p.(writers := n) else p.(readers := n)
  }

  /** Which count a reference to a pipe end goes to: that of the writers only if the flags are O_WRONLY and
      nothing else. */
  predicate AsWriter(f: File)
    requires f.end.Some?
  {
    f.end.value.write && !f.nonblock
  }

  /** `vfs_file_ref`. */
  function Refd(t: Tables, h: int): (t': Tables)
    requires |t.pipes| == MAX_PIPES && forall i | 0 <= i < |t.files| :: FileOk(t.files[i])
    ensures |t'.files| == |t.files| && |t'.pipes| == |t.pipes|
  {
    if h < 0 || h >= |t.files| || t.files[h].refs == 0 then t
    else
      var f := t.files[h];
      assert FileOk(f);
      Tables(t.files[h := f.(refs := f.refs + 1)],
             if f.end.None? then t.pipes
             else
               var k, w := f.end.value.pipe, AsWriter(f);
               t.pipes[k := WithCount(t.pipes[k], w, EndCount(t.pipes[k], w) + 1)])
  }

  /** `vfs_file_unref`: the last reference to either end of a pipe releases it. */
  function Unrefd(t: Tables, h: int): (t': Tables)
    requires |t.pipes| == MAX_PIPES && forall i | 0 <= i < |t.files| :: FileOk(t.files[i])
    ensures |t'.files| == |t.files| && |t'.pipes| == |t.pipes|
  {
    if h < 0 || h >= |t.files| || t.files[h].refs == 0 then t
    else
      var f := t.files[h];
      assert FileOk(f);
      Tables(t.files[h := f.(refs := f.refs - 1)],
             if f.end.None? then t.pipes
             else t.pipes[f.end.value.pipe := Dropped(t.pipes[f.end.value.pipe], AsWriter(f), f.refs == 1)])
  }

  function Dropped(p: Pipe, write: bool, last: bool): Pipe {
    var n := EndCount(p, write);
    var q := WithCount(p, write, if n > 0 then n - 1 else 0);
    if last && q.readers == 0 && q.writers == 0 then q.(used := false) else q
  }

  lemma RefKeepsTables(t: Tables, h: nat)
    requires TablesOk(t) && h < MAX_FILES && t.files[h].refs > 0
    ensures TablesOk(Refd(t, h)) && Refd(t, h).files == t.files[h := t.files[h].(refs := t.files[h].refs + 1)]
  {
    var t', f := Refd(t, h), t.files[h];
    forall k | 0 <= k < MAX_PIPES ensures PipeOk(t', k) {
      assert PipeOk(t, k);
      BothEnds(t.files, h, f.(refs := f.refs + 1), k);
    }
  }

  lemma UnrefKeepsTables(t: Tables, h: nat)
    requires TablesOk(t) && h < MAX_FILES && t.files[h].refs > 0
    ensures TablesOk(Unrefd(t, h)) && Unrefd(t, h).files == t.files[h := t.files[h].(refs := t.files[h].refs - 1)]
  {
    var t', f := Unrefd(t, h), t.files[h];
    forall k | 0 <= k < MAX_PIPES ensures PipeOk(t', k) {
      assert PipeOk(t, k);
      BothEnds(t.files, h, f.(refs := f.refs - 1), k);
    }
  }

  lemma BothEnds(files: seq<File>, h: nat, f: File, k: nat)
    requires h < |files|
    ensures forall w ::
              EndRefs(files[h := f], End(k, w))
              == EndRefs(files, End(k, w)) - Weight(files[h], End(k, w)) + Weight(f, End(k, w))
    ensures forall w :: EndRefs(files, End(k, w)) >= Weight(files[h], End(k, w))
  {
    forall w
      ensures EndRefs(files[h := f], End(k, w))
           == EndRefs(files, End(k, w)) - Weight(files[h], End(k, w)) + Weight(f, End(k, w))
      ensures EndRefs(files, End(k, w)) >= Weight(files[h], End(k, w))
    {
      EndRefsUpdate(files, h, f, End(k, w));
      EndRefsAtLeast(files, h, End(k, w));
    }
  }

  /** From right counts, taking a reference leaves right counts if and only if the file is not a write end
      with O_NONBLOCK set. */
  lemma RefCounts(t: Tables, h: nat)
    requires TablesOk(t) && CountsRight(t) && h < MAX_FILES && t.files[h].refs > 0
    ensures CountsRight(Refd(t, h)) <==> !Miscounted(t.files[h])
  {
    var t', f := Refd(t, h), t.files[h];
    forall k | 0 <= k < MAX_PIPES
      ensures PipeRight(t', k) <==> !(Miscounted(f) && f.end.value.pipe == k)
    {
      assert PipeRight(t, k);
      BothEnds(t.files, h, f.(refs := f.refs + 1), k);
    }
    assert FileOk(f);
    if Miscounted(f) { assert !PipeRight(t', f.end.value.pipe); }
  }

  /** So does dropping one. */
  lemma UnrefCounts(t: Tables, h: nat)
    requires TablesOk(t) && CountsRight(t) && h < MAX_FILES && t.files[h].refs > 0
    ensures CountsRight(Unrefd(t, h)) <==> !Miscounted(t.files[h])
  {
    var t', f := Unrefd(t, h), t.files[h];
    forall k | 0 <= k < MAX_PIPES
      ensures PipeRight(t', k) <==> !(Miscounted(f) && f.end.value.pipe == k)
    {
      assert PipeRight(t, k);
      BothEnds(t.files, h, f.(refs := f.refs - 1), k);
    }
    assert FileOk(f);
    if Miscounted(f) { assert !PipeRight(t', f.end.value.pipe); }
  }

  /** While no open write end has O_NONBLOCK set, counts that are right stay right. */
  lemma StaysRight(t: Tables, h: nat)
    requires TablesOk(t) && Right(t) && h < MAX_FILES && t.files[h].refs > 0
    ensures Right(Refd(t, h)) && Right(Unrefd(t, h))
  {
    hide CountsRight, PipeOk, TablesOk;
    SizesOf(t);
    RefCounts(t, h);
    UnrefCounts(t, h);
  }

  lemma SizesOf(t: Tables)
    requires TablesOk(t)
    ensures |t.files| == MAX_FILES && |t.pipes| == MAX_PIPES
    ensures forall h | 0 <= h < MAX_FILES :: FileOk(t.files[h])
  {
  }

  /** F_SETFL moves no count. */
  lemma SetFlagOk(t: Tables, h: nat, on: bool)
    requires TablesOk(t) && h < MAX_FILES && t.files[h].refs > 0
    ensures var t' := t.(files := t.files[h := t.files[h].(nonblock := on)]);
            && TablesOk(t') && (CountsRight(t) <==> CountsRight(t'))
            && (Right(t) ==> (Right(t') <==> !(on && t.files[h].end.Some? && t.files[h].end.value.write)))
  {
    var f := t.files[h].(nonblock := on);
    var t' := t.(files := t.files[h := f]);
    forall k | 0 <= k < MAX_PIPES ensures PipeOk(t', k) && (PipeRight(t, k) <==> PipeRight(t', k)) {
      assert PipeOk(t, k);
      BothEnds(t.files, h, f, k);
    }
    assert FileOk(t.files[h]);
    assert t'.files[h] == f;
  }

  // ---- changing one descriptor ---------------------------------------------------------------

  function SetFd(procs: seq<Proc>, p: nat, fd: nat, h: int): seq<Proc>
    requires p < |procs| && fd < |procs[p].fds|
  {
    procs[p := procs[p].(fds := procs[p].fds[fd := h])]
  }

  lemma SetFdTotal(procs: seq<Proc>, p: nat, fd: nat, h: int, x: int)
    requires p < |procs| && fd < |procs[p].fds|
    ensures Total(SetFd(procs, p, fd, h), x)
         == Total(procs, x) - (if procs[p].fds[fd] == x then 1 else 0) + (if h == x then 1 else 0)
  {
    var q := procs[p].(fds := procs[p].fds[fd := h]);
    TotalUpdate(procs, p, q, x);
    assert multiset(q.fds) == multiset(procs[p].fds) - multiset{procs[p].fds[fd]} + multiset{h};
  }

  /** A descriptor that is open names an open file. */
  lemma OpenFdIsCounted(t: Tables, procs: seq<Proc>, p: nat, fd: nat)
    requires AllOk(t, procs) && p < |procs| && fd < MAX_FD && procs[p].fds[fd] >= 0
    ensures procs[p].fds[fd] < MAX_FILES && t.files[procs[p].fds[fd]].refs > 0
  {
    assert ProcOk(procs[p]);
    var h := procs[p].fds[fd];
    TotalAtLeast(procs, p, h);
    assert h in procs[p].fds;
  }

  /** Taking a reference into a free descriptor. */
  lemma HoldOk(t: Tables, procs: seq<Proc>, p: nat, fd: nat, h: nat)
    requires AllOk(t, procs) && p < |procs| && procs[p].live && fd < MAX_FD && procs[p].fds[fd] == -1
    requires h < MAX_FILES && t.files[h].refs > 0
    ensures AllOk(Refd(t, h), SetFd(procs, p, fd, h)) && (Right(t) ==> Right(Refd(t, h)))
  {
    hide PipeOk, Refd, Right;
    var procs' := SetFd(procs, p, fd, h);
    RefKeepsTables(t, h);
    if Right(t) { StaysRight(t, h); }
    forall x | 0 <= x < MAX_FILES ensures Refd(t, h).files[x].refs == Total(procs', x) {
      SetFdTotal(procs, p, fd, h, x);
    }
    forall q | 0 <= q < |procs'| ensures ProcOk(procs'[q]) { assert ProcOk(procs[q]); }
  }

  /** The descriptor closed, and its close-on-exec flag with it. */
  function Closed(procs: seq<Proc>, p: nat, fd: nat): seq<Proc>
    requires p < |procs| && fd < |procs[p].fds|
  {
    procs[p := procs[p].(fds := procs[p].fds[fd := -1], cloexec := procs[p].cloexec - {fd})]
  }

  function Flagged(procs: seq<Proc>, p: nat, fd: nat, on: bool): seq<Proc>
    requires p < |procs|
  {
    procs[p := procs[p].(cloexec := if on then procs[p].cloexec + {fd} else procs[p].cloexec - {fd})]
  }

  /** Dropping the reference a descriptor holds and freeing the descriptor. */
  lemma LetGoOk(t: Tables, procs: seq<Proc>, p: nat, fd: nat)
    requires AllOk(t, procs) && p < |procs| && fd < MAX_FD && procs[p].fds[fd] >= 0
    ensures procs[p].live && AllOk(Unrefd(t, procs[p].fds[fd]), Closed(procs, p, fd))
    ensures Right(t) ==> Right(Unrefd(t, procs[p].fds[fd]))
  {
    hide PipeOk, Unrefd, Right;
    var h, procs' := procs[p].fds[fd], Closed(procs, p, fd);
    assert ProcOk(procs[p]);
    OpenFdIsCounted(t, procs, p, fd);
    UnrefKeepsTables(t, h);
    if Right(t) { StaysRight(t, h); }
    forall x | 0 <= x < MAX_FILES ensures Unrefd(t, h).files[x].refs == Total(procs', x) {
      SetFdTotal(procs, p, fd, -1, x);
      TotalUpdate(procs, p, procs'[p], x);
      TotalUpdate(procs, p, SetFd(procs, p, fd, -1)[p], x);
    }
    forall q | 0 <= q < |procs'| ensures ProcOk(procs'[q]) { assert ProcOk(procs[q]); }
  }

  /** What a process does to its flags or its life leaves the counts alone. */
  lemma SameFdsOk(t: Tables, procs: seq<Proc>, p: nat, q: Proc)
    requires AllOk(t, procs) && p < |procs| && q.fds == procs[p].fds && ProcOk(q)
    ensures AllOk(t, procs[p := q])
  {
    hide TablesOk;
    forall x | 0 <= x < |t.files| ensures t.files[x].refs == Total(procs[p := q], x) {
      TotalUpdate(procs, p, q, x);
    }
  }

  /** A flag may be cleared at any time, and set on an open descriptor. */
  lemma FlagOk(t: Tables, procs: seq<Proc>, p: nat, fd: nat, on: bool)
    requires AllOk(t, procs) && p < |procs| && fd < MAX_FD && (on ==> procs[p].fds[fd] >= 0)
    ensures AllOk(t, Flagged(procs, p, fd, on))
  {
    hide TablesOk, Counted;
    assert ProcOk(procs[p]);
    SameFdsOk(t, procs, p, Flagged(procs, p, fd, on)[p]);
  }

  // ---- new files -----------------------------------------------------------------------------------

  /** A file just opened: one reference, that no descriptor holds yet. */
  ghost predicate AllOkBut(t: Tables, procs: seq<Proc>, extra: multiset<int>) {
    && TablesOk(t)
    && (forall h | 0 <= h < MAX_FILES :: t.files[h].refs == Total(procs, h) + extra[h])
    && forall p | 0 <= p < |procs| :: ProcOk(procs[p])
  }

  lemma NothingExtra(t: Tables, procs: seq<Proc>)
    ensures AllOkBut(t, procs, multiset{}) <==> AllOk(t, procs)
  {
  }

  /** Opening a file that is not a pipe end in a free slot. */
  lemma NewFileOk(t: Tables, procs: seq<Proc>, h: nat, nonblock: bool)
    requires AllOk(t, procs) && h < MAX_FILES && t.files[h].refs == 0
    ensures var t' := t.(files := t.files[h := File(1, None, nonblock)]);
            AllOkBut(t', procs, multiset{h}) && (Right(t) ==> Right(t'))
  {
    hide ProcOk;
    var t' := t.(files := t.files[h := File(1, None, nonblock)]);
    forall k | 0 <= k < MAX_PIPES ensures PipeOk(t', k) && (PipeRight(t, k) ==> PipeRight(t', k)) {
      assert PipeOk(t, k);
      BothEnds(t.files, h, File(1, None, nonblock), k);
    }
  }

  /** The two files of a new pipe. */
  function EndFile(k: nat, write: bool): File { File(1, Some(End(k, write)), false) }

  function NewPipe(t: Tables, k: nat, rh: nat, wh: nat): Tables
    requires k < |t.pipes| && rh < |t.files| && wh < |t.files|
  {
    Tables(t.files[rh := EndFile(k, false)][wh := EndFile(k, true)], t.pipes[k := Pipe(true, 1, 1)])
  }

  /** Opening both ends of an unused pipe in two free slots. */
  lemma NewPipeOk(t: Tables, procs: seq<Proc>, k: nat, rh: nat, wh: nat)
    requires AllOk(t, procs) && k < MAX_PIPES && !t.pipes[k].used
    requires rh < MAX_FILES && wh < MAX_FILES && rh != wh && t.files[rh].refs == 0 && t.files[wh].refs == 0
    ensures AllOkBut(NewPipe(t, k, rh, wh), procs, multiset{rh, wh})
    ensures Right(t) ==> Right(NewPipe(t, k, rh, wh))
  {
    hide ProcOk;
    var t' := NewPipe(t, k, rh, wh);
    forall j | 0 <= j < MAX_PIPES ensures PipeOk(t', j) && (PipeRight(t, j) ==> PipeRight(t', j)) {
      assert PipeOk(t, j);
      BothEnds(t.files, rh, EndFile(k, false), j);
      BothEnds(t.files[rh := EndFile(k, false)], wh, EndFile(k, true), j);
    }
  }

  /** Giving a new file to a descriptor. */
  lemma GiveOk(t: Tables, procs: seq<Proc>, p: nat, fd: nat, h: nat, extra: multiset<int>)
    requires AllOkBut(t, procs, extra + multiset{h}) && h < MAX_FILES
    requires p < |procs| && procs[p].live && fd < MAX_FD && procs[p].fds[fd] == -1
    ensures AllOkBut(t, SetFd(procs, p, fd, h), extra)
  {
    hide PipeOk;
    var procs' := SetFd(procs, p, fd, h);
    forall x | 0 <= x < MAX_FILES ensures t.files[x].refs == Total(procs', x) + extra[x] {
      SetFdTotal(procs, p, fd, h, x);
    }
    forall q | 0 <= q < |procs'| ensures ProcOk(procs'[q]) { assert ProcOk(procs[q]); }
  }

  /** Taking it back again. */
  lemma TakeBackOk(t: Tables, procs: seq<Proc>, p: nat, fd: nat, h: nat, extra: multiset<int>)
    requires AllOkBut(t, procs, extra) && p < |procs| && fd < MAX_FD && procs[p].fds[fd] == h && fd !in procs[p].cloexec
    ensures AllOkBut(t, SetFd(procs, p, fd, -1), extra + multiset{h})
  {
    hide PipeOk;
    var procs' := SetFd(procs, p, fd, -1);
    forall x | 0 <= x < MAX_FILES ensures t.files[x].refs == Total(procs', x) + (extra + multiset{h})[x] {
      SetFdTotal(procs, p, fd, -1, x);
    }
    forall q | 0 <= q < |procs'| ensures ProcOk(procs'[q]) { assert ProcOk(procs[q]); }
  }

  /** Giving up a new file that found no descriptor. */
  lemma AbandonOk(t: Tables, procs: seq<Proc>, h: nat, extra: multiset<int>)
    requires AllOkBut(t, procs, extra + multiset{h}) && h < MAX_FILES
    ensures AllOkBut(Unrefd(t, h), procs, extra) && (Right(t) ==> Right(Unrefd(t, h)))
  {
    hide PipeOk, ProcOk, Unrefd, Right;
    UnrefKeepsTables(t, h);
    if Right(t) { StaysRight(t, h); }
  }

  // ---- what the counts mean ---------------------------------------------------------------------

  /** When an end of a pipe has no count left and the counts are right, no descriptor of any process is
      onto it. */
  lemma UncountedEndHasNoDescriptor(t: Tables, procs: seq<Proc>, k: nat, write: bool, p: nat, fd: nat)
    requires AllOk(t, procs) && k < MAX_PIPES && EndCount(t.pipes[k], write) == 0
    requires p < |procs| && fd < MAX_FD && procs[p].fds[fd] >= 0
    ensures procs[p].fds[fd] < MAX_FILES
    ensures CountsRight(t) ==> t.files[procs[p].fds[fd]].end != Some(End(k, write))
  {
    OpenFdIsCounted(t, procs, p, fd);
    EndRefsAtLeast(t.files, procs[p].fds[fd], End(k, write));
    if CountsRight(t) { assert PipeRight(t, k); }
  }

  /** Right counts or not, a pipe that any descriptor is onto is in use, so that it is never given out a
      second time. */
  lemma OpenEndIsInUse(t: Tables, procs: seq<Proc>, p: nat, fd: nat, e: End)
    requires AllOk(t, procs) && p < |procs| && fd < MAX_FD && procs[p].fds[fd] >= 0
    requires procs[p].fds[fd] < MAX_FILES && t.files[procs[p].fds[fd]].end == Some(e)
    ensures e.pipe < MAX_PIPES && t.pipes[e.pipe].used
  {
    var h := procs[p].fds[fd];
    OpenFdIsCounted(t, procs, p, fd);
    assert FileOk(t.files[h]);
    EndRefsAtLeast(t.files, h, e);
    assert PipeOk(t, e.pipe);
    assert e == End(e.pipe, e.write);
    assert EndRefs(t.files, End(e.pipe, e.write)) > 0;
  }
}
