/** One EEVDF run queue of src/kernel/proc.c: placement, picking and removal over the treap. */
module RunQueues {
  import opened Prelude
  import opened Treap
  import opened TreapLinks

  /** Five ticks of 1024 virtual-time units. */
  const SLICE: int := 5 * 1024

  function Max(a: int, b: int): int { if a < b then b else a }

  // ---- what a pick means -----------------------------------------------------------

  /** The queue's clock minus the task's virtual runtime. */
  function Vlag(x: Task, vtime: int): int { vtime - x.vruntime }

  predicate Eligible(x: Task, vtime: int) { Vlag(x, vtime) <= 0 }

  /** `b` is the eligible task with the earliest (deadline, pid); if none is eligible, the task with
      the smallest lag, the earliest among equals. */
  ghost predicate IsBest(s: seq<Task>, vtime: int, b: Task) {
    && b in s
    && if exists x :: x in s && Eligible(x, vtime)
       then Eligible(b, vtime) && forall x <- s :: Eligible(x, vtime) && x != b ==> Earlier(b, x)
       else forall x <- s :: x != b ==>
              Vlag(b, vtime) < Vlag(x, vtime) || (Vlag(b, vtime) == Vlag(x, vtime) && Earlier(b, x))
  }

  /** An earlier deadline or, with the same one, a smaller pid. */
  predicate Earlier(a: Task, b: Task) {
    a.deadline < b.deadline || (a.deadline == b.deadline && a.pid < b.pid)
  }

  /** A task is eligible when it has run at least as far as the clock. */
  lemma EligibleHasRun(x: Task, vtime: int)
    ensures Eligible(x, vtime) <==> vtime <= x.vruntime
  {
  }

  /** While any queued task has run as far as the clock, no task that is behind it is picked. */
  lemma OwedWaits(s: seq<Task>, vtime: int, b: Task, x: Task)
    requires IsBest(s, vtime, b) && x in s && vtime <= x.vruntime
    ensures vtime <= b.vruntime
  {
  }

  /** The description leaves no choice. */
  lemma BestIsUnique(s: seq<Task>, vtime: int, a: Task, b: Task)
    requires IsBest(s, vtime, a) && IsBest(s, vtime, b)
    ensures a == b
  {
  }

  // ---- the linear scan --------------------------------------------------------------

  datatype Picks = Picks(elig: Option<Task>, fb: Option<Task>)

  /** The first eligible task, and the ineligible task with the smallest lag, seen so far. */
  function Scan(s: seq<Task>, vtime: int): Picks {
    if s == [] then Picks(None, None) else ScanStep(Scan(s[..|s| - 1], vtime), s[|s| - 1], vtime)
  }

  function ScanStep(picks: Picks, x: Task, vtime: int): Picks {
    if Eligible(x, vtime) then
      if picks.elig.None? then picks.(elig := Some(x)) else picks
    else if picks.fb.None? || Vlag(x, vtime) < Vlag(picks.fb.value, vtime) then picks.(fb := Some(x))
    else picks
  }

  function Choice(picks: Picks): Option<Task> {
    if picks.elig.Some? then picks.elig else picks.fb
  }

  lemma {:induction false} ScanFinds(s: seq<Task>, vtime: int)
    requires Sorted(s)
    ensures var picks := Scan(s, vtime);
            && (picks.elig.None? ==> forall x <- s :: !Eligible(x, vtime))
            && (picks.elig.Some? ==>
                  && picks.elig.value in s && Eligible(picks.elig.value, vtime)
                  && forall x <- s :: Eligible(x, vtime) && x != picks.elig.value ==> Before(picks.elig.value, x))
            && (picks.fb.None? ==> forall x <- s :: Eligible(x, vtime))
            && (picks.fb.Some? ==>
                  && picks.fb.value in s && !Eligible(picks.fb.value, vtime)
                  && forall x <- s :: !Eligible(x, vtime) && x != picks.fb.value ==>
                       || Vlag(picks.fb.value, vtime) < Vlag(x, vtime)
                       || (Vlag(picks.fb.value, vtime) == Vlag(x, vtime) && Before(picks.fb.value, x)))
  {
    if s != [] {
      var n := |s| - 1;
      ScanFinds(s[..n], vtime);
      assert s == s[..n] + [s[n]];
      forall y <- s[..n] ensures Before(y, s[n]) {}
    }
  }

  /** The scan chooses the best task, and none only from an empty queue. */
  lemma ScanChoosesBest(s: seq<Task>, vtime: int)
    requires Sorted(s)
    ensures Choice(Scan(s, vtime)).None? <==> s == []
    ensures s != [] ==> IsBest(s, vtime, Choice(Scan(s, vtime)).value)
  {
    ScanFinds(s, vtime);
    if s != [] {
      assert s[0] in s;
    }
  }

  lemma {:induction false} ScanConcat(a: seq<Task>, b: seq<Task>, vtime: int)
    ensures b == [] ==> Scan(a + b, vtime) == Scan(a, vtime)
    ensures b != [] ==> Scan(a + b, vtime) == ScanStep(Scan(a + b[..|b| - 1], vtime), b[|b| - 1], vtime)
  {
    if b == [] {
      assert a + b == a;
    } else {
      assert (a + b)[..|a + b| - 1] == a + b[..|b| - 1];
    }
  }

  /** Once both picks are made, looking further changes neither the eligible one nor that there is
      a fallback. */
  lemma {:induction false} ScanSettled(a: seq<Task>, b: seq<Task>, vtime: int)
    requires Scan(a, vtime).elig.Some? && Scan(a, vtime).fb.Some?
    ensures Scan(a + b, vtime).elig == Scan(a, vtime).elig && Scan(a + b, vtime).fb.Some?
    decreases |b|
  {
    ScanConcat(a, b, vtime);
    if b != [] { ScanSettled(a, b[..|b| - 1], vtime); }
  }

  // ---- the recursive walk --------------------------------------------------------------

  /** What the walk's three variables say about the linear scan.  The fallback matters only while
      nothing eligible has been seen. */
  ghost predicate Agree(picks: Picks, vtime: int, elig: Proc?, fb: Proc?, fbVlag: int) {
    && (elig == null <==> picks.elig.None?)
    && (elig != null ==> picks.elig.value.p == elig)
    && (fb == null <==> picks.fb.None?)
    && (fb != null && elig == null ==> picks.fb.value.p == fb && fbVlag == Vlag(picks.fb.value, vtime))
  }

  /** `tr_pick`: the in-order walk, cut short once both picks are made. */
  method TrPick(root: Proc?, vtime: int, elig0: Proc?, fb0: Proc?, fbVlag0: int,
                ghost t: Tree, ghost seen: seq<Task>, ghost all: set<Proc>)
    returns (elig: Proc?, fb: Proc?, fbVlag: int)
    requires Procs(t) <= all && Linked(root, t)
    requires Agree(Scan(seen, vtime), vtime, elig0, fb0, fbVlag0)
    ensures Agree(Scan(seen + InOrder(t), vtime), vtime, elig, fb, fbVlag)
    decreases t
  {
    hide Scan;
    elig, fb, fbVlag := elig0, fb0, fbVlag0;
    if root == null || (elig != null && fb != null) {
      SkipTree(seen, t, vtime);
      return;
    }
    ghost var before, here := seen + InOrder(t.left), [t.task];
    elig, fb, fbVlag := TrPick(root.tl, vtime, elig, fb, fbVlag, t.left, seen, all);
    assert seen + InOrder(t) == before + (here + InOrder(t.right)) == (before + here) + InOrder(t.right);
    if elig != null && fb != null {
      ScanSettled(before, here + InOrder(t.right), vtime);
      return;
    }
    var vlag := vtime - root.vruntime;
    ScanConcat(before, here, vtime);
    assert before + here[..0] == before;
    if vlag <= 0 {
      if elig == null {
        elig := root;
      }
    } else if fb == null || vlag < fbVlag {
      fb := root;
      fbVlag := vlag;
    }
    elig, fb, fbVlag := TrPick(root.tr, vtime, elig, fb, fbVlag, t.right, before + here, all);
  }

  lemma SkipTree(seen: seq<Task>, t: Tree, vtime: int)
    requires t.Leaf? || (Scan(seen, vtime).elig.Some? && Scan(seen, vtime).fb.Some?)
    ensures t.Leaf? ==> Scan(seen + InOrder(t), vtime) == Scan(seen, vtime)
    ensures Scan(seen, vtime).elig.Some? && Scan(seen, vtime).fb.Some? ==>
              Scan(seen + InOrder(t), vtime).elig == Scan(seen, vtime).elig && Scan(seen + InOrder(t), vtime).fb.Some?
  {
    if t.Leaf? {
      ScanConcat(seen, InOrder(t), vtime);
    } else {
      ScanSettled(seen, InOrder(t), vtime);
    }
  }

  // ---- the queue ------------------------------------------------------------------------

  class RunQueue {
    var root: Proc?
    var vtime: int
    var minVtime: int
    var count: nat
    ghost var tree: Tree
    ghost var procs: set<Proc>

    /** The tree is a treap over exactly `procs`, every deadline is one slice after the virtual
        runtime, and the placement floor is below every queued task. */
    ghost predicate Valid()
      reads this, procs`tl, procs`tr, procs`vruntime, procs`deadline, procs`tprio
    {
      && procs == Procs(tree) && Linked(root, tree) && Distinct(tree)
      && Sorted(InOrder(tree)) && Heap(tree)
      && count == |InOrder(tree)|
      && Placed(InOrder(tree), minVtime)
    }

    /** The queued tasks, earliest deadline first. */
    ghost function Tasks(): seq<Task>
      reads this
    {
      InOrder(tree)
    }

    constructor ()
      ensures Valid() && Tasks() == [] && procs == {}
      ensures vtime == 0 && minVtime == 0
    {
      root := null;
      vtime, minVtime, count := 0, 0, 0;
      tree, procs := Leaf, {};
    }

    lemma EmptyQueue()
      requires Valid()
      ensures count == 0 <==> procs == {}
      ensures Tasks() == [] <==> procs == {}
    {
      if tree.Node? { assert tree.task.p in Procs(tree); }
    }

    /** Raises the floor to the leftmost task's virtual runtime; it never falls. */
    method RaiseFloor()
      requires Linked(root, tree) && Sorted(InOrder(tree)) && Placed(InOrder(tree), minVtime)
      modifies this`minVtime
      ensures minVtime >= old(minVtime)
      ensures minVtime == if Tasks() == [] then old(minVtime) else Max(old(minVtime), Tasks()[0].vruntime)
      ensures Placed(InOrder(tree), minVtime)
    {
      var lm := TrLeftmost(root, tree);
      if lm != null {
        LeftmostIsFirst(tree);
        FirstIsLeast(InOrder(tree), minVtime);
        if lm.vruntime - minVtime > 0 {
          minVtime := lm.vruntime;
        }
      }
    }

    method Advance(delta: nat)
      requires Valid()
      modifies this`vtime
      ensures Valid() && vtime == old(vtime) + delta
    {
      vtime := vtime + delta;
    }

    /** Places `p` by its remembered lag, but never below the floor. */
    method Enqueue(p: Proc)
      requires Valid() && p !in procs
      requires forall o <- procs :: o.pid != p.pid
      modifies this, p, procs`tl, procs`tr
      ensures Valid() && procs == old(procs) + {p}
      ensures Tasks() == InsertSorted(old(Tasks()), TaskOf(p))
      ensures p.vruntime == Max(vtime - old(p.vlag), old(minVtime))
      ensures p.vlag == vtime - p.vruntime && p.deadline == p.vruntime + SLICE && p.tprio == old(p.tprio)
      ensures vtime == old(vtime) && minVtime == Max(old(minVtime), Tasks()[0].vruntime)
    {
      hide Valid;
      Place(p);
      Link(p);
    }

    method Place(p: Proc)
      requires Valid() && p !in procs
      modifies p`vruntime, p`vlag, p`deadline
      ensures Valid()
      ensures p.vruntime == Max(vtime - old(p.vlag), minVtime)
      ensures p.vlag == vtime - p.vruntime && p.deadline == p.vruntime + SLICE
    {
      p.vruntime := vtime - p.vlag;
      if p.vruntime - minVtime < 0 {
        p.vruntime := minVtime;
        p.vlag := vtime - p.vruntime;
      }
      p.deadline := p.vruntime + SLICE;
    }

    /** Enters a placed task into the treap. */
    method Link(p: Proc)
      requires Valid() && p !in procs
      requires p.deadline == p.vruntime + SLICE && minVtime <= p.vruntime
      requires forall o <- procs :: o.pid != p.pid
      modifies this, p`tl, p`tr, procs`tl, procs`tr
      ensures Valid() && procs == old(procs) + {p}
      ensures Tasks() == InsertSorted(old(Tasks()), TaskOf(p))
      ensures vtime == old(vtime) && minVtime == Max(old(minVtime), Tasks()[0].vruntime)
    {
      hide Sorted, Heap, Placed, InsertSorted, Distinct, InOrder, Insert, Linked, Procs;
      ghost var x := TaskOf(p);
      OtherPids(root, tree, p.pid);
      InsertKeeps(tree, x, minVtime);
      var r := TrInsert(root, p, tree, procs);
      root := r;
      tree, procs := Insert(tree, x), procs + {p};
      count := count + 1;
      RaiseFloor();
    }

    /** Takes the `k`-th task off the queue. */
    method Remove(p: Proc, ghost k: nat)
      requires Valid() && k < |Tasks()| && Tasks()[k].p == p
      modifies this, procs`tl, procs`tr
      ensures Valid() && procs == old(procs) - {p}
      ensures Tasks() == Without(old(Tasks()), k)
      ensures vtime == old(vtime) && old(minVtime) <= minVtime
    {
      hide Sorted, Heap, Placed, Without, Distinct, InOrder, Delete, Linked, Procs;
      ghost var x := TaskOf(p);
      TaskAt(root, tree, k);
      DeleteKeeps(tree, k, minVtime);
      var r := TrDelete(root, p, tree, procs);
      root := r;
      tree := Delete(tree, x);
      procs := Procs(tree);
      if count != 0 {
        count := count - 1;
      }
      RaiseFloor();
    }

    /** The best task, and where it stands in the order. */
    method Choose() returns (pick: Proc?, ghost k: nat)
      requires Valid()
      ensures pick == null <==> Tasks() == []
      ensures pick != null ==>
                pick in procs && k < |Tasks()| && TaskOf(pick) == Tasks()[k] && IsBest(Tasks(), vtime, Tasks()[k])
    {
      hide Scan, IsBest, Sorted, Heap, Placed;
      EmptyScan(vtime);
      var elig, fb, fbVlag := TrPick(root, vtime, null, null, 0, tree, [], procs);
      ghost var s := InOrder(tree);
      assert [] + s == s;
      ScanChoosesBest(s, vtime);
      pick := if elig != null then elig else fb;
      if pick == null {
        return null, 0;
      }
      ghost var x := Choice(Scan(s, vtime)).value;
      assert x in s by { BestIsQueued(s, vtime, x); }
      k :| 0 <= k < |s| && s[k] == x;
      TaskAt(root, tree, k);
    }

    /** Picks the best task, finalises its lag against this queue's clock and takes it off. */
    method PickBest() returns (pick: Proc?, ghost k: nat)
      requires Valid()
      modifies this, procs`tl, procs`tr, procs`vlag
      ensures Valid() && vtime == old(vtime) && old(minVtime) <= minVtime
      ensures pick == null <==> old(Tasks()) == []
      ensures pick == null ==> Tasks() == [] && procs == old(procs) && minVtime == old(minVtime)
      ensures pick != null ==>
                && pick in old(procs) && procs == old(procs) - {pick}
                && pick.vlag == vtime - pick.vruntime
                && k < |old(Tasks())| && old(Tasks())[k] == TaskOf(pick)
                && IsBest(old(Tasks()), vtime, old(Tasks())[k]) && Tasks() == Without(old(Tasks()), k)
      ensures forall o <- old(procs) :: o != pick ==> o.vlag == old(o.vlag)
    {
      hide Valid, IsBest, Without;
      pick, k := Choose();
      if pick == null {
        return;
      }
      pick.vlag := vtime - pick.vruntime;
      Remove(pick, k);
    }
  }

  /** Every task ends one slice after its virtual runtime, which is at least `floor`. */
  ghost predicate Placed(s: seq<Task>, floor: int) {
    forall x <- s :: x.deadline == x.vruntime + SLICE && floor <= x.vruntime
  }

  /** With one slice for all, the earliest deadline is the least virtual runtime. */
  lemma FirstIsLeast(s: seq<Task>, floor: int)
    requires Sorted(s) && Placed(s, floor) && s != []
    ensures Placed(s, s[0].vruntime)
  {
    forall x <- s ensures s[0].vruntime <= x.vruntime {
      var i :| 0 <= i < |s| && s[i] == x;
      if i > 0 { assert Before(s[0], s[i]); }
      assert s[0] in s;
    }
  }

  lemma ComparableByPid(s: seq<Task>, x: Task)
    requires forall y <- s :: y.pid != x.pid
    ensures forall y <- s :: Before(x, y) || Before(y, x)
  {
  }

  lemma InsertPlaced(s: seq<Task>, x: Task, floor: int)
    requires Placed(s, floor) && x.deadline == x.vruntime + SLICE && floor <= x.vruntime
    ensures Placed(InsertSorted(s, x), floor)
  {
    var k := Rank(s, x);
    assert forall y <- s[..k] :: y in s;
    assert forall y <- s[k..] :: y in s;
  }

  lemma InsertKeeps(t: Tree, x: Task, floor: int)
    requires Sorted(InOrder(t)) && Heap(t) && Placed(InOrder(t), floor)
    requires x.deadline == x.vruntime + SLICE && floor <= x.vruntime
    requires forall y <- InOrder(t) :: y.pid != x.pid
    ensures InOrder(Insert(t, x)) == InsertSorted(InOrder(t), x)
    ensures |InOrder(Insert(t, x))| == |InOrder(t)| + 1
    ensures Sorted(InOrder(Insert(t, x))) && Heap(Insert(t, x)) && Placed(InOrder(Insert(t, x)), floor)
  {
    hide Sorted, Heap, Placed;
    ComparableByPid(InOrder(t), x);
    InsertInOrder(t, x);
    InsertSortedSorted(InOrder(t), x);
    InsertHeap(t, x);
    InsertPlaced(InOrder(t), x, floor);
  }

  lemma WithoutKeeps(s: seq<Task>, k: nat, floor: int)
    requires Sorted(s) && Placed(s, floor) && k < |s|
    ensures Sorted(Without(s, k)) && Placed(Without(s, k), floor)
  {
    assert forall y <- s[..k] :: y in s;
    assert forall y <- s[k + 1..] :: y in s;
  }

  lemma DeleteKeeps(t: Tree, k: nat, floor: int)
    requires Distinct(t) && Sorted(InOrder(t)) && Heap(t) && Placed(InOrder(t), floor) && k < |InOrder(t)|
    ensures var t' := Delete(t, InOrder(t)[k]);
            && InOrder(t') == Without(InOrder(t), k) && |InOrder(t')| == |InOrder(t)| - 1
            && Sorted(InOrder(t')) && Heap(t') && Placed(InOrder(t'), floor)
            && Procs(t') == Procs(t) - {InOrder(t)[k].p}
  {
    hide Distinct, Sorted, Heap, Placed;
    DeleteInOrder(t, k);
    DeleteHeap(t, InOrder(t)[k]);
    WithoutKeeps(InOrder(t), k, floor);
    DeleteProcs(t, k);
  }

  lemma EmptyScan(vtime: int)
    ensures Scan([], vtime) == Picks(None, None)
  {
  }

  lemma BestIsQueued(s: seq<Task>, vtime: int, x: Task)
    requires IsBest(s, vtime, x)
    ensures x in s
  {
  }

  /** The `k`-th queued task is what its process's fields say. */
  lemma {:induction false} TaskAt(root: Proc?, t: Tree, k: nat)
    requires Linked(root, t) && k < |InOrder(t)|
    ensures InOrder(t)[k].p in Procs(t) && TaskOf(InOrder(t)[k].p) == InOrder(t)[k]
  {
    var a := InOrder(t.left);
    if k < |a| {
      TaskAt(t.task.p.tl, t.left, k);
      assert InOrder(t)[k] == a[k];
    } else if k > |a| {
      TaskAt(t.task.p.tr, t.right, k - |a| - 1);
      assert InOrder(t)[k] == InOrder(t.right)[k - |a| - 1];
    }
  }

  lemma OtherPids(root: Proc?, t: Tree, pid: int)
    requires Linked(root, t) && forall o <- Procs(t) :: o.pid != pid
    ensures forall y <- InOrder(t) :: y.pid != pid
  {
    forall y <- InOrder(t) ensures y.pid != pid {
      var k :| 0 <= k < |InOrder(t)| && InOrder(t)[k] == y;
      TaskAt(root, t, k);
    }
  }

  ghost function ProcsOf(s: seq<Task>): set<Proc> { set x | x in s :: x.p }

  lemma {:induction false} ProcsInOrder(t: Tree)
    ensures Procs(t) == ProcsOf(InOrder(t))
  {
    if t.Node? {
      ProcsInOrder(t.left);
      ProcsInOrder(t.right);
      var a, b := InOrder(t.left), InOrder(t.right);
      assert InOrder(t) == a + [t.task] + b;
    }
  }

  lemma {:induction false} DistinctInOrder(t: Tree, i: nat, j: nat)
    requires Distinct(t) && i < j < |InOrder(t)|
    ensures InOrder(t)[i].p != InOrder(t)[j].p
  {
    var a, b := InOrder(t.left), InOrder(t.right);
    ProcsInOrder(t.left);
    ProcsInOrder(t.right);
    var s := InOrder(t);
    if j < |a| {
      DistinctInOrder(t.left, i, j);
      assert s[i] == a[i] && s[j] == a[j];
    } else if i > |a| {
      DistinctInOrder(t.right, i - |a| - 1, j - |a| - 1);
      assert s[i] == b[i - |a| - 1] && s[j] == b[j - |a| - 1];
    } else {
      if i < |a| { assert s[i] == a[i] && a[i].p in Procs(t.left); }
      if j > |a| { assert s[j] == b[j - |a| - 1] && b[j - |a| - 1].p in Procs(t.right); }
    }
  }

  lemma WithoutProcs(s: seq<Task>, k: nat)
    requires k < |s| && forall i | 0 <= i < |s| && i != k :: s[i].p != s[k].p
    ensures ProcsOf(Without(s, k)) == ProcsOf(s) - {s[k].p}
  {
    var rest := Without(s, k);
    forall i | 0 <= i < |s| && i != k ensures s[i] in rest {
      assert s[i] == rest[if i < k then i else i - 1];
    }
    forall y <- rest ensures y in s && y.p != s[k].p {
      var i :| 0 <= i < |rest| && rest[i] == y;
      assert y == s[if i < k then i else i + 1];
    }
  }

  lemma DeleteProcs(t: Tree, k: nat)
    requires Distinct(t) && Sorted(InOrder(t)) && k < |InOrder(t)|
    ensures Procs(Delete(t, InOrder(t)[k])) == Procs(t) - {InOrder(t)[k].p}
  {
    hide ProcsOf, Without, Distinct, Sorted;
    var s := InOrder(t);
    DeleteInOrder(t, k);
    ProcsInOrder(t);
    ProcsInOrder(Delete(t, s[k]));
    forall i | 0 <= i < |s| && i != k ensures s[i].p != s[k].p {
      if i < k { DistinctInOrder(t, i, k); } else { DistinctInOrder(t, k, i); }
    }
    WithoutProcs(s, k);
  }
}
