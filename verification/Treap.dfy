/** The run-queue treap of src/kernel/proc.c as a value: tasks in a binary tree ordered by
    (deadline, pid) from left to right and by priority from top to bottom. */
module Treap {

  /** The fields of `proc_t` that scheduling uses.  Times are mathematical integers. */
  class Proc {
    const pid: int
    var vruntime: int
    var deadline: int
    var vlag: int
    var tprio: int
    var tl: Proc?
    var tr: Proc?

    constructor (pid: int)
      ensures this.pid == pid && vlag == 0
    {
      this.pid := pid;
      vruntime, deadline, vlag, tprio := 0, 0, 0, 0;
      tl, tr := null, null;
    }
  }

  /** A queued task: the process and the fields that place it in the queue. */
  datatype Task = Task(p: Proc, pid: int, vruntime: int, deadline: int, prio: int)

  datatype Tree = Leaf | Node(left: Tree, task: Task, right: Tree)

  /** `key_before`: earlier deadline, then smaller pid. */
  predicate Before(a: Task, b: Task) {
    if a.deadline != b.deadline then a.deadline < b.deadline else a.pid < b.pid
  }

  function InOrder(t: Tree): seq<Task> {
    match t
    case Leaf => []
    case Node(l, x, r) => InOrder(l) + [x] + InOrder(r)
  }

  ghost predicate Sorted(s: seq<Task>) {
    forall i, j | 0 <= i < j < |s| :: Before(s[i], s[j])
  }

  /** Heap order: no task has a lower priority than one below it. */
  ghost predicate Heap(t: Tree) {
    match t
    case Leaf => true
    case Node(l, x, r) => Heap(l) && Heap(r) && Below(l, x.prio) && Below(r, x.prio)
  }

  predicate Below(t: Tree, prio: int) { t.Node? ==> t.task.prio <= prio }

  // ---- the operations ------------------------------------------------------------

  function Merge(l: Tree, r: Tree): Tree
    decreases l, r
  {
    if l.Leaf? then r
    else if r.Leaf? then l
    else if l.task.prio > r.task.prio then Node(l.left, l.task, Merge(l.right, r))
    else Node(Merge(l, r.left), r.task, r.right)
  }

  function Insert(t: Tree, x: Task): (r: Tree)
    ensures r.Node?
  {
    match t
    case Leaf => Node(Leaf, x, Leaf)
    case Node(l, y, r) =>
      if Before(x, y) then
        var l' := Insert(l, x);
        if l'.task.prio > y.prio then Node(l'.left, l'.task, Node(l'.right, y, r)) else Node(l', y, r)
      else
        var r' := Insert(r, x);
        if r'.task.prio > y.prio then Node(Node(l, y, r'.left), r'.task, r'.right) else Node(l, y, r')
  }

  function Delete(t: Tree, x: Task): Tree {
    match t
    case Leaf => Leaf
    case Node(l, y, r) =>
      if x == y then Merge(l, r)
      else if Before(x, y) then Node(Delete(l, x), y, r)
      else Node(l, y, Delete(r, x))
  }

  function Leftmost(t: Tree): Task
    requires t.Node?
  {
    if t.left.Leaf? then t.task else Leftmost(t.left)
  }

  // ---- the sequence a tree stands for -----------------------------------------------

  lemma {:induction false} MergeInOrder(l: Tree, r: Tree)
    ensures InOrder(Merge(l, r)) == InOrder(l) + InOrder(r)
    decreases l, r
  {
    if l.Node? && r.Node? {
      if l.task.prio > r.task.prio {
        MergeInOrder(l.right, r);
      } else {
        MergeInOrder(l, r.left);
      }
    }
  }

  /** How many tasks come before `x` in a sequence. */
  function Rank(s: seq<Task>, x: Task): (k: nat)
    ensures k <= |s|
  {
    if s == [] then 0 else if Before(s[0], x) then 1 + Rank(s[1..], x) else 0
  }

  function InsertSorted(s: seq<Task>, x: Task): seq<Task> {
    s[..Rank(s, x)] + [x] + s[Rank(s, x)..]
  }

  lemma {:induction false} RankSplits(s: seq<Task>, x: Task)
    requires Sorted(s)
    ensures forall i | 0 <= i < Rank(s, x) :: Before(s[i], x)
    ensures forall i | Rank(s, x) <= i < |s| :: !Before(s[i], x)
  {
    if s != [] {
      if Before(s[0], x) {
        RankSplits(s[1..], x);
        forall i | Rank(s, x) <= i < |s| ensures !Before(s[i], x) { assert s[i] == s[1..][i - 1]; }
      } else {
        forall i | 0 < i < |s| ensures !Before(s[i], x) { assert Before(s[0], s[i]); }
      }
    }
  }

  lemma {:induction false} RankUnique(s: seq<Task>, x: Task, k: nat)
    requires k <= |s|
    requires forall i | 0 <= i < k :: Before(s[i], x)
    requires k < |s| ==> !Before(s[k], x)
    ensures Rank(s, x) == k
  {
    if k > 0 {
      assert Before(s[0], x);
      RankUnique(s[1..], x, k - 1);
    }
  }

  lemma SortedParts(a: seq<Task>, x: Task, b: seq<Task>)
    requires Sorted(a + [x] + b)
    ensures Sorted(a) && Sorted(b)
    ensures forall i | 0 <= i < |a| :: Before(a[i], x)
    ensures forall i | 0 <= i < |b| :: Before(x, b[i])
  {
    var s := a + [x] + b;
    assert s[|a|] == x;
    forall i, j | 0 <= i < j < |a| ensures Before(a[i], a[j]) { assert s[i] == a[i] && s[j] == a[j]; }
    forall i, j | 0 <= i < j < |b| ensures Before(b[i], b[j]) {
      assert s[|a| + 1 + i] == b[i] && s[|a| + 1 + j] == b[j];
    }
    forall i | 0 <= i < |a| ensures Before(a[i], x) { assert s[i] == a[i]; }
    forall i | 0 <= i < |b| ensures Before(x, b[i]) { assert s[|a| + 1 + i] == b[i]; }
  }

  lemma InsertBeforePivot(a: seq<Task>, y: Task, b: seq<Task>, x: Task)
    requires Sorted(a + [y] + b) && Before(x, y)
    ensures InsertSorted(a + [y] + b, x) == InsertSorted(a, x) + [y] + b
  {
    var s := a + [y] + b;
    SortedParts(a, y, b);
    RankSplits(a, x);
    var k := Rank(a, x);
    assert s[k] == if k < |a| then a[k] else y;
    RankUnique(s, x, k);
  }

  lemma InsertAfterPivot(a: seq<Task>, y: Task, b: seq<Task>, x: Task)
    requires Sorted(a + [y] + b) && Before(y, x)
    ensures InsertSorted(a + [y] + b, x) == a + [y] + InsertSorted(b, x)
  {
    var s := a + [y] + b;
    SortedParts(a, y, b);
    RankSplits(b, x);
    var k := |a| + 1 + Rank(b, x);
    forall i | 0 <= i < k ensures Before(s[i], x) {
      if i < |a| { assert Before(a[i], y); } else if i > |a| { assert s[i] == b[i - |a| - 1]; }
    }
    if k < |s| { assert s[k] == b[Rank(b, x)]; }
    RankUnique(s, x, k);
    assert s[..k] == a + [y] + b[..Rank(b, x)];
    assert s[k..] == b[Rank(b, x)..];
  }

  lemma RotateRight(l: Tree, y: Task, r: Tree)
    requires l.Node?
    ensures InOrder(Node(l.left, l.task, Node(l.right, y, r))) == InOrder(Node(l, y, r))
  {
    Regroup(InOrder(l.left), l.task, InOrder(l.right), y, InOrder(r));
  }

  lemma Regroup(a: seq<Task>, y: Task, b: seq<Task>, z: Task, c: seq<Task>)
    ensures (a + [y] + b) + [z] + c == a + [y] + (b + [z] + c)
  {
  }

  lemma RotateLeft(l: Tree, y: Task, r: Tree)
    requires r.Node?
    ensures InOrder(Node(Node(l, y, r.left), r.task, r.right)) == InOrder(Node(l, y, r))
  {
    Regroup(InOrder(l), y, InOrder(r.left), r.task, InOrder(r.right));
  }

  /** Insertion puts the task at its place in the order and moves nothing else. */
  lemma {:induction false} InsertInOrder(t: Tree, x: Task)
    requires Sorted(InOrder(t))
    requires forall y <- InOrder(t) :: Before(x, y) || Before(y, x)
    ensures InOrder(Insert(t, x)) == InsertSorted(InOrder(t), x)
  {
    hide InsertSorted, Sorted;
    if t.Node? {
      var a, y, b := InOrder(t.left), t.task, InOrder(t.right);
      assert y in InOrder(t);
      SortedParts(a, y, b);
      if Before(x, y) {
        InsertBeforePivot(a, y, b, x);
        InsertInOrder(t.left, x);
        RotateRight(Insert(t.left, x), y, t.right);
      } else {
        InsertAfterPivot(a, y, b, x);
        InsertInOrder(t.right, x);
        RotateLeft(t.left, y, Insert(t.right, x));
      }
    } else {
      InsertIntoEmpty(x);
    }
  }

  lemma InsertIntoEmpty(x: Task)
    ensures InsertSorted([], x) == [x]
  {
  }

  lemma InsertSortedSorted(s: seq<Task>, x: Task)
    requires Sorted(s)
    requires forall y <- s :: Before(x, y) || Before(y, x)
    ensures Sorted(InsertSorted(s, x))
    ensures multiset(InsertSorted(s, x)) == multiset(s) + multiset{x}
  {
    RankSplits(s, x);
    var k := Rank(s, x);
    assert s == s[..k] + s[k..];
    forall i | k <= i < |s| ensures Before(x, s[i]) { assert s[i] in s; }
  }

  /** Without the task at position `k`. */
  function Without(s: seq<Task>, k: nat): seq<Task>
    requires k < |s|
  {
    s[..k] + s[k + 1..]
  }

  lemma WithoutAround(a: seq<Task>, y: Task, b: seq<Task>, k: nat)
    requires k < |a + [y] + b|
    ensures k < |a| ==> (a + [y] + b)[k] == a[k] && Without(a + [y] + b, k) == Without(a, k) + [y] + b
    ensures k == |a| ==> (a + [y] + b)[k] == y && Without(a + [y] + b, k) == a + b
    ensures k > |a| ==> (a + [y] + b)[k] == b[k - |a| - 1]
                        && Without(a + [y] + b, k) == a + [y] + Without(b, k - |a| - 1)
  {
  }

  /** Deletion removes exactly the task asked for. */
  lemma {:induction false} DeleteInOrder(t: Tree, k: nat)
    requires Sorted(InOrder(t)) && k < |InOrder(t)|
    ensures InOrder(Delete(t, InOrder(t)[k])) == Without(InOrder(t), k)
  {
    hide Without, Sorted;
    var a, y, b := InOrder(t.left), t.task, InOrder(t.right);
    SortedParts(a, y, b);
    WithoutAround(a, y, b, k);
    if k < |a| {
      DeleteInOrder(t.left, k);
    } else if k == |a| {
      MergeInOrder(t.left, t.right);
    } else {
      DeleteInOrder(t.right, k - |a| - 1);
    }
  }

  lemma {:induction false} LeftmostIsFirst(t: Tree)
    requires t.Node?
    ensures |InOrder(t)| > 0 && Leftmost(t) == InOrder(t)[0]
  {
    if t.left.Node? { LeftmostIsFirst(t.left); }
  }

  // ---- heap order ------------------------------------------------------------------

  lemma {:induction false} MergeHeap(l: Tree, r: Tree)
    requires Heap(l) && Heap(r)
    ensures Heap(Merge(l, r))
    ensures forall p :: Below(l, p) && Below(r, p) ==> Below(Merge(l, r), p)
    decreases l, r
  {
    if l.Node? && r.Node? {
      if l.task.prio > r.task.prio {
        MergeHeap(l.right, r);
      } else {
        MergeHeap(l, r.left);
      }
    }
  }

  lemma {:induction false} InsertHeap(t: Tree, x: Task)
    requires Heap(t)
    ensures Heap(Insert(t, x))
    ensures forall p :: Below(t, p) && x.prio <= p ==> Below(Insert(t, x), p)
    ensures t.Node? ==> Below(Insert(t, x), if x.prio > t.task.prio then x.prio else t.task.prio)
  {
    if t.Node? {
      if Before(x, t.task) {
        InsertHeap(t.left, x);
        InsertRoot(t.left, x);
      } else {
        InsertHeap(t.right, x);
        InsertRoot(t.right, x);
      }
    }
  }

  /** After an insertion the root is the new task or the old root. */
  lemma {:induction false} InsertRoot(t: Tree, x: Task)
    requires Heap(t)
    ensures Insert(t, x).task == x || (t.Node? && Insert(t, x).task == t.task)
    ensures Insert(t, x).task == x && t.Node? ==>
              && Below(Insert(t, x).left, if t.task.prio < x.prio then t.task.prio else x.prio)
              && Below(Insert(t, x).right, if t.task.prio < x.prio then t.task.prio else x.prio)
  {
    if t.Node? {
      if Before(x, t.task) { InsertRoot(t.left, x); } else { InsertRoot(t.right, x); }
    }
  }

  lemma {:induction false} DeleteHeap(t: Tree, x: Task)
    requires Heap(t)
    ensures Heap(Delete(t, x))
    ensures forall p :: Below(t, p) ==> Below(Delete(t, x), p)
  {
    if t.Node? {
      if x == t.task {
        MergeHeap(t.left, t.right);
      } else if Before(x, t.task) {
        DeleteHeap(t.left, x);
      } else {
        DeleteHeap(t.right, x);
      }
    }
  }
}
