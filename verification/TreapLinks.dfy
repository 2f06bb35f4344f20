/** The treap as linked processes: each pointer operation of src/kernel/proc.c carries out the
    corresponding operation on tree values, touching only the links of the processes in the tree. */
module TreapLinks {
  import opened Treap

  ghost function Procs(t: Tree): set<Proc> {
    match t
    case Leaf => {}
    case Node(l, x, r) => Procs(l) + {x.p} + Procs(r)
  }

  /** No process occurs twice. */
  ghost predicate Distinct(t: Tree) {
    match t
    case Leaf => true
    case Node(l, x, r) =>
      && Distinct(l) && Distinct(r)
      && x.p !in Procs(l) && x.p !in Procs(r) && Procs(l) !! Procs(r)
  }

  /** The task a process would be queued as. */
  ghost function TaskOf(p: Proc): Task
    reads p`vruntime, p`deadline, p`tprio
  {
    Task(p, p.pid, p.vruntime, p.deadline, p.tprio)
  }

  /** Following the links from `root` gives the tree `t`. */
  ghost predicate Linked(root: Proc?, t: Tree)
    reads Procs(t)`tl, Procs(t)`tr, Procs(t)`vruntime, Procs(t)`deadline, Procs(t)`tprio
  {
    match t
    case Leaf => root == null
    case Node(l, x, r) => root == x.p && x == TaskOf(x.p) && Linked(x.p.tl, l) && Linked(x.p.tr, r)
  }

  method TrMerge(l: Proc?, r: Proc?, ghost lt: Tree, ghost rt: Tree, ghost all: set<Proc>) returns (root: Proc?)
    requires Procs(lt) + Procs(rt) <= all
    requires Linked(l, lt) && Linked(r, rt)
    requires Distinct(lt) && Distinct(rt) && Procs(lt) !! Procs(rt)
    modifies (Procs(lt) + Procs(rt))`tl, (Procs(lt) + Procs(rt))`tr
    ensures Linked(root, Merge(lt, rt))
    ensures Distinct(Merge(lt, rt)) && Procs(Merge(lt, rt)) == Procs(lt) + Procs(rt)
    decreases lt, rt
  {
    if l == null {
      return r;
    }
    if r == null {
      return l;
    }
    if l.tprio > r.tprio {
      MergeUnderLeft(l, r, lt, rt, all);
      return l;
    }
    MergeUnderRight(l, r, lt, rt, all);
    return r;
  }

  /** The right subtree of `l` takes `r` in. */
  method MergeUnderLeft(l: Proc, r: Proc, ghost lt: Tree, ghost rt: Tree, ghost all: set<Proc>)
    requires Procs(lt) + Procs(rt) <= all
    requires Linked(l, lt) && Linked(r, rt)
    requires Distinct(lt) && Distinct(rt) && Procs(lt) !! Procs(rt) && l.tprio > r.tprio
    modifies (Procs(lt) + Procs(rt))`tl, (Procs(lt) + Procs(rt))`tr
    ensures Linked(l, Merge(lt, rt))
    ensures Distinct(Merge(lt, rt)) && Procs(Merge(lt, rt)) == Procs(lt) + Procs(rt)
    decreases lt, rt, 0
  {
    var m := TrMerge(l.tr, r, lt.right, rt, all);
    assert Linked(l.tl, lt.left);
    l.tr := m;
    assert Linked(l.tl, lt.left) && Linked(l.tr, Merge(lt.right, rt));
  }

  /** The left subtree of `r` takes `l` in. */
  method MergeUnderRight(l: Proc, r: Proc, ghost lt: Tree, ghost rt: Tree, ghost all: set<Proc>)
    requires Procs(lt) + Procs(rt) <= all
    requires Linked(l, lt) && Linked(r, rt)
    requires Distinct(lt) && Distinct(rt) && Procs(lt) !! Procs(rt) && l.tprio <= r.tprio
    modifies (Procs(lt) + Procs(rt))`tl, (Procs(lt) + Procs(rt))`tr
    ensures Linked(r, Merge(lt, rt))
    ensures Distinct(Merge(lt, rt)) && Procs(Merge(lt, rt)) == Procs(lt) + Procs(rt)
    decreases lt, rt, 0
  {
    var m := TrMerge(l, r.tl, lt, rt.left, all);
    assert Linked(r.tr, rt.right);
    r.tl := m;
    assert Linked(r.tl, Merge(lt, rt.left)) && Linked(r.tr, rt.right);
  }

  /** Lifts the left child over the root. */
  method LiftLeft(root: Proc, l: Proc, ghost t: Tree, ghost all: set<Proc>)
    requires Procs(t) <= all
    requires Linked(root, t) && Distinct(t) && t.left.Node? && root.tl == l
    modifies root`tl, l`tr
    ensures Linked(l, LiftedLeft(t))
    ensures Distinct(LiftedLeft(t)) && Procs(LiftedLeft(t)) == Procs(t)
  {
    ghost var lt := t.left;
    assert Linked(l.tl, lt.left) && Linked(l.tr, lt.right) && Linked(root.tr, t.right);
    root.tl := l.tr;
    assert Linked(l.tl, lt.left) && Linked(root.tl, lt.right) && Linked(root.tr, t.right);
    l.tr := root;
    assert Linked(l.tl, lt.left) && Linked(root.tl, lt.right) && Linked(root.tr, t.right);
    assert Linked(root, Node(lt.right, t.task, t.right));
  }

  ghost function LiftedLeft(t: Tree): Tree
    requires t.Node? && t.left.Node?
  {
    Node(t.left.left, t.left.task, Node(t.left.right, t.task, t.right))
  }

  /** Lifts the right child over the root. */
  method LiftRight(root: Proc, r: Proc, ghost t: Tree, ghost all: set<Proc>)
    requires Procs(t) <= all
    requires Linked(root, t) && Distinct(t) && t.right.Node? && root.tr == r
    modifies root`tr, r`tl
    ensures Linked(r, LiftedRight(t))
    ensures Distinct(LiftedRight(t)) && Procs(LiftedRight(t)) == Procs(t)
  {
    ghost var rt := t.right;
    assert Linked(r.tr, rt.right) && Linked(r.tl, rt.left) && Linked(root.tl, t.left);
    root.tr := r.tl;
    assert Linked(r.tr, rt.right) && Linked(root.tr, rt.left) && Linked(root.tl, t.left);
    r.tl := root;
    assert Linked(r.tr, rt.right) && Linked(root.tr, rt.left) && Linked(root.tl, t.left);
    assert Linked(root, Node(t.left, t.task, rt.left));
  }

  ghost function LiftedRight(t: Tree): Tree
    requires t.Node? && t.right.Node?
  {
    Node(Node(t.left, t.task, t.right.left), t.right.task, t.right.right)
  }

  method TrInsert(root: Proc?, p: Proc, ghost t: Tree, ghost all: set<Proc>) returns (r: Proc)
    requires Procs(t) <= all
    requires Linked(root, t) && Distinct(t) && p !in Procs(t)
    modifies (Procs(t) + {p})`tl, (Procs(t) + {p})`tr
    ensures Linked(r, Insert(t, TaskOf(p)))
    ensures Distinct(Insert(t, TaskOf(p))) && Procs(Insert(t, TaskOf(p))) == Procs(t) + {p}
    decreases t
  {
    if root == null {
      p.tl, p.tr := null, null;
      return p;
    }
    if KeyBefore(p, root) {
      r := InsertLeft(root, p, t, all);
    } else {
      r := InsertRight(root, p, t, all);
    }
  }

  method InsertLeft(root: Proc, p: Proc, ghost t: Tree, ghost all: set<Proc>) returns (r: Proc)
    requires Procs(t) <= all
    requires Linked(root, t) && Distinct(t) && p !in Procs(t) && Before(TaskOf(p), t.task)
    modifies (Procs(t) + {p})`tl, (Procs(t) + {p})`tr
    ensures Linked(r, Insert(t, TaskOf(p)))
    ensures Distinct(Insert(t, TaskOf(p))) && Procs(Insert(t, TaskOf(p))) == Procs(t) + {p}
    decreases t, 0
  {
    var l := TrInsert(root.tl, p, t.left, all);
    ghost var t' := Node(Insert(t.left, TaskOf(p)), t.task, t.right);
    assert Linked(root.tr, t.right);
    root.tl := l;
    assert Linked(l, t'.left) && Linked(root.tr, t.right);
    assert Linked(root, t');
    if l.tprio > root.tprio {
      LiftLeft(root, l, t', all + {p});
      return l;
    }
    return root;
  }

  method InsertRight(root: Proc, p: Proc, ghost t: Tree, ghost all: set<Proc>) returns (r: Proc)
    requires Procs(t) <= all
    requires Linked(root, t) && Distinct(t) && p !in Procs(t) && !Before(TaskOf(p), t.task)
    modifies (Procs(t) + {p})`tl, (Procs(t) + {p})`tr
    ensures Linked(r, Insert(t, TaskOf(p)))
    ensures Distinct(Insert(t, TaskOf(p))) && Procs(Insert(t, TaskOf(p))) == Procs(t) + {p}
    decreases t, 0
  {
    var q := TrInsert(root.tr, p, t.right, all);
    ghost var t' := Node(t.left, t.task, Insert(t.right, TaskOf(p)));
    assert Linked(root.tl, t.left);
    root.tr := q;
    assert Linked(q, t'.right) && Linked(root.tl, t.left);
    assert Linked(root, t');
    if q.tprio > root.tprio {
      LiftRight(root, q, t', all + {p});
      return q;
    }
    return root;
  }

  predicate KeyBefore(a: Proc, b: Proc)
    reads a`vruntime, a`deadline, a`tprio, b`vruntime, b`deadline, b`tprio
    ensures KeyBefore(a, b) == Before(TaskOf(a), TaskOf(b))
  {
    if a.deadline != b.deadline then a.deadline < b.deadline else a.pid < b.pid
  }

  method TrDelete(root: Proc?, p: Proc, ghost t: Tree, ghost all: set<Proc>) returns (r: Proc?)
    requires Procs(t) <= all
    requires Linked(root, t) && Distinct(t)
    modifies Procs(t)`tl, Procs(t)`tr
    ensures Linked(r, Delete(t, TaskOf(p)))
    ensures Distinct(Delete(t, TaskOf(p))) && Procs(Delete(t, TaskOf(p))) <= Procs(t)
    decreases t
  {
    if root == null {
      return null;
    }
    if root == p {
      r := TrMerge(p.tl, p.tr, t.left, t.right, all);
      return;
    }
    if KeyBefore(p, root) {
      var l := TrDelete(root.tl, p, t.left, all);
      assert Linked(root.tr, t.right);
      root.tl := l;
      assert Linked(root.tl, Delete(t.left, TaskOf(p))) && Linked(root.tr, t.right);
    } else {
      var q := TrDelete(root.tr, p, t.right, all);
      assert Linked(root.tl, t.left);
      root.tr := q;
      assert Linked(root.tl, t.left) && Linked(root.tr, Delete(t.right, TaskOf(p)));
    }
    return root;
  }

  method TrLeftmost(root: Proc?, ghost t: Tree) returns (r: Proc?)
    requires Linked(root, t)
    ensures r == null <==> t.Leaf?
    ensures r != null ==> TaskOf(r) == Leftmost(t)
  {
    r := root;
    ghost var rest := t;
    while r != null && r.tl != null
      invariant Linked(r, rest)
      invariant rest.Leaf? <==> t.Leaf?
      invariant t.Node? ==> Leftmost(rest) == Leftmost(t)
      decreases rest
    {
      r := r.tl;
      rest := rest.left;
    }
  }
}
