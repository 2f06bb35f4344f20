/** The tmpfs namespace operations of src/fs/tmpfs.c on the node pool. */
module Tmpfs {
  import opened Prelude
  import opened Paths
  import opened NameTree
  import opened TmpfsPool

  const PATH_MAX: nat := 256

  datatype Errno = OK | ENOENT | EEXIST | ENOSPC | EISDIR | ENOTDIR | ENOTEMPTY | EBUSY | EINVAL

  // ---- splitting a path into parent and leaf -----------------------------------------------

  /** The length of `s` without trailing slashes, but never less than one of a non-empty path. */
  function Trimmed(s: Path, n: nat): (m: nat)
    requires n <= |s|
    ensures m <= n && (n > 0 ==> m > 0)
  {
    if n > 1 && s[n - 1] == '/' then Trimmed(s, n - 1) else n
  }

  /** The last slash before position `n`, or 0. */
  function LastSlash(s: Path, n: nat): (i: nat)
    requires n <= |s|
    ensures n > 0 ==> i < n
  {
    if n == 0 then 0 else if s[n - 1] == '/' then n - 1 else LastSlash(s, n - 1)
  }

  /** The parent's path and the leaf name, as `split_parent` cuts them. */
  function SplitOf(rel: Path): (r: Option<(Path, string)>)
    ensures r.Some? ==> r.value.1 != [] && |r.value.1| < NAME_MAX
  {
    var tmp := if |rel| < PATH_MAX then rel else rel[..PATH_MAX - 1];
    var n := Trimmed(tmp, |tmp|);
    if n == 0 || tmp[..n] == "/" then None
    else
      var slash := LastSlash(tmp, n);
      var leaf := tmp[slash + 1..n];
      if leaf == [] || |leaf| >= NAME_MAX then None
      else Some((if slash == 0 then "/" else tmp[..slash], leaf))
  }

  /** Where an absolute path leads; symbolic links are not followed. */
  ghost function WalkTo(t: Tree, rel: Path): Option<Id> {
    if rel == [] || rel[0] != '/' then None else Visit(t, t.root, Components(rel))
  }

  /** The directory and the entry name that `rel` stands for. */
  ghost function Place(t: Tree, rel: Path): Option<(Id, string)> {
    var (parent, leaf) :- SplitOf(rel);
    var d :- WalkTo(t, parent);
    Some((d, leaf))
  }

  ghost predicate FreeOk(free: seq<Id>, t: Tree) {
    && NoDup(free)
    && forall x <- free :: x < MAX_NODES && x !in Nodes(t)
  }

  /** Reference counts match the open handles `opens` of every slot: an attached node has one
      reference more, a detached one lives exactly as long as a handle or a mapping does, and a free
      slot has neither. */
  ghost predicate HandlesOk(pool: Pool, free: seq<Id>, t: Tree, opens: seq<nat>) {
    && |opens| == |pool|
    && forall x: Id | x < |pool| :: SlotOk(pool[x], x in Nodes(t), x in free, opens[x])
  }

  predicate SlotOk(n: Node, attached: bool, isFree: bool, opens: nat) {
    if attached then n.refs == 1 + opens && !n.unlinked && (n.kind.Dir? ==> opens == 0 && n.mappers == 0)
    else if isFree then opens == 0 && n.mappers == 0
    else n.unlinked && n.refs == opens && (opens > 0 || n.mappers > 0)
  }

  /** The result of creating a node at `rel`: its parent must be a directory, the entry free and a
      slot available. */
  ghost function MakeOutcome(t: Tree, pool: Pool, free: seq<Id>, rel: Path, room: bool): Errno {
    var p := Place(t, rel);
    if p.None? || !IsDir(pool, p.value.0) then ENOENT
    else if Child(t, p.value.0, p.value.1).Some? then EEXIST
    else if free == [] || !room then ENOSPC
    else OK
  }

  /** A node is made exactly when its directory exists, has no such entry, and there is room. */
  lemma MakeAllowed(t: Tree, pool: Pool, free: seq<Id>, rel: Path, room: bool)
    ensures MakeOutcome(t, pool, free, rel, room) == OK <==>
              Place(t, rel).Some? && IsDir(pool, Place(t, rel).value.0) && Entry(t, rel).None? && free != [] && room
    ensures MakeOutcome(t, pool, free, rel, room) == EEXIST ==> Entry(t, rel).Some?
  {
    hide Place, Child;
  }

  /** A success takes the top free slot, a failure none. */
  ghost predicate SlotsLeft(before: seq<Id>, after: seq<Id>, r: Errno, x: Id) {
    if r == OK then before == after + [x] else after == before
  }

  ghost predicate KindsKept(t: Tree, pool: Pool, pool': Pool) {
    forall x <- t.rank :: x < |pool| && x < |pool'| && pool'[x].kind == pool[x].kind
  }

  /** The node that the entry `rel` names. */
  ghost function Entry(t: Tree, rel: Path): Option<Id> {
    var (d, leaf) :- Place(t, rel);
    Child(t, d, leaf)
  }

  predicate IsDir(pool: Pool, x: Id) { x < |pool| && pool[x].kind.Dir? }

  ghost function UnlinkOutcome(t: Tree, pool: Pool, rel: Path): Errno {
    if Components(rel) == [] then EISDIR
    else if Entry(t, rel).None? then ENOENT
    else if IsDir(pool, Entry(t, rel).value) then EISDIR
    else OK
  }

  ghost function RmdirOutcome(t: Tree, pool: Pool, rel: Path): Errno {
    if Components(rel) == [] then EBUSY
    else if Entry(t, rel).None? then ENOENT
    else if !IsDir(pool, Entry(t, rel).value) then ENOTDIR
    else if HasChildren(t, Entry(t, rel).value) then ENOTEMPTY
    else OK
  }

  /** The fields that reference counting looks at. */
  predicate SameCount(m: Node, n: Node) {
    n.refs == m.refs && n.mappers == m.mappers && n.unlinked == m.unlinked && n.kind == m.kind
  }

  ghost predicate SameCounts(pool: Pool, pool': Pool) {
    |pool'| == |pool| && forall y: Id | y < |pool| :: SameCount(pool[y], pool'[y])
  }

  ghost function RenameOutcome(t: Tree, pool: Pool, srel: Path, drel: Path): Errno
    requires WellFormed(t)
  {
    if Components(srel) == [] || Components(drel) == [] then EBUSY
    else if Entry(t, srel).None? || Place(t, drel).None? || !IsDir(pool, Place(t, drel).value.0) then ENOENT
    else
      var src, (d, leaf) := Entry(t, srel).value, Place(t, drel).value;
      if d in t.rank && Under(t, d, src) then EINVAL
      else ReplaceOutcome(t, pool, src, Child(t, d, leaf))
  }

  /** Whether `src` may take the place of `dst`: nothing, itself, or something of its own kind that is
      empty. */
  ghost function ReplaceOutcome(t: Tree, pool: Pool, src: Id, dst: Option<Id>): Errno {
    if dst.None? || dst.value == src then OK
    else if IsDir(pool, dst.value) && !IsDir(pool, src) then EISDIR
    else if !IsDir(pool, dst.value) && IsDir(pool, src) then ENOTDIR
    else if IsDir(pool, dst.value) && HasChildren(t, dst.value) then ENOTEMPTY
    else OK
  }

  /** A rename goes ahead exactly when both paths lead below the root, the source exists, the destination's
      directory does and is no part of the source, and what stands there, if anything else, is of the same
      kind and empty. */
  lemma RenameAllowed(t: Tree, pool: Pool, srel: Path, drel: Path)
    requires WellFormed(t)
    ensures RenameOutcome(t, pool, srel, drel) == OK <==>
              && Components(srel) != [] && Components(drel) != []
              && Entry(t, srel).Some? && Place(t, drel).Some? && IsDir(pool, Place(t, drel).value.0)
              && !(Place(t, drel).value.0 in t.rank && Under(t, Place(t, drel).value.0, Entry(t, srel).value))
              && (Entry(t, drel).None? || Entry(t, drel) == Entry(t, srel)
                  || (&& (IsDir(pool, Entry(t, srel).value) <==> IsDir(pool, Entry(t, drel).value))
                      && !(IsDir(pool, Entry(t, drel).value) && HasChildren(t, Entry(t, drel).value))))
  {
    hide Components, Place, Child, Under, HasChildren;
  }

  /** The three refusals to replace what stands at the destination. */
  lemma ReplaceRefused(t: Tree, pool: Pool, srel: Path, drel: Path)
    requires WellFormed(t) && Entry(t, srel).Some? && Entry(t, drel).Some?
    ensures var r, src, dst := RenameOutcome(t, pool, srel, drel), Entry(t, srel).value, Entry(t, drel).value;
            && (r == EISDIR ==> IsDir(pool, dst) && !IsDir(pool, src))
            && (r == ENOTDIR ==> !IsDir(pool, dst) && IsDir(pool, src))
            && (r == ENOTEMPTY ==> IsDir(pool, dst) && IsDir(pool, src) && HasChildren(t, dst))
  {
    hide Components, Place, Child, Under, HasChildren;
  }

  class Tmpfs {
    var pool: Pool
    var free: seq<Id>
    var root: Id
    var nextIno: nat
    ghost var tree: Tree
    ghost var kids: map<Id, seq<Id>>
    ghost var opens: seq<nat>

    /** The attached nodes form the tree `tree`; the free slots are distinct and lie outside it. */
    ghost predicate Valid()
      reads this
    {
      && |pool| == MAX_NODES
      && Represents(pool, tree, kids) && tree.root == root
      && FreeOk(free, tree)
    }

    ghost predicate Safe()
      reads this
    {
      Valid() && HandlesOk(pool, free, tree, opens)
    }

    constructor ()
      ensures Safe() && tree == Tree(root, map[], map[], map[root := 0]) && IsDir(pool, root)
      ensures |free| == MAX_NODES - 1 && forall x: Id :: x in free <==> x < MAX_NODES && x != root
      ensures opens == seq(MAX_NODES, i => 0)
    {
      var blank := Node([], File, 0, [], NIL, NIL, NIL, 0, 0, false);
      var slots := seq(MAX_NODES, i requires 0 <= i < MAX_NODES => MAX_NODES - 1 - i);
      pool := seq(MAX_NODES, i => blank)[0 := blank.(name := "/", kind := Dir, ino := 1, refs := 1)];
      free := slots[..MAX_NODES - 1];
      root, nextIno := 0, 2;
      tree := Tree(0, map[], map[], map[0 := 0]);
      kids := map[0 := []];
      opens := seq(MAX_NODES, i => 0);
      new;
      forall x: Id | x < MAX_NODES && x != 0 ensures x in free {
        assert free[MAX_NODES - 1 - x] == x;
      }
    }

    method FindChild(dir: Id, name: string) returns (r: int)
      requires Valid() && dir in tree.rank
      ensures r == NIL <==> Child(tree, dir, name).None?
      ensures r != NIL ==> r >= 0 && Child(tree, dir, name) == Some(r)
    {
      hide Represents, Lists, FreeOk, Child;
      KidsOf(pool, tree, kids, dir);
      WellFormedTree();
      ghost var s, i := kids[dir], 0;
      var c := pool[dir].children;
      assert s[0..] == s;
      while c != NIL
        invariant i <= |s| && Chain(pool, c, s[i..])
        invariant forall k | 0 <= k < i :: s[k] in tree.name && tree.name[s[k]] != name
        decreases |s| - i
      {
        assert c == s[i] && s[i] in s;
        KidIs(pool, tree, kids, dir, c);
        if pool[c].name == name {
          ChildIs(tree, dir, name, c);
          return c;
        }
        assert s[i..][1..] == s[i + 1..];
        i := i + 1;
        c := pool[c].next;
      }
      NoKid(tree, dir, s, name);
      return NIL;
    }

    lemma WellFormedTree()
      requires Valid()
      ensures WellFormed(tree)
    {
    }

    method Walk(rel: Path) returns (r: int)
      requires Valid()
      ensures r == NIL <==> WalkTo(tree, rel).None?
      ensures r != NIL ==> r >= 0 && r in tree.rank && WalkTo(tree, rel) == Some(r)
    {
      if rel == [] || rel[0] != '/' {
        return NIL;
      }
      hide Components, Represents, FreeOk, Visit, Visit1, WellFormed;
      NoSteps(tree, root);
      ghost var all := Components(rel);
      ghost var done: nat := 0;
      var cur: nat, i: nat := root, 0;
      assert rel[0..] == rel && all[0..] == all;
      RootIsNode();
      while i < |rel|
        invariant i <= |rel| && done <= |all| && Components(rel[i..]) == all[done..]
        invariant cur in tree.rank && Visit(tree, root, all[..done]) == Some(cur)
        decreases |rel| - i
      {
        var start, end := NextComponent(rel, i);
        i := end;
        if start == end {
          assert rel[i..] == [];
          EmptyComponents();
          break;
        }
        var c := rel[start..end];
        assert c == all[done] && all[done..][1..] == all[done + 1..];
        OneStep(tree, root, all, done);
        var next := StepTo(cur, c);
        if next == NIL {
          VisitFails(tree, root, all, done + 1);
          return NIL;
        }
        cur := next;
        done := done + 1;
      }
      assert rel[i..] == [];
      EmptyComponents();
      assert all[..done] == all;
      return cur;
    }

    static lemma NoSteps(t: Tree, from: Id)
      ensures Visit(t, from, []) == Some(from)
    {
    }

    static lemma OneStep(t: Tree, from: Id, all: seq<string>, k: nat)
      requires k < |all| && Visit(t, from, all[..k]).Some?
      ensures Visit(t, from, all[..k + 1]) == Visit1(t, Visit(t, from, all[..k]).value, all[k])
    {
      assert all[..k + 1][..k] == all[..k];
    }

    lemma RootIsNode()
      requires Valid()
      ensures root in tree.rank
    {
    }

    method StepTo(at: Id, c: string) returns (r: int)
      requires Valid() && at in tree.rank
      ensures r == NIL <==> Visit1(tree, at, c).None?
      ensures r != NIL ==> r >= 0 && r in tree.rank && Visit1(tree, at, c) == Some(r)
    {
      if c == "." {
        return at;
      }
      if c == ".." {
        if at in tree.parent { assert NodeOk(pool, tree, at); }
        if pool[at].parent != NIL {
          return pool[at].parent;
        }
        return at;
      }
      r := FindChild(at, c);
    }

    /** `split_parent`: resolves everything but the last component. */
    method SplitParent(rel: Path) returns (r: Option<(Id, string)>)
      requires Valid()
      ensures r == Place(tree, rel)
      ensures r.Some? ==> r.value.0 in tree.rank
    {
      hide Represents, FreeOk, WalkTo;
      var tmp := if |rel| < PATH_MAX then rel else rel[..PATH_MAX - 1];
      var n: nat := |tmp|;
      while n > 1 && tmp[n - 1] == '/'
        invariant n <= |tmp| && Trimmed(tmp, n) == Trimmed(tmp, |tmp|)
      {
        n := n - 1;
      }
      if n == 0 || tmp[..n] == "/" {
        return None;
      }
      var slash := FindLastSlash(tmp, n);
      var leaf := tmp[slash + 1..n];
      if leaf == [] || |leaf| >= NAME_MAX {
        return None;
      }
      var d := Walk(if slash == 0 then "/" else tmp[..slash]);
      if d == NIL {
        return None;
      }
      var dir: nat := d;
      return Some((dir, leaf));
    }

    /** Creates a node at `rel`; `room` says whether the payload arena has room for its target. */
    method MakeNode(rel: Path, kind: Kind, target: string, room: bool) returns (r: Errno, ghost x: Id)
      requires Safe()
      modifies this
      ensures Safe()
      ensures r == MakeOutcome(old(tree), old(pool), old(free), rel, room)
      ensures r == OK ==>
                Added(old(tree), rel, x) && x < |pool| && pool[x].kind == kind && pool[x].target == target
      ensures r != OK ==> tree == old(tree)
      ensures KindsKept(old(tree), old(pool), pool)
      ensures opens == old(opens) && SlotsLeft(old(free), free, r, x)
    {
      hide Child, Place, Represents, FreeOk, HandlesOk;
      x := 0;
      InBounds();
      var place := SplitParent(rel);
      if place.None? || !pool[place.value.0].kind.Dir? {
        return ENOENT, x;
      }
      var (d, leaf) := place.value;
      var c := FindChild(d, leaf);
      if c != NIL {
        return EEXIST, x;
      }
      if free == [] {
        return ENOSPC, x;
      }
      var n := Node(leaf, kind, nextIno, target, NIL, NIL, NIL, 1, 0, false);
      nextIno := nextIno + 1;
      if !room {
        FreeSlotFrame(n);
        pool := pool[free[|free| - 1] := n];
        return ENOSPC, x;
      }
      x := Attach(d, n);
      return OK, x;
    }

    /** Takes the top free slot for `n` and links it in front of the children of `d`. */
    method Attach(d: Id, n: Node) returns (x: Id)
      requires Safe() && d in tree.rank && d < |pool| && pool[d].kind.Dir? && free != []
      requires Child(tree, d, n.name).None? && n.children == NIL && n.refs == 1 && !n.unlinked && n.mappers == 0
      modifies this`pool, this`free, this`tree, this`kids
      ensures Safe() && x !in old(tree).rank && tree == Add(old(tree), x, d, n.name)
      ensures x < |pool| && pool[x].kind == n.kind && pool[x].target == n.target
      ensures KindsKept(old(tree), old(pool), pool)
      ensures x == old(free)[|old(free)| - 1] && free == old(free)[..|old(free)| - 1]
    {
      hide Child, Represents, FreeOk, HandlesOk, Add, Linked;
      InBounds();
      TopFree();
      x := free[|free| - 1];
      AddRepresents(pool, tree, kids, x, d, n.name, n);
      MadeHandles(pool, free, tree, opens, d, n.name, n);
      AddedRoot(tree, x, d, n.name);
      free := free[..|free| - 1];
      pool := pool[x := n.(parent := d, next := pool[d].children)];
      pool := pool[d := pool[d].(children := x)];
      LinkedIs(old(pool), x, d, n, pool);
      tree, kids := Add(tree, x, d, n.name), AddKids(kids, x, d);
    }

    lemma TopFree()
      requires Valid() && free != []
      ensures var x := free[|free| - 1]; x < |pool| && x !in tree.rank
    {
      assert free[|free| - 1] in free;
    }

    lemma InBounds()
      requires Valid()
      ensures tree.rank.Keys == Nodes(tree) == kids.Keys && forall x <- tree.rank :: x < |pool|
    {
      forall x <- tree.rank ensures x < |pool| { if x in tree.parent { assert NodeOk(pool, tree, x); } }
    }

    /** Scribbling on the top free slot changes nothing that matters. */
    lemma FreeSlotFrame(n: Node)
      requires Safe() && free != [] && n.mappers == 0
      ensures var idx := free[|free| - 1];
              && idx < |pool| && idx !in tree.rank
              && Represents(pool[idx := n], tree, kids) && HandlesOk(pool[idx := n], free, tree, opens)
    {
      var idx := free[|free| - 1];
      assert idx in free;
      RepresentsFrame(pool, pool[idx := n], tree, kids);
    }

    lemma ChildlessIffEmpty(x: Id)
      requires Valid() && x in tree.rank
      ensures x < |pool| && (pool[x].children == NIL <==> !HasChildren(tree, x))
      ensures !pool[x].kind.Dir? ==> !HasChildren(tree, x)
    {
      assert ListOk(pool, tree, kids, x);
      if kids[x] != [] { assert kids[x][0] in kids[x]; }
      forall y <- tree.parent ensures pool[tree.parent[y]].kind.Dir? { assert NodeOk(pool, tree, y); }
    }

    lemma ListFacts(d: Id, x: Id)
      requires Valid() && d in kids && x in tree.parent && tree.parent[x] == d
      ensures d < |pool| && Chain(pool, pool[d].children, kids[d]) && NoDup(kids[d]) && x in kids[d]
    {
      assert ListOk(pool, tree, kids, d);
    }

    /** Takes an entry without children out of the tree.  The slot stays allocated. */
    method Unhook(d: Id, x: Id)
      requires Valid() && d in kids && x in tree.parent && tree.parent[x] == d && !HasChildren(tree, x)
      modifies this`pool, this`tree, this`kids
      ensures Valid() && tree == Drop(old(tree), x)
      ensures SameCounts(old(pool), pool)
    {
      hide Represents, HasChildren, Chain, Without, Drop;
      ghost var i: nat;
      ListFacts(d, x);
      pool, i := Detach(pool, d, x, kids[d]);
      DropRepresents(old(pool), pool, tree, kids, d, i);
      LinksCounts(old(pool), pool, d, kids[d]);
      DropFree(free, tree, x);
      tree, kids := Drop(tree, x), DropKids(kids, d, i);
    }

    method Mkdir(rel: Path) returns (r: Errno, ghost x: Id)
      requires Safe()
      modifies this
      ensures Safe() && KindsKept(old(tree), old(pool), pool)
      ensures r == if Components(rel) == [] then EEXIST else MakeOutcome(old(tree), old(pool), old(free), rel, true)
      ensures r == OK ==> Added(old(tree), rel, x) && x < |pool| && pool[x].kind == Dir
      ensures r != OK ==> tree == old(tree)
      ensures opens == old(opens) && SlotsLeft(old(free), free, r, x)
    {
      hide Components, MakeOutcome, Added, HandlesOk, Represents, FreeOk;
      var isRoot := IsFsRoot(rel);
      if isRoot {
        KindsSame();
        return EEXIST, 0;
      }
      r, x := MakeNode(rel, Dir, [], true);
    }

    method CreateFile(rel: Path) returns (r: Errno, ghost x: Id)
      requires Safe()
      modifies this
      ensures Safe() && KindsKept(old(tree), old(pool), pool)
      ensures r == if Components(rel) == [] then EISDIR else MakeOutcome(old(tree), old(pool), old(free), rel, true)
      ensures r == OK ==> Added(old(tree), rel, x) && x < |pool| && pool[x].kind == File
      ensures r != OK ==> tree == old(tree)
      ensures opens == old(opens) && SlotsLeft(old(free), free, r, x)
    {
      hide Components, MakeOutcome, Added, HandlesOk, Represents, FreeOk;
      var isRoot := IsFsRoot(rel);
      if isRoot {
        KindsSame();
        return EISDIR, 0;
      }
      r, x := MakeNode(rel, File, [], true);
    }

    /** `room` says whether the payload arena can hold the target. */
    method MakeSymlink(target: string, rel: Path, room: bool) returns (r: Errno, ghost x: Id)
      requires Safe()
      modifies this
      ensures Safe() && KindsKept(old(tree), old(pool), pool)
      ensures r == if Components(rel) == [] then EEXIST else MakeOutcome(old(tree), old(pool), old(free), rel, room)
      ensures r == OK ==>
                Added(old(tree), rel, x) && x < |pool| && pool[x].kind == Symlink && pool[x].target == target
      ensures r != OK ==> tree == old(tree)
      ensures opens == old(opens) && SlotsLeft(old(free), free, r, x)
    {
      hide Components, MakeOutcome, Added, HandlesOk, Represents, FreeOk;
      var isRoot := IsFsRoot(rel);
      if isRoot {
        KindsSame();
        return EEXIST, 0;
      }
      r, x := MakeNode(rel, Symlink, target, room);
    }

    /** The tree is `before` with the new node `x` at `rel`. */
    ghost predicate Added(before: Tree, rel: Path, x: Id)
      reads this
    {
      && x !in before.rank && Place(before, rel).Some?
      && var (d, leaf) := Place(before, rel).value; d in before.rank && tree == Add(before, x, d, leaf)
    }

    lemma KindsSame()
      requires Valid()
      ensures KindsKept(tree, pool, pool)
    {
      InBounds();
    }

    /** The entry `rel` names, with the directory it stands in. */
    method FindEntry(rel: Path) returns (d: Id, c: int)
      requires Valid()
      ensures c == NIL <==> Entry(tree, rel).None?
      ensures c != NIL ==> c >= 0 && Entry(tree, rel) == Some(c) && HasEntry(d, c)
    {
      hide Child, Place, Represents, FreeOk;
      d, c := 0, NIL;
      var place := SplitParent(rel);
      if place.None? {
        return;
      }
      d := place.value.0;
      c := FindChild(d, place.value.1);
      if c != NIL {
        InBounds();
        WellFormedTree();
        ChildIsNode(tree, d, place.value.1, c);
      }
    }

    ghost predicate HasEntry(d: Id, x: Id)
      reads this
    {
      d in kids && x in tree.parent && tree.parent[x] == d && x in tree.rank && x < |pool| && x != tree.root
    }

    /** Writes a slot outside the tree. */
    method Scribble(x: Id, n: Node)
      requires Valid() && x < |pool| && x !in Nodes(tree)
      modifies this`pool
      ensures Valid() && pool == old(pool)[x := n]
    {
      RepresentsFrame(pool, pool[x := n], tree, kids);
      pool := pool[x := n];
    }

    /** Removes a file or symbolic link; the node lives on while a handle or mapping needs it. */
    method Unlink(rel: Path) returns (r: Errno, ghost x: Id)
      requires Safe()
      modifies this
      ensures Safe()
      ensures r == UnlinkOutcome(old(tree), old(pool), rel)
      ensures r == OK ==> Entry(old(tree), rel) == Some(x) && tree == Drop(old(tree), x)
      ensures r == OK <==> Components(rel) != [] && Entry(old(tree), rel).Some?
                           && !IsDir(old(pool), Entry(old(tree), rel).value)
      ensures r == OK ==> x < |pool| && (x in free <==> pool[x].refs == 0 && pool[x].mappers == 0)
      ensures r != OK ==> tree == old(tree) && free == old(free)
    {
      hide Entry, HandlesOk, Represents, FreeOk, Drop, HasChildren;
      x := 0;
      var isRoot := IsFsRoot(rel);
      if isRoot {
        return EISDIR, x;
      }
      var d, c := FindEntry(rel);
      if c == NIL {
        return ENOENT, x;
      }
      if pool[c].kind.Dir? {
        return EISDIR, x;
      }
      x := c;
      ChildlessIffEmpty(c);
      ghost var pool0 := pool;
      Unhook(d, c);
      UnlinkHandles(pool0, pool, free, old(tree), opens, c);
      Scribble(c, pool[c].(unlinked := true, refs := pool[c].refs - 1));
      if pool[c].refs == 0 && pool[c].mappers == 0 {
        free := free + [c];
      }
      return OK, x;
    }

    /** Takes an entry without children out of the tree and frees its slot, whoever may hold it. */
    method Discard(d: Id, x: Id)
      requires Valid() && HasEntry(d, x) && !HasChildren(tree, x)
      modifies this`pool, this`free, this`tree, this`kids
      ensures Valid() && tree == Drop(old(tree), x) && free == old(free) + [x]
      ensures SameCounts(old(pool), pool)
    {
      hide Represents, Drop, HasChildren;
      FreedOk(free, tree, x);
      Unhook(d, x);
      free := free + [x];
    }

    method Rmdir(rel: Path) returns (r: Errno, ghost x: Id)
      requires Safe()
      modifies this
      ensures Safe()
      ensures r == RmdirOutcome(old(tree), old(pool), rel)
      ensures r == OK <==> Components(rel) != [] && Entry(old(tree), rel).Some?
                           && IsDir(old(pool), Entry(old(tree), rel).value)
                           && !HasChildren(old(tree), Entry(old(tree), rel).value)
      ensures r == OK ==> Entry(old(tree), rel) == Some(x) && tree == Drop(old(tree), x)
      ensures r != OK ==> tree == old(tree) && free == old(free)
    {
      hide Entry, HandlesOk, Represents, FreeOk, Drop, HasChildren;
      x := 0;
      var isRoot := IsFsRoot(rel);
      if isRoot {
        return EBUSY, x;
      }
      var d, c := FindEntry(rel);
      if c == NIL {
        return ENOENT, x;
      }
      ChildlessIffEmpty(c);
      if !pool[c].kind.Dir? {
        return ENOTDIR, x;
      }
      if pool[c].children != NIL {
        return ENOTEMPTY, x;
      }
      x := c;
      ghost var pool0 := pool;
      DiscardHandles(pool0, free, tree, opens, c);
      Discard(d, c);
      LinksHandles(pool0, pool, free, tree, opens);
      return OK, x;
    }

    /** Whether `src` is `at` or one of its ancestors, by climbing. */
    method IsAncestor(at: Id, src: Id) returns (r: bool)
      requires Valid() && at in tree.rank
      ensures WellFormed(tree) && r == Under(tree, at, src)
    {
      WellFormedTree();
      var a: int := at;
      while a != NIL
        invariant a != NIL ==> a >= 0 && a in tree.rank && Under(tree, at, src) == Under(tree, a, src)
        invariant a == NIL ==> !Under(tree, at, src)
        decreases if a == NIL then 0 else tree.rank[a] + 1
      {
        if a == src {
          return true;
        }
        if a in tree.parent { assert NodeOk(pool, tree, a); }
        a := pool[a].parent;
      }
      return false;
    }

    /** Moves `x` from its directory `from` to entry `s` of `d`. */
    method MoveTo(from: Id, x: Id, d: Id, s: string)
      requires Valid() && HasEntry(from, x) && CanMove(tree, x, d, s) && d in kids && d in tree.rank && IsDir(pool, d)
      modifies this`pool, this`tree, this`kids
      ensures Valid() && tree == Move(old(tree), x, d, s) && SameCounts(old(pool), pool)
    {
      hide Represents, FreeOk, WellFormed, CanMove, Move, SameCounts, IsDir;
      WellFormedTree();
      MovedFree(free, tree, x, d, s);
      ghost var kids': map<Id, seq<Id>>;
      pool, kids' := MoveNode(pool, tree, kids, from, x, d, s);
      tree, kids := Move(tree, x, d, s), kids';
    }

    /** Moves `src` to entry `leaf` of `d`, discarding what stands there. */
    method Replace(from: Id, src: Id, d: Id, leaf: string, dst: int)
      requires Valid() && HasEntry(from, src) && d in kids && d in tree.rank && IsDir(pool, d)
      requires CanRename(tree, src, d, leaf)
      requires if dst == NIL then Child(tree, d, leaf).None? else dst >= 0 && Child(tree, d, leaf) == Some(dst)
      modifies this`pool, this`free, this`tree, this`kids
      ensures Valid() && tree == Rename(old(tree), src, d, leaf) && SameCounts(old(pool), pool)
      ensures free == if dst == NIL then old(free) else old(free) + [dst]
    {
      hide Represents, FreeOk, WellFormed, CanRename, CanMove, Child, HasChildren;
      hide Drop, Move, Rename, SameCounts, IsDir;
      RenameIs(tree, src, d, leaf);
      if dst == NIL {
        MoveTo(from, src, d, leaf);
      } else {
        ghost var pool0 := pool;
        InBounds();
        Discard(d, dst);
        ghost var pool1 := pool;
        InBounds();
        DetachedDir(pool0, pool1, d);
        AfterDiscard(old(tree), from, src, d, leaf);
        MoveTo(from, src, d, leaf);
        CountsTransitive(pool0, pool1, pool);
      }
    }

    /** The checks of `tmpfs_rename`, in its order, and the nodes they find. */
    method CheckRename(srel: Path, drel: Path)
      returns (r: Errno, from: Id, src: Id, d: Id, leaf: string, dst: int)
      requires Valid()
      ensures WellFormed(tree) && r == RenameOutcome(tree, pool, srel, drel)
      ensures r == OK ==>
                && Entry(tree, srel) == Some(src) && Place(tree, drel) == Some((d, leaf))
                && HasEntry(from, src) && d in kids && d in tree.rank && IsDir(pool, d)
                && (if dst == NIL then Child(tree, d, leaf).None? else dst >= 0 && Child(tree, d, leaf) == Some(dst))
                && (dst != src ==> CanRename(tree, src, d, leaf)) && dst < |pool|
                && (dst >= 0 && dst != src ==> (IsDir(pool, src) <==> IsDir(pool, dst)) && !HasChildren(tree, dst))
    {
      hide Represents, FreeOk, Place, Entry, Child, HasChildren, WellFormed, ReplaceOutcome, Under, CanRename;
      r, from, src, d, leaf, dst := ENOENT, 0, 0, 0, [], NIL;
      WellFormedTree();
      InBounds();
      var sRoot := IsFsRoot(srel);
      var dRoot := IsFsRoot(drel);
      if sRoot || dRoot {
        r := EBUSY;
        return;
      }
      var c: int;
      from, c := FindEntry(srel);
      if c == NIL {
        return;
      }
      src := c;
      var place := SplitParent(drel);
      if place.None? || !pool[place.value.0].kind.Dir? {
        return;
      }
      d, leaf := place.value.0, place.value.1;
      var inside := IsAncestor(d, src);
      if inside {
        r := EINVAL;
        return;
      }
      dst := FindChild(d, leaf);
      if dst != NIL { ChildIsNode(tree, d, leaf, dst); }
      r := CheckReplace(src, dst, d, leaf);
      if r == OK && dst != src {
        ReadyToRename(tree, src, d, leaf);
      }
    }

    method CheckReplace(src: Id, dst: int, d: Id, leaf: string) returns (r: Errno)
      requires Valid() && src < |pool|
      requires if dst == NIL then Child(tree, d, leaf).None? else dst >= 0 && Child(tree, d, leaf) == Some(dst)
      ensures r == ReplaceOutcome(tree, pool, src, Child(tree, d, leaf))
      ensures r == OK && dst != NIL && dst != src ==>
                !HasChildren(tree, dst) && (IsDir(pool, src) <==> IsDir(pool, dst))
    {
      hide Represents, FreeOk, Child, HasChildren, WellFormed;
      r := OK;
      if dst != NIL && dst != src {
        WellFormedTree();
        ChildIsNode(tree, d, leaf, dst);
        ChildlessIffEmpty(dst);
        if pool[dst].kind.Dir? && !pool[src].kind.Dir? {
          r := EISDIR;
        } else if !pool[dst].kind.Dir? && pool[src].kind.Dir? {
          r := ENOTDIR;
        } else if pool[dst].kind.Dir? && pool[dst].children != NIL {
          r := ENOTEMPTY;
        }
      }
    }

    /** `tmpfs_rename`.  The tree afterwards is the renamed tree; the reference counts stay right
        exactly when nothing held the replaced node. */
    method RenamePath(srel: Path, drel: Path) returns (r: Errno, ghost src: Id, ghost dst: int)
      requires Safe()
      modifies this
      ensures Valid()
      ensures WellFormed(old(tree)) && r == RenameOutcome(old(tree), old(pool), srel, drel)
      ensures r == OK ==> Renamed(old(tree), srel, drel, src, dst)
      ensures r == OK && dst >= 0 && dst != src ==>
                && src < |old(pool)| && dst < |old(pool)| && !HasChildren(old(tree), dst)
                && (old(pool)[src].kind.Dir? <==> old(pool)[dst].kind.Dir?)
      ensures SameCounts(old(pool), pool)
      ensures r != OK || dst == src ==> tree == old(tree) && free == old(free)
      ensures opens == old(opens) && (r == OK && dst >= 0 && dst != src ==> free == old(free) + [dst])
      ensures Safe() <==> r != OK || dst == src || Unheld(old(pool), old(opens), dst)
    {
      hide Represents, FreeOk, Place, Entry, Child, HandlesOk, WellFormed, CanRename, Rename, HasChildren;
      var from: Id, s: Id, d: Id, leaf: string, z: int;
      r, from, s, d, leaf, z := CheckRename(srel, drel);
      src, dst := s, z;
      if r == OK { EntryIs(tree, drel, d, leaf); }
      if r == OK && z != s {
        RenameHandles(pool, free, tree, opens, s, d, leaf);
        Replace(from, s, d, leaf, z);
        LinksHandles(old(pool), pool, free, tree, opens);
      }
    }

    /** `src` is what `srel` named, `dst` what `drel` named, and the tree is `before` with `src` moved
        to `drel`. */
    ghost predicate Renamed(before: Tree, srel: Path, drel: Path, src: Id, dst: int)
      reads this
    {
      && Entry(before, srel) == Some(src) && Place(before, drel).Some?
      && (if dst == NIL then Entry(before, drel).None? else dst >= 0 && Entry(before, drel) == Some(dst))
      && var (d, leaf) := Place(before, drel).value;
         if dst == src then tree == before
         else CanRename(before, src, d, leaf) && tree == Rename(before, src, d, leaf)
    }

    /** An attached node's slot is not free. */
    lemma InUse(x: Id)
      requires Valid() && x in tree.rank
      ensures x !in free && x < |pool|
    {
    }

    lemma HandleCount()
      requires Safe()
      ensures |opens| == |pool|
    {
    }

    // ---- open handles and mappings ---------------------------------------------------------

    /** Changes the reference counts of one slot. */
    method Recount(x: Id, refs: nat, mappers: nat)
      requires Valid() && x < |pool|
      modifies this`pool
      ensures Valid() && pool == old(pool)[x := old(pool)[x].(refs := refs, mappers := mappers)]
    {
      RepresentsCounts(pool, pool[x := pool[x].(refs := refs, mappers := mappers)], tree, kids);
      pool := pool[x := pool[x].(refs := refs, mappers := mappers)];
    }

    /** Opening a handle on a file that is attached or still held. */
    method Retain(x: Id)
      requires Safe() && x < |pool| && x !in free && !pool[x].kind.Dir?
      modifies this`pool, this`opens
      ensures Safe() && tree == old(tree) && opens == old(opens)[x := old(opens)[x] + 1]
      ensures pool == old(pool)[x := old(pool)[x].(refs := old(pool)[x].refs + 1)]
    {
      hide Represents, FreeOk;
      Recount(x, pool[x].refs + 1, pool[x].mappers);
      opens := opens[x := opens[x] + 1];
    }

    /** Closing a handle; the last one frees a detached node that nothing maps. */
    method Release(x: Id)
      requires Safe() && x < |pool| && opens[x] > 0
      modifies this`pool, this`opens, this`free
      ensures Safe() && tree == old(tree) && opens == old(opens)[x := old(opens)[x] - 1]
      ensures free == if x !in Nodes(tree) && opens[x] == 0 && pool[x].mappers == 0 then old(free) + [x] else old(free)
    {
      hide Represents;
      assert SlotOk(pool[x], x in Nodes(tree), x in free, opens[x]);
      Recount(x, pool[x].refs - 1, pool[x].mappers);
      opens := opens[x := opens[x] - 1];
      if pool[x].refs == 0 && pool[x].unlinked && pool[x].mappers == 0 {
        free := free + [x];
      }
      ReleasedOk(old(pool), pool, old(free), free, tree, old(opens), opens, x);
    }

    method AddMapper(x: Id)
      requires Safe() && x < |pool| && x !in free && !pool[x].kind.Dir?
      modifies this`pool
      ensures Safe() && tree == old(tree) && pool[x].mappers == old(pool)[x].mappers + 1
    {
      hide Represents, FreeOk;
      Recount(x, pool[x].refs, pool[x].mappers + 1);
    }

    /** Dropping a mapping; the last one frees a detached node that nothing has open. */
    method PutMapper(x: Id)
      requires Safe() && x < |pool| && pool[x].mappers > 0
      modifies this`pool, this`free
      ensures Safe() && tree == old(tree)
      ensures free == if x !in Nodes(tree) && opens[x] == 0 && pool[x].mappers == 0 then old(free) + [x] else old(free)
    {
      hide Represents;
      assert SlotOk(pool[x], x in Nodes(tree), x in free, opens[x]);
      Recount(x, pool[x].refs, pool[x].mappers - 1);
      if pool[x].refs == 0 && pool[x].unlinked && pool[x].mappers == 0 {
        free := free + [x];
      }
      ReleasedOk(old(pool), pool, old(free), free, tree, opens, opens, x);
    }
  }

  /** Takes `x` out of the child list `s` of `d`. */
  method Detach(pool: Pool, d: Id, x: Id, ghost s: seq<Id>) returns (pool': Pool, ghost i: nat)
    requires d < |pool| && Chain(pool, pool[d].children, s) && NoDup(s) && x in s
    ensures i < |s| && s[i] == x && OnlyLinks(pool, pool', d, s)
    ensures d < |pool'| && Chain(pool', pool'[d].children, Without(s, i))
  {
    hide Chain, OnlyLinks;
    var prev: int;
    prev, i := FindPrevious(pool, pool[d].children, x, s);
    ChainAt(pool, pool[d].children, s, i);
    if prev == NIL {
      pool' := pool[d := pool[d].(children := pool[x].next)];
      assert Without(s, 0) == s[1..];
      ChainFrame(pool, pool', pool[x].next, s[1..]);
      HeadLinks(pool, d, s, pool[x].next);
    } else {
      pool' := pool[prev := pool[prev].(next := pool[x].next)];
      ChainCut(pool, pool[d].children, s, i);
      HeadAfterCut(pool, d, s, i);
    }
  }

  /** Finds the sibling before `x`. */
  method FindPrevious(pool: Pool, head: int, x: Id, ghost s: seq<Id>) returns (prev: int, ghost i: nat)
    requires Chain(pool, head, s) && x in s
    ensures i < |s| && s[i] == x
    ensures if i == 0 then prev == NIL else prev == s[i - 1] && prev < |pool|
  {
    prev, i := NIL, 0;
    var cur := head;
    assert s[0..] == s;
    while cur != NIL && cur != x
      invariant i <= |s| && Chain(pool, cur, s[i..]) && x !in s[..i]
      invariant if i == 0 then prev == NIL else prev == s[i - 1] && prev < |pool|
      decreases |s| - i
    {
      assert s[i..][1..] == s[i + 1..] && s[..i + 1] == s[..i] + [s[i]];
      prev := cur;
      i := i + 1;
      cur := pool[cur].next;
    }
    assert s[..i] + s[i..] == s;
  }

  lemma HeadLinks(pool: Pool, d: Id, s: seq<Id>, head: int)
    requires d < |pool|
    ensures OnlyLinks(pool, pool[d := pool[d].(children := head)], d, s)
  {
  }

  lemma HeadAfterCut(pool: Pool, d: Id, s: seq<Id>, i: nat)
    requires 0 < i < |s| && d < |pool| && s[i - 1] < |pool| && s[i] < |pool|
    ensures var pool' := pool[s[i - 1] := pool[s[i - 1]].(next := pool[s[i]].next)];
            pool'[d].children == pool[d].children && OnlyLinks(pool, pool', d, s)
  {
    assert s[i - 1] in s;
  }

  method FindLastSlash(tmp: Path, n: nat) returns (slash: nat)
    requires 0 < n <= |tmp|
    ensures slash == LastSlash(tmp, n) < n
  {
    slash := 0;
    for i := 0 to n
      invariant slash == LastSlash(tmp, i)
    {
      if tmp[i] == '/' {
        slash := i;
      }
    }
  }

  lemma ChildIsNode(t: Tree, d: Id, s: string, x: Id)
    requires WellFormed(t) && Child(t, d, s) == Some(x)
    ensures x in t.parent && t.parent[x] == d && x in t.rank && x != t.root
  {
  }

  /** `is_fs_root`: nothing but slashes. */
  method IsFsRoot(rel: Path) returns (r: bool)
    ensures r <==> Components(rel) == []
  {
    var i := 0;
    assert rel[0..] == rel;
    while i < |rel| && rel[i] == '/'
      invariant i <= |rel| && Components(rel[i..]) == Components(rel)
    {
      assert rel[i..][1..] == rel[i + 1..];
      i := i + 1;
    }
    return i == |rel|;
  }

  /** Reference counts after unhooking and unlinking `x`. */
  lemma UnlinkHandles(pool: Pool, pool1: Pool, free: seq<Id>, t: Tree, opens: seq<nat>, x: Id)
    requires HandlesOk(pool, free, t, opens) && FreeOk(free, t) && x in t.parent && x != t.root
    requires x < |pool| == MAX_NODES && SameCounts(pool, pool1)
    ensures pool1[x].refs > 0 && pool1[x].refs == pool[x].refs && x !in free && x !in Nodes(Drop(t, x))
    ensures var n := pool1[x].(unlinked := true, refs := pool1[x].refs - 1);
            var free' := if n.refs == 0 && n.mappers == 0 then free + [x] else free;
            HandlesOk(pool1[x := n], free', Drop(t, x), opens) && FreeOk(free', Drop(t, x))
  {
    var n := pool1[x].(unlinked := true, refs := pool1[x].refs - 1);
    var free' := if n.refs == 0 && n.mappers == 0 then free + [x] else free;
    assert Nodes(Drop(t, x)) == Nodes(t) - {x};
    assert forall y :: y in free' <==> y in free || (y == x && n.refs == 0 && n.mappers == 0);
    assert SlotOk(pool[x], true, x in free, opens[x]) && SameCount(pool[x], pool1[x]);
    forall y: Id | y < |pool| ensures SlotOk(pool1[x := n][y], y in Nodes(Drop(t, x)), y in free', opens[y]) {
      assert SlotOk(pool[y], y in Nodes(t), y in free, opens[y]);
      assert SameCount(pool[y], pool1[y]);
    }
  }

  lemma DetachedDir(pool: Pool, pool': Pool, d: Id)
    requires SameCounts(pool, pool') && IsDir(pool, d)
    ensures d < |pool'| && IsDir(pool', d) && pool'[d].kind.Dir?
  {
    assert SameCount(pool[d], pool'[d]);
  }

  lemma MovedFree(free: seq<Id>, t: Tree, x: Id, d: Id, s: string)
    requires FreeOk(free, t) && CanMove(t, x, d, s)
    ensures FreeOk(free, Move(t, x, d, s)) && Move(t, x, d, s).root == t.root
  {
    assert Nodes(Move(t, x, d, s)) == Nodes(t);
  }

  lemma ReadyToRename(t: Tree, x: Id, d: Id, s: string)
    requires WellFormed(t) && x in t.parent && x in t.rank && d in t.rank && !Under(t, d, x)
    requires Child(t, d, s).Some? ==> Child(t, d, s).value != x && !HasChildren(t, Child(t, d, s).value)
    ensures CanRename(t, x, d, s)
  {
  }

  /** Nothing to hold, or nothing holding it. */
  ghost predicate Unheld(pool: Pool, opens: seq<nat>, x: int) {
    x == NIL || (0 <= x < |opens| && x < |pool| && opens[x] == 0 && pool[x].mappers == 0)
  }

  lemma RenameHandles(pool: Pool, free: seq<Id>, t: Tree, opens: seq<nat>, x: Id, d: Id, s: string)
    requires HandlesOk(pool, free, t, opens) && CanRename(t, x, d, s)
    requires Child(t, d, s).Some? ==> Child(t, d, s).value < |pool|
    ensures Child(t, d, s).None? ==> HandlesOk(pool, free, Rename(t, x, d, s), opens)
    ensures Child(t, d, s).Some? ==>
              var z := Child(t, d, s).value;
              HandlesOk(pool, free + [z], Rename(t, x, d, s), opens) <==> Unheld(pool, opens, z)
  {
    hide HandlesOk, Rename, Move, Drop, Child, CanRename, CanMove, WellFormed, HasChildren;
    RenameIs(t, x, d, s);
    if Child(t, d, s).Some? {
      var z := Child(t, d, s).value;
      DiscardHandles(pool, free, t, opens, z);
      MoveNodes(Drop(t, z), x, d, s);
      HandlesByNodes(pool, free + [z], Drop(t, z), Rename(t, x, d, s), opens);
      HandlesLength(pool, free, t, opens);
    } else {
      MoveNodes(t, x, d, s);
      HandlesByNodes(pool, free, t, Rename(t, x, d, s), opens);
    }
  }

  lemma MoveNodes(t: Tree, x: Id, d: Id, s: string)
    requires CanMove(t, x, d, s)
    ensures WellFormed(t) && Nodes(Move(t, x, d, s)) == Nodes(t)
  {
    assert t.parent[x := d].Keys == t.parent.Keys;
  }

  lemma HandlesByNodes(pool: Pool, free: seq<Id>, t: Tree, t': Tree, opens: seq<nat>)
    requires Nodes(t) == Nodes(t')
    ensures HandlesOk(pool, free, t, opens) <==> HandlesOk(pool, free, t', opens)
  {
  }

  lemma HandlesLength(pool: Pool, free: seq<Id>, t: Tree, opens: seq<nat>)
    requires HandlesOk(pool, free, t, opens)
    ensures |opens| == |pool|
  {
  }

  lemma EntryIs(t: Tree, rel: Path, d: Id, leaf: string)
    requires Place(t, rel) == Some((d, leaf))
    ensures Entry(t, rel) == Child(t, d, leaf)
  {
  }

  lemma RenameIs(t: Tree, x: Id, d: Id, s: string)
    requires CanRename(t, x, d, s)
    ensures WellFormed(t)
    ensures Child(t, d, s).None? ==> CanMove(t, x, d, s) && Rename(t, x, d, s) == Move(t, x, d, s)
    ensures Child(t, d, s).Some? ==>
              var z := Child(t, d, s).value;
              && z in t.parent && t.parent[z] == d && z in t.rank && z != t.root && !HasChildren(t, z)
              && WellFormed(Drop(t, z)) && d in Drop(t, z).rank && CanMove(Drop(t, z), x, d, s)
              && Rename(t, x, d, s) == Move(Drop(t, z), x, d, s)
  {
    if Child(t, d, s).Some? {
      ReplaceOk(t, x, d, s);
      ChildIsNode(t, d, s, Child(t, d, s).value);
    }
  }

  /** Dropping the replaced entry keeps the node to be moved where it was. */
  lemma AfterDiscard(t: Tree, from: Id, x: Id, d: Id, s: string)
    requires CanRename(t, x, d, s) && Child(t, d, s).Some? && x in t.parent && t.parent[x] == from
    ensures var t' := Drop(t, Child(t, d, s).value);
            && x in t'.parent && t'.parent[x] == from && x in t'.rank && from in t'.rank && d in t'.rank
            && x != t'.root
  {
    ReplaceOk(t, x, d, s);
  }

  lemma ListOfParent(pool: Pool, t: Tree, kids: map<Id, seq<Id>>, x: Id)
    requires Represents(pool, t, kids) && x in t.parent && t.parent[x] in kids
    ensures var d := t.parent[x];
            && d < |pool| && x < |pool| && Chain(pool, pool[d].children, kids[d]) && NoDup(kids[d]) && x in kids[d]
  {
    assert ListOk(pool, t, kids, t.parent[x]) && NodeOk(pool, t, x);
  }

  method MoveNode(pool: Pool, ghost t: Tree, ghost kids: map<Id, seq<Id>>, from: Id, x: Id, d: Id, s: string)
    returns (pool': Pool, ghost kids': map<Id, seq<Id>>)
    requires Represents(pool, t, kids) && from in kids && d in kids && IsDir(pool, d)
    requires x in t.parent && t.parent[x] == from
    requires WellFormed(t) && d in t.rank && CanMove(t, x, d, s)
    ensures Represents(pool', Move(t, x, d, s), kids') && |pool'| == |pool| && SameCounts(pool, pool')
  {
    hide Represents, WellFormed, CanMove, Chain, Without, NoDup, Move, OnlyLinks, SameCounts, Relinked, IsDir;
    ghost var i: nat;
    var pool1: Pool;
    ListOfParent(pool, t, kids, x);
    pool1, i := Detach(pool, from, x, kids[from]);
    LinksCounts(pool, pool1, from, kids[from]);
    DetachedDir(pool, pool1, d);
    MoveRepresents(pool, pool1, t, kids, from, i, d, s);
    kids' := MoveKids(kids, from, i, d);
    pool' := Relink(pool1, x, d, s);
    CountsTransitive(pool, pool1, pool');
  }

  /** Renames a detached node and links it in front of the children of `d`. */
  method Relink(pool: Pool, x: Id, d: Id, s: string) returns (pool': Pool)
    requires x < |pool| && d < |pool| && x != d
    ensures pool' == Relinked(pool, x, d, s) && SameCounts(pool, pool')
  {
    pool' := pool[x := pool[x].(name := s, parent := d, next := pool[d].children)];
    pool' := pool'[d := pool'[d].(children := x)];
  }

  lemma CountsTransitive(a: Pool, b: Pool, c: Pool)
    requires SameCounts(a, b) && SameCounts(b, c)
    ensures SameCounts(a, c) && |c| == |a|
  {
    forall y: Id | y < |a| ensures SameCount(a[y], c[y]) {
      assert SameCount(a[y], b[y]) && SameCount(b[y], c[y]);
    }
  }

  /** Letting go of a detached slot, or of one reference to any slot. */
  lemma ReleasedOk(pool: Pool, pool': Pool, free: seq<Id>, free': seq<Id>, t: Tree, opens: seq<nat>,
                   opens': seq<nat>, x: Id)
    requires HandlesOk(pool, free, t, opens) && FreeOk(free, t) && x < |pool| == |pool'| == MAX_NODES
    requires |opens'| == |opens| && x !in free
    requires forall y: Id | y < |pool| && y != x :: pool'[y] == pool[y] && opens'[y] == opens[y]
    requires pool'[x].unlinked == pool[x].unlinked && pool'[x].kind == pool[x].kind
    requires pool[x].refs - opens[x] == pool'[x].refs - opens'[x]
    requires pool[x].kind.Dir? && x in Nodes(t) ==> opens'[x] == 0 && pool'[x].mappers == 0
    requires free' == if pool'[x].refs == 0 && pool'[x].unlinked && pool'[x].mappers == 0 then free + [x] else free
    ensures HandlesOk(pool', free', t, opens') && FreeOk(free', t)
  {
    assert SlotOk(pool[x], x in Nodes(t), x in free, opens[x]);
    forall y: Id | y < |pool| ensures SlotOk(pool'[y], y in Nodes(t), y in free', opens'[y]) {
      if y != x { assert SlotOk(pool[y], y in Nodes(t), y in free, opens[y]); }
    }
  }

  lemma FreedOk(free: seq<Id>, t: Tree, x: Id)
    requires FreeOk(free, t) && x in t.parent && x != t.root && x < MAX_NODES
    ensures FreeOk(free + [x], Drop(t, x)) && x !in free
  {
  }

  /** Freeing the slot of `x` is safe exactly when nothing holds it. */
  lemma DiscardHandles(pool: Pool, free: seq<Id>, t: Tree, opens: seq<nat>, x: Id)
    requires HandlesOk(pool, free, t, opens) && x in t.parent && x != t.root && x < |pool|
    ensures HandlesOk(pool, free + [x], Drop(t, x), opens) <==> opens[x] == 0 && pool[x].mappers == 0
    ensures pool[x].kind.Dir? ==> opens[x] == 0 && pool[x].mappers == 0
  {
    assert Nodes(Drop(t, x)) == Nodes(t) - {x};
    assert SlotOk(pool[x], true, x in free, opens[x]);
    var safe := opens[x] == 0 && pool[x].mappers == 0;
    assert !SlotOk(pool[x], false, true, opens[x]) <==> !safe;
    assert x in free + [x];
    forall y: Id | y < |pool| && y != x
      ensures SlotOk(pool[y], y in Nodes(Drop(t, x)), y in free + [x], opens[y])
    {
      assert SlotOk(pool[y], y in Nodes(t), y in free, opens[y]);
    }
  }

  /** Handles do not depend on the links. */
  lemma LinksHandles(pool: Pool, pool': Pool, free: seq<Id>, t: Tree, opens: seq<nat>)
    requires SameCounts(pool, pool')
    ensures HandlesOk(pool', free, t, opens) <==> HandlesOk(pool, free, t, opens)
  {
    forall y: Id | y < |pool| && |opens| == |pool|
      ensures SlotOk(pool'[y], y in Nodes(t), y in free, opens[y]) == SlotOk(pool[y], y in Nodes(t), y in free, opens[y])
    {
      assert SameCount(pool[y], pool'[y]);
    }
  }

  lemma LinksCounts(pool: Pool, pool': Pool, d: Id, s: seq<Id>)
    requires OnlyLinks(pool, pool', d, s)
    ensures SameCounts(pool, pool')
  {
    forall y: Id | y < |pool| ensures SameCount(pool[y], pool'[y]) {
      assert pool'[y].(children := 0, next := 0) == pool[y].(children := 0, next := 0);
    }
  }

  lemma DropFree(free: seq<Id>, t: Tree, x: Id)
    requires FreeOk(free, t)
    ensures FreeOk(free, Drop(t, x)) && Drop(t, x).root == t.root
  {
  }

  lemma LinkedIs(pool: Pool, x: Id, d: Id, n: Node, pool': Pool)
    requires x < |pool| && d < |pool| && x != d && n.children == NIL
    requires pool' == pool[x := n.(parent := d, next := pool[d].children)][d := pool[d].(children := x)]
    ensures pool' == Linked(pool, x, d, n)
  {
  }

  /** Taking the top free slot for a new entry of `d`. */
  lemma MadeHandles(pool: Pool, free: seq<Id>, t: Tree, opens: seq<nat>, d: Id, s: string, n: Node)
    requires HandlesOk(pool, free, t, opens) && FreeOk(free, t) && free != []
    requires d in t.rank && d < |pool| && d in Nodes(t) && |pool| == MAX_NODES
    requires n.refs == 1 && !n.unlinked && n.mappers == 0
    ensures var x := free[|free| - 1];
            && x < |pool| && x != d
            && FreeOk(free[..|free| - 1], Add(t, x, d, s))
            && HandlesOk(Linked(pool, x, d, n), free[..|free| - 1], Add(t, x, d, s), opens)
  {
    var x := free[|free| - 1];
    assert x in free;
    PoppedFree(free, t, x, d, s);
    var free', t', pool' := free[..|free| - 1], Add(t, x, d, s), Linked(pool, x, d, n);
    hide FreeOk, Add;
    forall y: Id | y < |pool'| ensures SlotOk(pool'[y], y in Nodes(t'), y in free', opens[y]) {
      assert SlotOk(pool[y], y in Nodes(t), y in free, opens[y]);
      assert y in free <==> y in free' || y == x;
    }
  }

  lemma PoppedFree(free: seq<Id>, t: Tree, x: Id, d: Id, s: string)
    requires FreeOk(free, t) && free != [] && x == free[|free| - 1] && d in t.rank
    ensures var free', t' := free[..|free| - 1], Add(t, x, d, s);
            && FreeOk(free', t') && Nodes(t') == Nodes(t) + {x} && x !in free' && x < MAX_NODES && x !in Nodes(t)
            && forall y :: y in free <==> y in free' || y == x
  {
    var free', t' := free[..|free| - 1], Add(t, x, d, s);
    assert free == free' + [x];
    LastIsNew(free);
    assert Nodes(t') == Nodes(t) + {x};
    forall y <- free' ensures y < MAX_NODES && y !in Nodes(t') { assert y in free; }
  }

  lemma LastIsNew(free: seq<Id>)
    requires NoDup(free) && free != []
    ensures NoDup(free[..|free| - 1]) && free[|free| - 1] !in free[..|free| - 1]
  {
  }

  lemma {:induction false} VisitFails(t: Tree, from: Id, cs: seq<string>, n: nat)
    requires n <= |cs| && Visit(t, from, cs[..n]).None?
    ensures Visit(t, from, cs).None?
    decreases |cs|
  {
    if n < |cs| {
      assert cs[..|cs| - 1][..n] == cs[..n];
      VisitFails(t, from, cs[..|cs| - 1], n);
    } else {
      assert cs[..n] == cs;
    }
  }
}
