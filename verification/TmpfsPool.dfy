/** The node pool of src/fs/tmpfs.c: nodes linked by parent, first-child and next-sibling fields,
    and what it means for them to represent a name tree. */
module TmpfsPool {
  import opened Paths
  import opened NameTree

  const NIL: int := -1
  const MAX_NODES: nat := 2048
  const NAME_MAX: nat := 32

  datatype Kind = Dir | File | Symlink

  /** A pool slot.  `refs` counts one reference for the tree and one per open file; `mappers` counts
      address spaces that map the file. */
  datatype Node = Node(name: string, kind: Kind, ino: nat, target: string,
                       parent: int, children: int, next: int, refs: nat, mappers: nat, unlinked: bool)

  type Pool = seq<Node>

  // ---- sibling lists -------------------------------------------------------------------

  /** Following `next` from `head` visits exactly `s` and then ends. */
  ghost predicate Chain(pool: Pool, head: int, s: seq<Id>)
    decreases |s|
  {
    if s == [] then head == NIL
    else head == s[0] && s[0] < |pool| && Chain(pool, pool[s[0]].next, s[1..])
  }

  ghost predicate NoDup(s: seq<Id>) { forall i, j | 0 <= i < j < |s| :: s[i] != s[j] }

  ghost function Without(s: seq<Id>, i: nat): seq<Id>
    requires i < |s|
  {
    s[..i] + s[i + 1..]
  }

  /** A chain depends on nothing but the `next` fields of its members. */
  lemma {:induction false} ChainFrame(pool: Pool, pool': Pool, head: int, s: seq<Id>)
    requires Chain(pool, head, s) && |pool| <= |pool'|
    requires forall x <- s :: x < |pool| ==> pool'[x].next == pool[x].next
    ensures Chain(pool', head, s)
    decreases |s|
  {
    if s != [] {
      assert s[0] in s;
      ChainFrame(pool, pool', pool[s[0]].next, s[1..]);
    }
  }

  lemma {:induction false} ChainAt(pool: Pool, head: int, s: seq<Id>, i: nat)
    requires Chain(pool, head, s) && i < |s|
    ensures s[i] < |pool| && Chain(pool, pool[s[i]].next, s[i + 1..])
    decreases i
  {
    if i > 0 {
      ChainAt(pool, pool[s[0]].next, s[1..], i - 1);
      assert s[1..][i..] == s[i + 1..];
    } else {
      assert s[1..] == s[i + 1..];
    }
  }

  /** Linking the predecessor of `s[i]` to its successor takes `s[i]` out of the chain. */
  lemma {:induction false} ChainCut(pool: Pool, head: int, s: seq<Id>, i: nat)
    requires Chain(pool, head, s) && NoDup(s) && 0 < i < |s|
    requires s[i - 1] < |pool| && s[i] < |pool|
    ensures Chain(pool[s[i - 1] := pool[s[i - 1]].(next := pool[s[i]].next)], head, Without(s, i))
    decreases i
  {
    var pool' := pool[s[i - 1] := pool[s[i - 1]].(next := pool[s[i]].next)];
    var rest := s[1..];
    if i == 1 {
      ChainAt(pool, head, s, 1);
      assert Without(s, 1) == [s[0]] + s[2..];
      forall x <- s[2..] ensures x != s[0] { var k :| 2 <= k < |s| && s[k] == x; }
      ChainFrame(pool, pool', pool[s[1]].next, s[2..]);
    } else {
      assert rest[i - 2] == s[i - 1] && rest[i - 1] == s[i];
      ChainCut(pool, pool[s[0]].next, rest, i - 1);
      assert Without(s, i)[1..] == Without(rest, i - 1);
    }
  }

  // ---- representing a tree ----------------------------------------------------------------

  /** `s` lists exactly the children of `d`, once each. */
  ghost predicate Lists(t: Tree, d: Id, s: seq<Id>) {
    && NoDup(s)
    && (forall x <- s :: x in t.parent && t.parent[x] == d)
    && (forall x <- t.parent :: t.parent[x] == d ==> x in s)
  }

  ghost predicate NodeOk(pool: Pool, t: Tree, x: Id)
    requires x in t.parent && x in t.name
  {
    && x < |pool| && t.parent[x] < |pool|
    && pool[x].parent == t.parent[x] && pool[x].name == t.name[x]
    && pool[t.parent[x]].kind.Dir?
  }

  ghost predicate RootOk(pool: Pool, t: Tree) {
    t.root < |pool| && pool[t.root].parent == NIL && pool[t.root].kind.Dir?
  }

  ghost predicate ListOk(pool: Pool, t: Tree, kids: map<Id, seq<Id>>, d: Id)
    requires d in kids
  {
    d < |pool| && Chain(pool, pool[d].children, kids[d]) && Lists(t, d, kids[d])
  }

  /** Parent pointers match child lists, and both match the tree. */
  ghost predicate Represents(pool: Pool, t: Tree, kids: map<Id, seq<Id>>) {
    && WellFormed(t) && RootOk(pool, t)
    && kids.Keys == Nodes(t)
    && (forall x <- t.parent :: NodeOk(pool, t, x))
    && (forall d <- kids :: ListOk(pool, t, kids, d))
  }

  /** Only a first-child pointer and sibling pointers differ: the children of `d`, and `next` fields
      of nodes in `s`. */
  ghost predicate OnlyLinks(pool: Pool, pool': Pool, d: Id, s: seq<Id>) {
    && |pool'| == |pool|
    && forall x: Id | x < |pool| ::
         && pool'[x].(children := 0, next := 0) == pool[x].(children := 0, next := 0)
         && (x != d ==> pool'[x].children == pool[x].children)
         && (x !in s ==> pool'[x].next == pool[x].next)
  }

  lemma WithoutList(t: Tree, d: Id, s: seq<Id>, i: nat)
    requires Lists(t, d, s) && i < |s|
    ensures NoDup(Without(s, i)) && s[i] !in Without(s, i)
    ensures forall x :: x in Without(s, i) <==> x in s && x != s[i]
  {
    var r := Without(s, i);
    forall x ensures x in r <==> x in s && x != s[i] {
      if x in s && x != s[i] {
        var k :| 0 <= k < |s| && s[k] == x;
        assert r[if k < i then k else k - 1] == x;
      }
      if x in r {
        var k :| 0 <= k < |r| && r[k] == x;
        assert s[if k < i then k else k + 1] == x;
      }
    }
  }

  /** Siblings lists of different directories have no member in common. */
  lemma ListsApart(t: Tree, d: Id, e: Id, s: seq<Id>, r: seq<Id>)
    requires Lists(t, d, s) && Lists(t, e, r) && d != e
    ensures forall x <- r :: x !in s
  {
  }

  /** Slots outside the tree do not matter. */
  lemma RepresentsFrame(pool: Pool, pool': Pool, t: Tree, kids: map<Id, seq<Id>>)
    requires Represents(pool, t, kids) && |pool'| == |pool|
    requires forall x <- Nodes(t) :: x < |pool| ==> pool'[x] == pool[x]
    ensures Represents(pool', t, kids)
  {
    forall d <- kids ensures ListOk(pool', t, kids, d) {
      assert ListOk(pool, t, kids, d);
      ChainFrame(pool, pool', pool[d].children, kids[d]);
    }
    forall x <- t.parent ensures NodeOk(pool', t, x) {
      assert NodeOk(pool, t, x) && t.parent[x] in Nodes(t);
    }
  }

  lemma KidsOf(pool: Pool, t: Tree, kids: map<Id, seq<Id>>, d: Id)
    requires Represents(pool, t, kids) && d in t.rank
    ensures d in kids && d < |pool| && Chain(pool, pool[d].children, kids[d]) && Lists(t, d, kids[d])
  {
    assert ListOk(pool, t, kids, d);
  }

  lemma KidIs(pool: Pool, t: Tree, kids: map<Id, seq<Id>>, d: Id, x: Id)
    requires Represents(pool, t, kids) && d in kids && x in kids[d]
    ensures x < |pool| && IsChild(t, d, pool[x].name, x)
  {
    assert ListOk(pool, t, kids, d) && NodeOk(pool, t, x);
  }

  /** An entry that no listed child is called is not there. */
  lemma NoKid(t: Tree, d: Id, s: seq<Id>, name: string)
    requires Lists(t, d, s) && forall k | 0 <= k < |s| :: s[k] in t.name && t.name[s[k]] != name
    ensures Child(t, d, name).None?
  {
    forall x ensures !IsChild(t, d, name, x) {
      assert x in t.parent && t.parent[x] == d ==> x in s;
    }
  }

  /** Neither do reference counts. */
  lemma RepresentsCounts(pool: Pool, pool': Pool, t: Tree, kids: map<Id, seq<Id>>)
    requires Represents(pool, t, kids) && |pool'| == |pool|
    requires forall x: Id | x < |pool| ::
               pool'[x].(refs := 0, mappers := 0, unlinked := false) == pool[x].(refs := 0, mappers := 0, unlinked := false)
    ensures Represents(pool', t, kids)
  {
    hide WellFormed, Chain, Lists;
    forall d <- kids ensures ListOk(pool', t, kids, d) {
      assert ListOk(pool, t, kids, d);
      forall x <- kids[d] ensures x < |pool| ==> pool'[x].next == pool[x].next {
        SameButCounts(pool, pool', x);
      }
      SameButCounts(pool, pool', d);
      ChainFrame(pool, pool', pool[d].children, kids[d]);
    }
    ParentFacts(t);
    forall x <- t.parent ensures NodeOk(pool', t, x) {
      assert NodeOk(pool, t, x);
      SameButCounts(pool, pool', x);
      SameButCounts(pool, pool', t.parent[x]);
    }
    SameButCounts(pool, pool', t.root);
  }

  lemma SameButCounts(pool: Pool, pool': Pool, x: Id)
    requires |pool'| == |pool|
    requires forall y: Id | y < |pool| ::
               pool'[y].(refs := 0, mappers := 0, unlinked := false) == pool[y].(refs := 0, mappers := 0, unlinked := false)
    ensures x < |pool| ==>
              && pool'[x].name == pool[x].name && pool'[x].kind == pool[x].kind && pool'[x].parent == pool[x].parent
              && pool'[x].children == pool[x].children && pool'[x].next == pool[x].next
  {
    if x < |pool| {
      assert pool'[x].(refs := 0, mappers := 0, unlinked := false) == pool[x].(refs := 0, mappers := 0, unlinked := false);
    }
  }

  // ---- adding ---------------------------------------------------------------------------------

  ghost function AddKids(kids: map<Id, seq<Id>>, x: Id, d: Id): map<Id, seq<Id>>
    requires d in kids
  {
    kids[d := [x] + kids[d]][x := []]
  }

  /** A fresh node linked in front of the children of `d`. */
  function Linked(pool: Pool, x: Id, d: Id, n: Node): Pool
    requires x < |pool| && d < |pool| && x != d
  {
    pool[x := n.(parent := d, children := NIL, next := pool[d].children)][d := pool[d].(children := x)]
  }

  lemma ParentFacts(t: Tree)
    requires WellFormed(t)
    ensures forall y <- t.parent :: y in t.rank && y in t.name && t.parent[y] in t.rank
    ensures t.rank.Keys == Nodes(t) && t.root in t.rank
  {
  }

  lemma AddLists(t: Tree, x: Id, d: Id, s: string, e: Id, r: seq<Id>)
    requires d in t.rank && x !in t.parent && Lists(t, e, r)
    ensures Lists(Add(t, x, d, s), e, if e == d then [x] + r else r)
  {
    if e == d {
      var r' := [x] + r;
      assert forall y :: y in r' <==> y == x || y in r;
      assert NoDup(r');
    }
  }

  lemma AddListOk(pool: Pool, t: Tree, kids: map<Id, seq<Id>>, x: Id, d: Id, s: string, n: Node, e: Id)
    requires d in t.rank && d in kids && x !in t.parent && x < |pool| && d < |pool| && x != d
    requires e in kids && e != x && ListOk(pool, t, kids, e)
    ensures ListOk(Linked(pool, x, d, n), Add(t, x, d, s), AddKids(kids, x, d), e)
  {
    hide Add;
    var pool' := Linked(pool, x, d, n);
    AddLists(t, x, d, s, e, kids[e]);
    assert x !in kids[e];
    ChainFrame(pool, pool', pool[e].children, kids[e]);
    if e == d { assert ([x] + kids[d])[1..] == kids[d]; }
  }

  lemma AddedListOk(pool: Pool, t: Tree, kids: map<Id, seq<Id>>, x: Id, d: Id, s: string, n: Node)
    requires d in t.rank && d in kids && x < |pool| && d < |pool| && x != d
    requires forall y <- t.parent :: t.parent[y] != x
    ensures ListOk(Linked(pool, x, d, n), Add(t, x, d, s), AddKids(kids, x, d), x)
  {
  }

  lemma AddRootOk(pool: Pool, t: Tree, x: Id, d: Id, s: string, n: Node)
    requires RootOk(pool, t) && d in t.rank && x < |pool| && d < |pool| && x != d && x != t.root
    ensures RootOk(Linked(pool, x, d, n), Add(t, x, d, s))
  {
  }

  lemma AddNodeOk(pool: Pool, t: Tree, x: Id, d: Id, s: string, n: Node, y: Id)
    requires d in t.rank && x < |pool| && d < |pool| && x != d && pool[d].kind.Dir? && n.name == s
    requires y != x ==> y in t.parent && y in t.name && t.parent[y] != x && NodeOk(pool, t, y)
    ensures y in Add(t, x, d, s).parent && y in Add(t, x, d, s).name
    ensures NodeOk(Linked(pool, x, d, n), Add(t, x, d, s), y)
  {
  }

  lemma AddRepresents(pool: Pool, t: Tree, kids: map<Id, seq<Id>>, x: Id, d: Id, s: string, n: Node)
    requires Represents(pool, t, kids) && d in t.rank && x !in t.rank && Child(t, d, s).None?
    requires x < |pool| && d < |pool| && pool[d].kind.Dir? && n.name == s
    ensures Represents(Linked(pool, x, d, n), Add(t, x, d, s), AddKids(kids, x, d))
  {
    hide WellFormed, ListOk, NodeOk, RootOk, Child, Linked;
    ParentFacts(t);
    var pool', t', kids' := Linked(pool, x, d, n), Add(t, x, d, s), AddKids(kids, x, d);
    AddWellFormed(t, x, d, s);
    AddRootOk(pool, t, x, d, s, n);
    assert kids'.Keys == Nodes(t');
    forall e <- kids' ensures ListOk(pool', t', kids', e) {
      if e == x { AddedListOk(pool, t, kids, x, d, s, n); } else { AddListOk(pool, t, kids, x, d, s, n, e); }
    }
    forall y <- t'.parent ensures NodeOk(pool', t', y) {
      AddNodeOk(pool, t, x, d, s, n, y);
    }
  }

  // ---- dropping -------------------------------------------------------------------------------

  ghost function DropKids(kids: map<Id, seq<Id>>, d: Id, i: nat): map<Id, seq<Id>>
    requires d in kids && i < |kids[d]|
  {
    kids[d := Without(kids[d], i)] - {kids[d][i]}
  }

  lemma DropLists(t: Tree, x: Id, d: Id, e: Id, r: seq<Id>, i: nat)
    requires WellFormed(t) && x in t.parent && t.parent[x] == d && Lists(t, e, r)
    requires e == d ==> i < |r| && r[i] == x
    ensures Lists(Drop(t, x), e, if e == d then Without(r, i) else r)
  {
    if e == d { WithoutList(t, d, r, i); }
  }

  lemma DropListOk(pool: Pool, pool': Pool, t: Tree, kids: map<Id, seq<Id>>, d: Id, i: nat, e: Id)
    requires WellFormed(t) && d in kids && i < |kids[d]| && ListOk(pool, t, kids, d)
    requires OnlyLinks(pool, pool', d, kids[d])
    requires d < |pool'| && Chain(pool', pool'[d].children, Without(kids[d], i))
    requires e in kids && e != kids[d][i] && ListOk(pool, t, kids, e)
    ensures ListOk(pool', Drop(t, kids[d][i]), DropKids(kids, d, i), e)
  {
    hide WellFormed, Drop;
    var x := kids[d][i];
    assert x in kids[d];
    DropLists(t, x, d, e, kids[e], i);
    if e != d {
      ListsApart(t, d, e, kids[d], kids[e]);
      ChainFrame(pool, pool', pool[e].children, kids[e]);
    }
  }

  lemma LinksNodeOk(pool: Pool, pool': Pool, t: Tree, d: Id, s: seq<Id>, y: Id)
    requires OnlyLinks(pool, pool', d, s) && y in t.parent && y in t.name && NodeOk(pool, t, y)
    ensures NodeOk(pool', t, y)
  {
  }

  lemma DropRepresents(pool: Pool, pool': Pool, t: Tree, kids: map<Id, seq<Id>>, d: Id, i: nat)
    requires Represents(pool, t, kids) && d in kids && i < |kids[d]|
    requires OnlyLinks(pool, pool', d, kids[d])
    requires d < |pool'| && Chain(pool', pool'[d].children, Without(kids[d], i))
    requires !HasChildren(t, kids[d][i])
    ensures Represents(pool', Drop(t, kids[d][i]), DropKids(kids, d, i))
  {
    hide WellFormed, ListOk, NodeOk, Chain, Without, HasChildren;
    var x := kids[d][i];
    var t', kids' := Drop(t, x), DropKids(kids, d, i);
    MemberOf(pool, t, kids, d, i);
    ParentFacts(t);
    DropWellFormed(t, x);
    assert kids'.Keys == Nodes(t');
    forall e <- kids' ensures ListOk(pool', t', kids', e) {
      DropListOk(pool, pool', t, kids, d, i, e);
    }
    forall y <- t'.parent ensures NodeOk(pool', t', y) {
      LinksNodeOk(pool, pool', t, d, kids[d], y);
      DropNodeOk(pool', t, x, y);
    }
  }

  lemma DropNodeOk(pool: Pool, t: Tree, x: Id, y: Id)
    requires y in t.parent && y in t.name && y != x && NodeOk(pool, t, y)
    ensures NodeOk(pool, Drop(t, x), y)
  {
  }

  lemma MemberOf(pool: Pool, t: Tree, kids: map<Id, seq<Id>>, d: Id, i: nat)
    requires d in kids && i < |kids[d]| && ListOk(pool, t, kids, d)
    ensures kids[d][i] in t.parent && t.parent[kids[d][i]] == d
  {
    assert kids[d][i] in kids[d];
  }

  // ---- moving ---------------------------------------------------------------------------------

  ghost function MoveKids(kids: map<Id, seq<Id>>, from: Id, i: nat, d: Id): map<Id, seq<Id>>
    requires from in kids && i < |kids[from]| && d in kids
  {
    var kids' := kids[from := Without(kids[from], i)];
    kids'[d := [kids[from][i]] + kids'[d]]
  }

  /** A detached node renamed and linked in front of the children of `d`. */
  function Relinked(pool: Pool, x: Id, d: Id, s: string): Pool
    requires x < |pool| && d < |pool| && x != d
  {
    pool[x := pool[x].(name := s, parent := d, next := pool[d].children)][d := pool[d].(children := x)]
  }

  lemma MoveLists(t: Tree, t': Tree, x: Id, from: Id, d: Id, e: Id, r: seq<Id>, i: nat)
    requires x in t.parent && t.parent[x] == from && t'.parent == t.parent[x := d] && Lists(t, e, r)
    requires e == from ==> i < |r| && r[i] == x
    ensures Lists(t', e, var r' := if e == from then Without(r, i) else r; if e == d then [x] + r' else r')
  {
    var r' := r;
    if e == from {
      WithoutList(t, e, r, i);
      r' := Without(r, i);
    }
    assert x !in r';
    if e == d {
      assert forall y :: y in [x] + r' <==> y == x || y in r';
      assert NoDup([x] + r');
    }
  }

  lemma MoveListOk(pool: Pool, pool2: Pool, t: Tree, t': Tree, kids: map<Id, seq<Id>>, from: Id, i: nat, d: Id,
                   s: string, e: Id)
    requires from in kids && i < |kids[from]| && d in kids && ListOk(pool, t, kids, from)
    requires OnlyLinks(pool, pool2, from, kids[from])
    requires from < |pool2| && Chain(pool2, pool2[from].children, Without(kids[from], i))
    requires e in kids && ListOk(pool, t, kids, e)
    requires kids[from][i] < |pool2| && d < |pool2| && kids[from][i] != d
    requires kids[from][i] in t.parent && t'.parent == t.parent[kids[from][i] := d]
    ensures ListOk(Relinked(pool2, kids[from][i], d, s), t', MoveKids(kids, from, i, d), e)
  {
    var x := kids[from][i];
    MemberOf(pool, t, kids, from, i);
    MoveLists(t, t', x, from, d, e, kids[e], i);
    var r := if e == from then Without(kids[from], i) else kids[e];
    if e != from {
      ListsApart(t, from, e, kids[from], kids[e]);
      ChainFrame(pool, pool2, pool[e].children, kids[e]);
    } else {
      WithoutList(t, e, kids[e], i);
    }
    assert x !in r && e < |pool2| && Chain(pool2, pool2[e].children, r);
    hide Lists, OnlyLinks;
    RelinkedChain(pool2, x, d, s, e, r);
  }

  /** Pushing `x` onto the list of `d` leaves every other list alone. */
  lemma RelinkedChain(pool: Pool, x: Id, d: Id, s: string, e: Id, r: seq<Id>)
    requires x < |pool| && d < |pool| && x != d && e < |pool| && x !in r && Chain(pool, pool[e].children, r)
    ensures var pool' := Relinked(pool, x, d, s);
            e < |pool'| && Chain(pool', pool'[e].children, if e == d then [x] + r else r)
  {
    var pool' := Relinked(pool, x, d, s);
    ChainFrame(pool, pool', pool[e].children, r);
    if e == d { assert ([x] + r)[1..] == r; }
  }

  lemma MoveNodeOk(pool: Pool, t: Tree, t': Tree, x: Id, d: Id, s: string, y: Id)
    requires x < |pool| && d < |pool| && x != d && pool[d].kind.Dir?
    requires t'.parent == t.parent[x := d] && t'.name == t.name[x := s]
    requires y != x ==> y in t.parent && y in t.name && NodeOk(pool, t, y)
    ensures y in t'.parent && y in t'.name && NodeOk(Relinked(pool, x, d, s), t', y)
  {
  }

  lemma MoveRepresents(pool: Pool, pool2: Pool, t: Tree, kids: map<Id, seq<Id>>, from: Id, i: nat, d: Id, s: string)
    requires Represents(pool, t, kids) && from in kids && i < |kids[from]| && d in kids
    requires OnlyLinks(pool, pool2, from, kids[from])
    requires from < |pool2| && Chain(pool2, pool2[from].children, Without(kids[from], i))
    requires CanMove(t, kids[from][i], d, s) && d < |pool2| && pool2[d].kind.Dir?
    ensures kids[from][i] < |pool2| && kids[from][i] != d
    ensures Represents(Relinked(pool2, kids[from][i], d, s), Move(t, kids[from][i], d, s), MoveKids(kids, from, i, d))
  {
    hide WellFormed, ListOk, NodeOk, Chain, Without, CanMove, Move, OnlyLinks, Relinked;
    var x := kids[from][i];
    MemberOf(pool, t, kids, from, i);
    ParentFacts(t);
    assert NodeOk(pool, t, x);
    MovedFacts(pool, t, x, d, s);
    LinksLength(pool, pool2, from, kids[from]);
    var t', kids', pool' := Move(t, x, d, s), MoveKids(kids, from, i, d), Relinked(pool2, x, d, s);
    assert kids'.Keys == Nodes(t');
    MoveRootOk(pool, pool2, t, from, kids[from], x, d, s);
    forall e <- kids' ensures ListOk(pool', t', kids', e) {
      MoveListOk(pool, pool2, t, t', kids, from, i, d, s, e);
    }
    forall y <- t'.parent ensures NodeOk(pool', t', y) {
      if y != x { LinksNodeOk(pool, pool2, t, from, kids[from], y); }
      MoveNodeOk(pool2, t, t', x, d, s, y);
    }
  }

  lemma LinksLength(pool: Pool, pool': Pool, d: Id, s: seq<Id>)
    requires OnlyLinks(pool, pool', d, s)
    ensures |pool'| == |pool|
  {
  }

  lemma MoveRootOk(pool: Pool, pool2: Pool, t: Tree, from: Id, r: seq<Id>, x: Id, d: Id, s: string)
    requires OnlyLinks(pool, pool2, from, r) && RootOk(pool, t) && x != t.root
    requires x < |pool2| && d < |pool2| && x != d
    ensures RootOk(Relinked(pool2, x, d, s), t)
  {
  }

  lemma MovedFacts(pool: Pool, t: Tree, x: Id, d: Id, s: string)
    requires CanMove(t, x, d, s) && NodeOk(pool, t, x)
    ensures var t' := Move(t, x, d, s);
            && x < |pool| && x != d
            && t'.parent == t.parent[x := d] && t'.name == t.name[x := s] && t'.root == t.root
            && WellFormed(t') && Nodes(t') == Nodes(t)
            && t.name.Keys == t.parent.Keys && x != t.root
  {
    MoveWellFormed(t, x, d, s);
  }
}
