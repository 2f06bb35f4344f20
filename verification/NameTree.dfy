/** A directory tree as a value: for every node but the root, its parent and its name there.  Paths
    resolve by following names; the three ways to change the tree are to add a leaf, to drop a node
    without children, and to move a node elsewhere. */
module NameTree {
  import opened Prelude
  import opened Paths

  type Id = nat

  /** `rank` witnesses that climbing ends: a node ranks strictly above its parent. */
  datatype Tree = Tree(root: Id, parent: map<Id, Id>, name: map<Id, string>, rank: map<Id, nat>)

  ghost function Nodes(t: Tree): set<Id> { t.parent.Keys + {t.root} }

  ghost predicate WellFormed(t: Tree) {
    && t.root !in t.parent
    && t.name.Keys == t.parent.Keys && t.rank.Keys == Nodes(t)
    && (forall x <- t.parent :: t.parent[x] in t.rank && t.rank[t.parent[x]] < t.rank[x])
    && (forall x, y | x in t.parent && y in t.parent && t.parent[x] == t.parent[y] && t.name[x] == t.name[y] :: x == y)
  }

  ghost predicate IsChild(t: Tree, d: Id, s: string, x: Id) {
    x in t.parent && x in t.name && t.parent[x] == d && t.name[x] == s
  }

  /** The entry `s` of directory `d`. */
  ghost function Child(t: Tree, d: Id, s: string): Option<Id> {
    if x: Id :| IsChild(t, d, s, x) then Some(x) else None
  }

  ghost predicate HasChildren(t: Tree, d: Id) { exists x <- t.parent :: t.parent[x] == d }

  /** Following names downwards. */
  ghost function Descend(t: Tree, from: Id, cs: seq<string>): Option<Id> {
    if cs == [] then Some(from)
    else
      var d :- Descend(t, from, cs[..|cs| - 1]);
      Child(t, d, cs[|cs| - 1])
  }

  ghost function Lookup(t: Tree, cs: seq<string>): Option<Id> { Descend(t, t.root, cs) }

  /** `a` is `x` or one of its ancestors. */
  ghost predicate Under(t: Tree, x: Id, a: Id)
    requires WellFormed(t) && x in t.rank
    decreases t.rank[x]
  {
    x == a || (x in t.parent && Under(t, t.parent[x], a))
  }

  /** The names from the root down to `x`. */
  ghost function PathTo(t: Tree, x: Id): seq<string>
    requires WellFormed(t) && x in t.rank
    decreases t.rank[x]
  {
    if x !in t.parent then [] else PathTo(t, t.parent[x]) + [t.name[x]]
  }

  // ---- resolution in one tree -----------------------------------------------------------

  lemma ChildIs(t: Tree, d: Id, s: string, x: Id)
    requires WellFormed(t) && IsChild(t, d, s, x)
    ensures Child(t, d, s) == Some(x)
  {
  }

  lemma DescendStep(t: Tree, from: Id, cs: seq<string>, s: string)
    ensures Descend(t, from, cs + [s])
         == if Descend(t, from, cs).None? then None else Child(t, Descend(t, from, cs).value, s)
  {
    assert (cs + [s])[..|cs|] == cs;
  }

  lemma {:induction false} DescendConcat(t: Tree, from: Id, a: seq<string>, b: seq<string>)
    ensures Descend(t, from, a + b)
         == if Descend(t, from, a).None? then None else Descend(t, Descend(t, from, a).value, b)
    decreases |b|
  {
    if b == [] {
      assert a + b == a;
    } else {
      assert (a + b)[..|a + b| - 1] == a + b[..|b| - 1];
      DescendConcat(t, from, a, b[..|b| - 1]);
    }
  }

  /** Every node is found under its path. */
  lemma {:induction false} PathToFinds(t: Tree, x: Id)
    requires WellFormed(t) && x in t.rank
    ensures Lookup(t, PathTo(t, x)) == Some(x)
    decreases t.rank[x]
  {
    if x in t.parent {
      PathToFinds(t, t.parent[x]);
      DescendStep(t, t.root, PathTo(t, t.parent[x]), t.name[x]);
      ChildIs(t, t.parent[x], t.name[x], x);
    }
  }

  lemma PathStep(t: Tree, d: Id, s: string, x: Id)
    requires WellFormed(t) && Child(t, d, s) == Some(x)
    ensures IsChild(t, d, s, x) && x in t.rank && d in t.rank && PathTo(t, x) == PathTo(t, d) + [s]
  {
  }

  lemma RootPath(t: Tree)
    requires WellFormed(t)
    ensures t.root in t.rank && PathTo(t, t.root) == []
  {
  }

  /** A path leads to at most one node, and to each node leads only one path. */
  lemma {:induction false} PathIsUnique(t: Tree, cs: seq<string>, x: Id)
    requires WellFormed(t) && Lookup(t, cs) == Some(x)
    ensures x in t.rank && cs == PathTo(t, x)
    decreases |cs|
  {
    hide WellFormed, PathTo, Child;
    if cs == [] {
      RootPath(t);
    } else {
      var n := |cs| - 1;
      var d := Descend(t, t.root, cs[..n]).value;
      PathIsUnique(t, cs[..n], d);
      PathStep(t, d, cs[n], x);
      assert cs == cs[..n] + [cs[n]];
    }
  }

  /** Being under a node is having its path as a prefix. */
  lemma {:induction false} UnderIsPrefix(t: Tree, x: Id, a: Id)
    requires WellFormed(t) && x in t.rank && a in t.rank
    ensures Under(t, x, a) <==> PathTo(t, a) <= PathTo(t, x)
    decreases t.rank[x]
  {
    if x in t.parent {
      UnderIsPrefix(t, t.parent[x], a);
      if PathTo(t, a) <= PathTo(t, x) && |PathTo(t, a)| == |PathTo(t, x)| {
        assert PathTo(t, a) == PathTo(t, x);
        PathToFinds(t, a);
        PathToFinds(t, x);
      }
    } else if PathTo(t, a) <= PathTo(t, x) {
      PathToFinds(t, a);
      PathToFinds(t, x);
    }
  }

  lemma {:induction false} DescendIsUnder(t: Tree, from: Id, cs: seq<string>, y: Id)
    requires WellFormed(t) && from in t.rank && Descend(t, from, cs) == Some(y)
    ensures y in t.rank && Under(t, y, from)
    decreases |cs|
  {
    if cs != [] {
      var d := Descend(t, from, cs[..|cs| - 1]).value;
      DescendIsUnder(t, from, cs[..|cs| - 1], d);
      assert IsChild(t, d, cs[|cs| - 1], y);
    }
  }

  lemma {:induction false} UnderRank(t: Tree, x: Id, a: Id)
    requires WellFormed(t) && x in t.rank && Under(t, x, a)
    ensures a in t.rank && t.rank[a] <= t.rank[x]
    decreases t.rank[x]
  {
    if x != a { UnderRank(t, t.parent[x], a); }
  }

  // ---- the changes ------------------------------------------------------------------------

  ghost function Add(t: Tree, x: Id, d: Id, s: string): Tree
    requires d in t.rank
  {
    t.(parent := t.parent[x := d], name := t.name[x := s], rank := t.rank[x := t.rank[d] + 1])
  }

  ghost function Drop(t: Tree, x: Id): Tree {
    t.(parent := t.parent - {x}, name := t.name - {x}, rank := t.rank - {x})
  }

  ghost function Move(t: Tree, x: Id, d: Id, s: string): Tree
    requires WellFormed(t) && d in t.rank
  {
    t.(parent := t.parent[x := d], name := t.name[x := s],
       rank := map y | y in t.rank :: if Under(t, y, x) then t.rank[y] + t.rank[d] + 1 else t.rank[y])
  }

  /** `x` may become entry `s` of `d`: the entry is free and `d` is not inside `x`. */
  ghost predicate CanMove(t: Tree, x: Id, d: Id, s: string) {
    WellFormed(t) && x in t.parent && x in t.rank && d in t.rank && !Under(t, d, x) && Child(t, d, s).None?
  }

  lemma AddWellFormed(t: Tree, x: Id, d: Id, s: string)
    requires WellFormed(t) && d in t.rank && x !in t.rank && Child(t, d, s).None?
    ensures WellFormed(Add(t, x, d, s))
  {
    var t' := Add(t, x, d, s);
    assert t'.rank.Keys == Nodes(t');
    forall y | y in t.parent && t.parent[y] == d && t.name[y] == s ensures false {
      assert IsChild(t, d, s, y);
    }
  }

  lemma DropWellFormed(t: Tree, x: Id)
    requires WellFormed(t) && x in t.parent && !HasChildren(t, x)
    ensures WellFormed(Drop(t, x))
  {
    var t' := Drop(t, x);
    assert t'.rank.Keys == Nodes(t');
    assert t'.name.Keys == t'.parent.Keys;
  }

  lemma MoveWellFormed(t: Tree, x: Id, d: Id, s: string)
    requires CanMove(t, x, d, s)
    ensures WellFormed(Move(t, x, d, s))
  {
    var t' := Move(t, x, d, s);
    assert t'.rank.Keys == Nodes(t');
    forall y | y in t.parent && y != x && t.parent[y] == d && t.name[y] == s ensures false {
      assert IsChild(t, d, s, y);
    }
    forall y <- t'.parent ensures t'.parent[y] in t'.rank && t'.rank[t'.parent[y]] < t'.rank[y] {
    }
  }

  // ---- what the changes do to resolution ------------------------------------------------------

  lemma AddChild(t: Tree, x: Id, d: Id, s: string, e: Id, n: string)
    requires WellFormed(t) && d in t.rank && x !in t.rank && Child(t, d, s).None?
    ensures Child(Add(t, x, d, s), e, n) == if e == d && n == s then Some(x) else Child(t, e, n)
  {
    var t' := Add(t, x, d, s);
    AddWellFormed(t, x, d, s);
    if e == d && n == s {
      ChildIs(t', e, n, x);
    } else if Child(t, e, n).Some? {
      ChildIs(t', e, n, Child(t, e, n).value);
    } else {
      forall y ensures !IsChild(t', e, n, y) { if IsChild(t', e, n, y) { assert IsChild(t, e, n, y); } }
    }
  }

  lemma DropChild(t: Tree, x: Id, e: Id, n: string)
    requires WellFormed(t) && x in t.parent && !HasChildren(t, x)
    ensures Child(Drop(t, x), e, n) == if Child(t, e, n) == Some(x) then None else Child(t, e, n)
  {
    var t' := Drop(t, x);
    DropWellFormed(t, x);
    if Child(t, e, n).Some? && Child(t, e, n).value != x {
      ChildIs(t', e, n, Child(t, e, n).value);
    } else {
      forall y ensures !IsChild(t', e, n, y) { if IsChild(t', e, n, y) { assert IsChild(t, e, n, y); } }
    }
  }

  /** Re-parenting one node, whatever happens to the ranks. */
  lemma Reparented(t: Tree, t': Tree, x: Id, d: Id, s: string, e: Id, n: string)
    requires WellFormed(t) && WellFormed(t') && x in t.parent && Child(t, d, s).None?
    requires t'.parent == t.parent[x := d] && t'.name == t.name[x := s]
    ensures Child(t', e, n)
         == if e == d && n == s then Some(x) else if Child(t, e, n) == Some(x) then None else Child(t, e, n)
  {
    if e == d && n == s {
      ChildIs(t', e, n, x);
    } else if Child(t, e, n).Some? && Child(t, e, n).value != x {
      ChildIs(t', e, n, Child(t, e, n).value);
    } else {
      forall y ensures !IsChild(t', e, n, y) {
        if IsChild(t', e, n, y) { ChildIs(t, e, n, y); }
      }
    }
  }

  lemma MoveChild(t: Tree, x: Id, d: Id, s: string, e: Id, n: string)
    requires CanMove(t, x, d, s)
    ensures Child(Move(t, x, d, s), e, n)
         == if e == d && n == s then Some(x) else if Child(t, e, n) == Some(x) then None else Child(t, e, n)
  {
    hide Under, Child, WellFormed;
    MoveWellFormed(t, x, d, s);
    Reparented(t, Move(t, x, d, s), x, d, s, e, n);
  }

  lemma AddedRoot(t: Tree, x: Id, d: Id, s: string)
    requires d in t.rank
    ensures Add(t, x, d, s).root == t.root
  {
  }

  /** After adding entry `s` to the directory at `at`, that path names the new node and every other
      path what it named before. */
  lemma {:induction false} AddLookup(t: Tree, x: Id, d: Id, s: string, cs: seq<string>)
    requires WellFormed(t) && d in t.rank && x !in t.rank && Child(t, d, s).None?
    ensures Lookup(Add(t, x, d, s), cs) == if cs == PathTo(t, d) + [s] then Some(x) else Lookup(t, cs)
    decreases |cs|
  {
    hide WellFormed, PathTo, Child, Add;
    AddedRoot(t, x, d, s);
    PathToFinds(t, d);
    if cs != [] {
      var n := |cs| - 1;
      var before := cs[..n];
      AddLookup(t, x, d, s, before);
      assert cs == before + [cs[n]];
      if before == PathTo(t, d) + [s] {
        DescendStep(t, t.root, PathTo(t, d), s);
        AddChild(t, x, d, s, x, cs[n]);
        NewNodeIsEmpty(t, x, cs[n]);
        assert cs[|PathTo(t, d)| + 1..] == [cs[n]];
      } else if Lookup(t, before).Some? {
        var e := Lookup(t, before).value;
        AddChild(t, x, d, s, e, cs[n]);
        if e == d { PathIsUnique(t, before, d); }
      }
    }
  }

  /** After dropping a node without children its path names nothing, nor does any path through it;
      every other path names what it named before. */
  lemma {:induction false} DropLookup(t: Tree, x: Id, cs: seq<string>)
    requires WellFormed(t) && x in t.parent && !HasChildren(t, x)
    ensures Lookup(Drop(t, x), cs) == if PathTo(t, x) <= cs then None else Lookup(t, cs)
    decreases |cs|
  {
    hide WellFormed, PathTo, Child, Drop, HasChildren;
    InnerPath(t, x);
    if cs != [] {
      var n := |cs| - 1;
      var before := cs[..n];
      DropLookup(t, x, before);
      assert cs == before + [cs[n]];
      DroppedRoot(t, x);
      if PathTo(t, x) <= before {
        assert PathTo(t, x) <= cs;
      } else if Lookup(t, before).Some? {
        var e := Lookup(t, before).value;
        DropChild(t, x, e, cs[n]);
        if Child(t, e, cs[n]) == Some(x) {
          PathIsUnique(t, cs, x);
        } else if PathTo(t, x) <= cs {
          assert PathTo(t, x) == cs;
          PathToFinds(t, x);
        }
      } else if PathTo(t, x) <= cs {
        assert PathTo(t, x) == cs;
        PathToFinds(t, x);
      }
    } else {
      DroppedRoot(t, x);
    }
  }

  lemma InnerPath(t: Tree, x: Id)
    requires WellFormed(t) && x in t.parent
    ensures x in t.rank && PathTo(t, x) != []
  {
  }

  lemma DroppedRoot(t: Tree, x: Id)
    ensures Drop(t, x).root == t.root
  {
  }

  /** What a path names after moving `x` to entry `s` of `d`: under the new place, what the same path
      under the old place named; under the old place, nothing; elsewhere, what it named before. */
  ghost function AfterMove(t: Tree, src: seq<string>, dst: seq<string>, cs: seq<string>): Option<Id> {
    if dst <= cs then Lookup(t, src + cs[|dst|..]) else if src <= cs then None else Lookup(t, cs)
  }

  lemma {:induction false} MoveLookup(t: Tree, x: Id, d: Id, s: string, cs: seq<string>)
    requires CanMove(t, x, d, s)
    ensures Lookup(Move(t, x, d, s), cs) == AfterMove(t, PathTo(t, x), PathTo(t, d) + [s], cs)
    decreases |cs|
  {
    hide WellFormed, Under, PathTo, Child, Move, AfterMove, Lookup;
    if cs == [] {
      MoveLookupRoot(t, x, d, s);
    } else {
      var n := |cs| - 1;
      MoveLookup(t, x, d, s, cs[..n]);
      assert cs == cs[..n] + [cs[n]];
      MoveLookupStep(t, x, d, s, cs[..n], cs[n]);
    }
  }

  lemma MoveLookupRoot(t: Tree, x: Id, d: Id, s: string)
    requires CanMove(t, x, d, s)
    ensures Lookup(Move(t, x, d, s), []) == AfterMove(t, PathTo(t, x), PathTo(t, d) + [s], [])
  {
  }

  lemma PrefixOfSnoc(p: seq<string>, a: seq<string>, c: string)
    ensures p <= a + [c] <==> p <= a || p == a + [c]
  {
    if p <= a + [c] && |p| <= |a| { assert p == (a + [c])[..|p|] == a[..|p|]; }
    if p <= a { assert p == a[..|p|] == (a + [c])[..|p|]; }
  }

  lemma SnocEqual(a: seq<string>, x: string, b: seq<string>, y: string)
    requires a + [x] == b + [y]
    ensures a == b && x == y
  {
    assert a == (a + [x])[..|a|] && b == (b + [y])[..|b|];
    assert x == (a + [x])[|a|] && y == (b + [y])[|b|];
  }

  lemma MoveLookupStep(t: Tree, x: Id, d: Id, s: string, before: seq<string>, c: string)
    requires CanMove(t, x, d, s)
    requires Lookup(Move(t, x, d, s), before) == AfterMove(t, PathTo(t, x), PathTo(t, d) + [s], before)
    ensures Lookup(Move(t, x, d, s), before + [c]) == AfterMove(t, PathTo(t, x), PathTo(t, d) + [s], before + [c])
  {
    hide WellFormed, PathTo, Child, Move, Under, Descend;
    var t', src, dst, cs := Move(t, x, d, s), PathTo(t, x), PathTo(t, d) + [s], before + [c];
    DescendStep(t', t'.root, before, c);
    PathToFinds(t, x);
    PathToFinds(t, d);
    UnderIsPrefix(t, d, x);
    if dst <= before {
      MoveLookupBelow(t, x, d, s, before, c);
    } else if dst == cs {
      SnocEqual(before, c, PathTo(t, d), s);
      MoveChild(t, x, d, s, d, s);
      assert src + cs[|dst|..] == src;
    } else {
      PrefixOfSnoc(dst, before, c);
      PrefixOfSnoc(src, before, c);
      if src <= before {
        assert src <= cs;
      } else {
        MoveLookupOther(t, x, d, s, before, c);
      }
    }
  }

  lemma MoveLookupOther(t: Tree, x: Id, d: Id, s: string, before: seq<string>, c: string)
    requires CanMove(t, x, d, s)
    requires Lookup(Move(t, x, d, s), before) == Lookup(t, before)
    requires before + [c] != PathTo(t, d) + [s]
    ensures Lookup(Move(t, x, d, s), before + [c])
         == if before + [c] == PathTo(t, x) then None else Lookup(t, before + [c])
  {
    hide WellFormed, PathTo, Child, Move, Under, Descend;
    var t', cs := Move(t, x, d, s), before + [c];
    DescendStep(t', t'.root, before, c);
    DescendStep(t, t.root, before, c);
    PathToFinds(t, x);
    if Lookup(t, before).Some? {
      var e := Lookup(t, before).value;
      PathIsUnique(t, before, e);
      MoveChild(t, x, d, s, e, c);
      if Child(t, e, c) == Some(x) { PathIsUnique(t, cs, x); }
    }
  }

  lemma MoveLookupBelow(t: Tree, x: Id, d: Id, s: string, before: seq<string>, c: string)
    requires CanMove(t, x, d, s)
    requires var src, dst := PathTo(t, x), PathTo(t, d) + [s];
             dst <= before && Lookup(Move(t, x, d, s), before) == Lookup(t, src + before[|dst|..])
    ensures var src, dst := PathTo(t, x), PathTo(t, d) + [s];
            Lookup(Move(t, x, d, s), before + [c]) == Lookup(t, src + (before + [c])[|dst|..])
  {
    hide WellFormed, PathTo, Child, Move, Under;
    var src, dst := PathTo(t, x), PathTo(t, d) + [s];
    var t', rest := Move(t, x, d, s), before[|dst|..];
    assert src + (before + [c])[|dst|..] == (src + rest) + [c];
    DescendStep(t', t'.root, before, c);
    DescendStep(t, t.root, src + rest, c);
    var y := Lookup(t, src + rest);
    if y.Some? {
      PathToFinds(t, x);
      DescendConcat(t, t.root, src, rest);
      DescendIsUnder(t, x, rest, y.value);
      MoveChild(t, x, d, s, y.value, c);
      if Child(t, y.value, c) == Some(x) {
        PathStep(t, y.value, c, x);
        NotUnderOwnChild(t, y.value, c, x);
      }
    }
  }

  lemma NotUnderOwnChild(t: Tree, y: Id, c: string, x: Id)
    requires WellFormed(t) && y in t.rank && IsChild(t, y, c, x)
    ensures !Under(t, y, x)
  {
    if Under(t, y, x) { UnderRank(t, y, x); }
  }

  lemma NewNodeIsEmpty(t: Tree, x: Id, n: string)
    requires WellFormed(t) && x !in t.rank
    ensures Child(t, x, n).None?
  {
  }

  // ---- renaming over an existing entry ------------------------------------------------------------

  /** Moving `x` to entry `s` of `d`, replacing what is there. */
  ghost function Rename(t: Tree, x: Id, d: Id, s: string): Tree
    requires CanRename(t, x, d, s)
  {
    var z := Child(t, d, s);
    if z.None? then Move(t, x, d, s) else ReplaceOk(t, x, d, s); Move(Drop(t, z.value), x, d, s)
  }

  /** `d` is not inside `x`, and what stands at the entry, if anything, is another node without
      children. */
  ghost predicate CanRename(t: Tree, x: Id, d: Id, s: string) {
    && WellFormed(t) && x in t.parent && x in t.rank && d in t.rank && !Under(t, d, x)
    && (Child(t, d, s).Some? ==> Child(t, d, s).value != x && !HasChildren(t, Child(t, d, s).value))
  }

  lemma {:induction false} DropUnder(t: Tree, z: Id, y: Id, a: Id)
    requires WellFormed(t) && z in t.parent && !HasChildren(t, z) && y in t.rank && y != z
    ensures WellFormed(Drop(t, z)) && y in Drop(t, z).rank
    ensures Under(Drop(t, z), y, a) <==> Under(t, y, a)
    ensures PathTo(Drop(t, z), y) == PathTo(t, y)
    decreases t.rank[y]
  {
    DropWellFormed(t, z);
    if y in t.parent {
      assert t.parent[y] != z;
      DropUnder(t, z, t.parent[y], a);
    }
  }

  lemma ReplaceOk(t: Tree, x: Id, d: Id, s: string)
    requires CanRename(t, x, d, s) && Child(t, d, s).Some?
    ensures var z := Child(t, d, s).value;
            && z in t.parent && d != z
            && CanMove(Drop(t, z), x, d, s)
            && PathTo(Drop(t, z), x) == PathTo(t, x) && PathTo(Drop(t, z), d) == PathTo(t, d)
  {
    var z := Child(t, d, s).value;
    assert IsChild(t, d, s, z);
    DropUnder(t, z, x, x);
    DropUnder(t, z, d, x);
    DropChild(t, z, d, s);
  }

  lemma RenameWellFormed(t: Tree, x: Id, d: Id, s: string)
    requires CanRename(t, x, d, s)
    ensures WellFormed(Rename(t, x, d, s))
  {
    var z := Child(t, d, s);
    if z.None? {
      MoveWellFormed(t, x, d, s);
    } else {
      ReplaceOk(t, x, d, s);
      MoveWellFormed(Drop(t, z.value), x, d, s);
    }
  }

  /** The rename law: what every path names afterwards. */
  lemma RenameLookup(t: Tree, x: Id, d: Id, s: string, cs: seq<string>)
    requires CanRename(t, x, d, s)
    ensures Lookup(Rename(t, x, d, s), cs) == AfterMove(t, PathTo(t, x), PathTo(t, d) + [s], cs)
  {
    hide WellFormed, Under, PathTo, Move, Drop, HasChildren;
    var z := Child(t, d, s);
    if z.None? {
      MoveLookup(t, x, d, s, cs);
    } else {
      ReplaceOk(t, x, d, s);
      MoveLookup(Drop(t, z.value), x, d, s, cs);
      ReplacedLookup(t, x, d, s, cs);
    }
  }

  lemma ReplacedLookup(t: Tree, x: Id, d: Id, s: string, cs: seq<string>)
    requires CanRename(t, x, d, s) && Child(t, d, s).Some?
    ensures AfterMove(Drop(t, Child(t, d, s).value), PathTo(t, x), PathTo(t, d) + [s], cs)
         == AfterMove(t, PathTo(t, x), PathTo(t, d) + [s], cs)
  {
    hide WellFormed, PathTo, Drop, Lookup;
    var z, src, dst := Child(t, d, s).value, PathTo(t, x), PathTo(t, d) + [s];
    ReplaceOk(t, x, d, s);
    PathStep(t, d, s, z);
    if dst <= cs {
      var moved := src + cs[|dst|..];
      DropLookup(t, z, moved);
      if PathTo(t, z) <= moved { ReplacedApart(t, x, d, s, moved); }
    } else {
      DropLookup(t, z, cs);
    }
  }

  /** Nothing below `x` lies below the replaced entry, nor the other way round. */
  lemma ReplacedApart(t: Tree, x: Id, d: Id, s: string, moved: seq<string>)
    requires CanRename(t, x, d, s) && Child(t, d, s).Some?
    requires PathTo(t, x) <= moved
    ensures !(PathTo(t, d) + [s] <= moved)
  {
    var z, src, dst := Child(t, d, s).value, PathTo(t, x), PathTo(t, d) + [s];
    PathStep(t, d, s, z);
    if dst <= moved {
      if |src| < |dst| {
        assert src == moved[..|src|] == PathTo(t, d)[..|src|];
        UnderIsPrefix(t, d, x);
      } else {
        assert dst == moved[..|dst|] == src[..|dst|];
        UnderIsPrefix(t, x, z);
        UnderHasChild(t, x, z);
      }
    }
  }

  lemma {:induction false} UnderHasChild(t: Tree, x: Id, z: Id)
    requires WellFormed(t) && x in t.rank && Under(t, x, z) && x != z
    ensures HasChildren(t, z)
    decreases t.rank[x]
  {
    if t.parent[x] != z { UnderHasChild(t, t.parent[x], z); }
  }

  // ---- walking with "." and ".." ---------------------------------------------------------------------

  /** One step of a walk: to oneself, to the parent (the root is its own), or to an entry. */
  ghost function Visit1(t: Tree, at: Id, c: string): Option<Id> {
    if c == "." then Some(at)
    else if c == ".." then (if at in t.parent then Some(t.parent[at]) else Some(at))
    else Child(t, at, c)
  }

  ghost function Visit(t: Tree, from: Id, cs: seq<string>): Option<Id> {
    if cs == [] then Some(from)
    else
      var d :- Visit(t, from, cs[..|cs| - 1]);
      Visit1(t, d, cs[|cs| - 1])
  }

  lemma {:induction false} VisitOfPlain(t: Tree, from: Id, cs: seq<string>)
    requires AllPlain(cs)
    ensures Visit(t, from, cs) == Descend(t, from, cs)
  {
    if cs != [] { VisitOfPlain(t, from, cs[..|cs| - 1]); }
  }

  /** A walk ends where its folded path leads: lexical and real resolution agree wherever the walk
      succeeds. */
  lemma {:induction false} VisitFollowsFold(t: Tree, cs: seq<string>, x: Id)
    requires WellFormed(t) && Visit(t, t.root, cs) == Some(x)
    ensures x in t.rank && PathTo(t, x) == FoldOnto([], cs)
    ensures Lookup(t, FoldOnto([], cs)) == Some(x)
    decreases |cs|
  {
    if cs != [] {
      var n := |cs| - 1;
      var d := Visit(t, t.root, cs[..n]).value;
      VisitFollowsFold(t, cs[..n], d);
      if cs[n] != "." && cs[n] != ".." { PathStep(t, d, cs[n], x); }
    }
    PathToFinds(t, x);
  }
}
