/** What the tmpfs operations do to whole paths: how a walk relates to the lexical normaliser, and
    which path names which node after a create, a removal or a rename. */
module TmpfsPaths {
  import opened Prelude
  import opened Paths
  import opened PathNorm
  import opened NameTree
  import opened TmpfsPool
  import opened Tmpfs

  predicate Absolute(rel: Path) { 0 < |rel| < PathNorm.PATH_MAX && rel[0] == '/' }

  /** The components `rel` comes to. */
  function Canon(rel: Path): seq<string> { FoldOnto([], Components(rel)) }

  lemma CanonIsNorm(base: Path, rel: Path)
    requires Absolute(rel)
    ensures Norm(base, rel) == Canon(rel) && AllPlain(Canon(rel))
  {
    NormIsPlain(base, rel);
  }

  // ---- walks ---------------------------------------------------------------------------

  /** On canonical paths a walk is a lookup. */
  lemma WalkIsLookup(t: Tree, cs: seq<string>)
    requires AllPlain(cs)
    ensures WalkTo(t, Print(cs)) == Lookup(t, cs)
  {
    CanonicalStartsAtRoot(cs);
    ComponentsPrint(cs);
    VisitOfPlain(t, t.root, cs);
  }

  /** Wherever the walk of a raw path reaches a node, the walk of the normalised path reaches the
      same node. */
  lemma WalkAgreesWithNorm(t: Tree, base: Path, raw: Path, x: Id)
    requires WellFormed(t) && WalkTo(t, raw) == Some(x)
    ensures WalkTo(t, Print(Norm(base, raw))) == Some(x)
    ensures x in t.rank && PathTo(t, x) == Norm(base, raw)
  {
    hide WellFormed, Print, Visit, PathTo;
    VisitFollowsFold(t, Components(raw), x);
    NormIsPlain(base, raw);
    WalkIsLookup(t, Norm(base, raw));
  }

  // ---- splitting a path -----------------------------------------------------------------

  lemma {:induction false} TrimmedComponents(s: Path, n: nat)
    requires n <= |s|
    ensures Components(s[..Trimmed(s, n)]) == Components(s[..n])
  {
    if n > 1 && s[n - 1] == '/' {
      TrimmedComponents(s, n - 1);
      assert s[..n] == s[..n - 1] + "/";
      ComponentsConcat(s[..n - 1], "/");
      assert "/"[1..] == [];
    }
  }

  lemma {:induction false} TrimmedEnd(s: Path, n: nat)
    requires n <= |s|
    ensures Trimmed(s, n) > 1 ==> s[Trimmed(s, n) - 1] != '/'
  {
    if n > 1 && s[n - 1] == '/' { TrimmedEnd(s, n - 1); }
  }

  lemma {:induction false} LastSlashAt(s: Path, n: nat)
    requires 0 < n <= |s| && s[0] == '/'
    ensures s[LastSlash(s, n)] == '/'
    ensures forall k | LastSlash(s, n) < k < n :: s[k] != '/'
  {
    if s[n - 1] != '/' { LastSlashAt(s, n - 1); }
  }

  /** Cutting at the last slash splits off the last component. */
  lemma CutComponents(s: Path, slash: nat, n: nat)
    requires slash + 1 < n <= |s| && s[slash] == '/'
    requires forall k | slash < k < n :: s[k] != '/'
    ensures IsComponent(s[slash + 1..n])
    ensures Components(s[..n]) == Components(s[..slash]) + [s[slash + 1..n]]
  {
    var leaf := s[slash + 1..n];
    assert IsComponent(leaf);
    assert s[..n] == s[..slash] + ("/" + leaf);
    ComponentsConcat(s[..slash], "/" + leaf);
    SlashComponents(leaf);
    assert leaf == leaf + [];
    ComponentsCons(leaf, []);
    EmptyComponents();
  }

  /** An absolute path splits into a parent and a last component. */
  lemma SplitComponents(rel: Path)
    requires Absolute(rel) && SplitOf(rel).Some?
    ensures var (parent, leaf) := SplitOf(rel).value;
            parent != [] && parent[0] == '/' && IsComponent(leaf) && Components(rel) == Components(parent) + [leaf]
  {
    hide Components, IsComponent, Trimmed, LastSlash;
    var n := Trimmed(rel, |rel|);
    assert rel[..|rel|] == rel;
    TrimmedComponents(rel, |rel|);
    LastSlashAt(rel, n);
    CutComponents(rel, LastSlash(rel, n), n);
    SlashComponents([]);
    assert "/" + [] == "/" && rel[..0] == [];
  }

  /** The last component, as the namespace operations see it. */
  function Leaf(rel: Path): string {
    if SplitOf(rel).Some? then SplitOf(rel).value.1 else []
  }

  /** The directory an operation works in lies at the path without its last component. */
  lemma PlacePath(t: Tree, rel: Path, d: Id, leaf: string)
    requires WellFormed(t) && Absolute(rel) && Place(t, rel) == Some((d, leaf))
    ensures d in t.rank && leaf == Leaf(rel) && IsComponent(leaf)
    ensures Plain(leaf) ==> PathTo(t, d) + [leaf] == Canon(rel)
    ensures Components(rel) != [] && AllPlain(PathTo(t, d))
  {
    hide WellFormed, PathTo, Visit, AllPlain;
    var (parent, l) := SplitOf(rel).value;
    SplitComponents(rel);
    VisitFollowsFold(t, Components(parent), d);
    FoldIsPlain([], Components(parent)) by { NothingPlain(); }
    var cs := Components(parent) + [leaf];
    assert cs[..|cs| - 1] == Components(parent);
  }

  lemma NothingPlain()
    ensures AllPlain([])
  {
  }

  /** The entry an operation finds lies at the path it was given. */
  lemma EntryPath(t: Tree, rel: Path, x: Id)
    requires WellFormed(t) && Absolute(rel) && Entry(t, rel) == Some(x)
    ensures x in t.parent && x in t.rank && IsComponent(Leaf(rel))
    ensures Plain(Leaf(rel)) ==> PathTo(t, x) == Canon(rel)
    ensures PathTo(t, x) != [] && PathTo(t, x)[|PathTo(t, x)| - 1] == Leaf(rel)
  {
    hide WellFormed, PathTo, Visit, AllPlain;
    var (d, leaf) := Place(t, rel).value;
    PlacePath(t, rel, d, leaf);
    PathStep(t, d, leaf, x);
  }

  // ---- the laws -------------------------------------------------------------------------------

  /** A path whose last component is "." or ".." is no prefix of a canonical one. */
  lemma DottedIsNoPrefix(p: seq<string>, cs: seq<string>)
    requires AllPlain(cs) && p != [] && !Plain(p[|p| - 1])
    ensures !(p <= cs)
  {
    assert |p| <= |cs| ==> Plain(cs[|p| - 1]);
  }

  /** Creating: the walk of the new canonical path reaches the new node, and no other canonical path's walk
      changes.  An entry called "." or ".." can be created, but no such walk reaches it. */
  lemma CreateLaw(t: Tree, rel: Path, x: Id, d: Id, leaf: string, cs: seq<string>)
    requires WellFormed(t) && Absolute(rel) && AllPlain(cs) && x !in t.rank
    requires Place(t, rel) == Some((d, leaf)) && d in t.rank && Child(t, d, leaf).None?
    ensures WalkTo(Add(t, x, d, leaf), Print(cs))
         == if Plain(leaf) && cs == Canon(rel) then Some(x) else WalkTo(t, Print(cs))
  {
    hide WellFormed, PathTo, Visit, Place, AllPlain, Plain, Child, Add, WalkTo, Lookup;
    PlacePath(t, rel, d, leaf);
    AddLookup(t, x, d, leaf, cs);
    WalkIsLookup(t, cs);
    WalkIsLookup(Add(t, x, d, leaf), cs);
    var p := PathTo(t, d) + [leaf];
    if !Plain(leaf) { DottedIsNoPrefix(p, cs); }
    assert cs == p ==> p <= cs;
  }

  /** Walks that succeeded before an entry was added still do. */
  lemma {:induction false} AddVisit(t: Tree, x: Id, d: Id, leaf: string, cs: seq<string>, y: Id)
    requires WellFormed(t) && x !in t.rank && d in t.rank && Child(t, d, leaf).None?
    requires Visit(t, t.root, cs) == Some(y)
    ensures y in t.rank && Visit(Add(t, x, d, leaf), t.root, cs) == Some(y)
    decreases |cs|
  {
    RootPath(t);
    if cs != [] {
      var n := |cs| - 1;
      var e := Visit(t, t.root, cs[..n]).value;
      AddVisit(t, x, d, leaf, cs[..n], e);
      AddChild(t, x, d, leaf, e, cs[n]);
      if cs[n] != "." && cs[n] != ".." { PathStep(t, e, cs[n], y); }
    }
  }

  /** Whatever it is called, the entry just created is what the name-space calls find under its
      path. */
  lemma CreatedIsEntry(t: Tree, rel: Path, x: Id, d: Id, leaf: string)
    requires WellFormed(t) && x !in t.rank
    requires Place(t, rel) == Some((d, leaf)) && d in t.rank && Child(t, d, leaf).None?
    ensures Entry(Add(t, x, d, leaf), rel) == Some(x)
  {
    hide WellFormed, Visit, Child, SplitOf;
    AddedRoot(t, x, d, leaf);
    AddVisit(t, x, d, leaf, Components(SplitOf(rel).value.0), d);
    AddChild(t, x, d, leaf, d, leaf);
  }

  /** Removing: the path and everything below it name nothing, and no other canonical path changes. */
  lemma RemoveLaw(t: Tree, rel: Path, x: Id, cs: seq<string>)
    requires WellFormed(t) && Absolute(rel) && AllPlain(cs)
    requires Entry(t, rel) == Some(x) && !HasChildren(t, x)
    ensures WalkTo(Drop(t, x), Print(cs))
         == if Plain(Leaf(rel)) && Canon(rel) <= cs then None else WalkTo(t, Print(cs))
  {
    hide WellFormed, PathTo, Visit, Entry, AllPlain, Plain, HasChildren, Drop, WalkTo, Lookup;
    EntryPath(t, rel, x);
    DropLookup(t, x, cs);
    WalkIsLookup(t, cs);
    WalkIsLookup(Drop(t, x), cs);
    if !Plain(Leaf(rel)) { DottedIsNoPrefix(PathTo(t, x), cs); }
  }

  /** A rename that goes ahead: `x` is what `srel` names and moves to entry `leaf` of `d`, where
      `drel` points. */
  ghost predicate GoesAhead(t: Tree, srel: Path, drel: Path, x: Id, d: Id, leaf: string) {
    && Absolute(srel) && Absolute(drel)
    && Entry(t, srel) == Some(x) && Place(t, drel) == Some((d, leaf))
    && CanRename(t, x, d, leaf)
  }

  /** Renaming: dst/suffix names what src/suffix named before, src and what was below it name
      nothing, and no other canonical path changes. */
  lemma RenameLaw(t: Tree, srel: Path, drel: Path, x: Id, d: Id, leaf: string, cs: seq<string>)
    requires GoesAhead(t, srel, drel, x, d, leaf) && Plain(Leaf(srel)) && Plain(leaf) && AllPlain(cs)
    ensures var src, dst := Canon(srel), Canon(drel);
            WalkTo(Rename(t, x, d, leaf), Print(cs))
            == if dst <= cs then WalkTo(t, Print(src + cs[|dst|..]))
               else if src <= cs then None
               else WalkTo(t, Print(cs))
  {
    hide WellFormed, PathTo, Visit, Entry, Place, AllPlain, Plain, HasChildren, Rename, WalkTo, Lookup, CanRename, Canon;
    WellFormedOf(t, x, d, leaf);
    EntryPath(t, srel, x);
    PlacePath(t, drel, d, leaf);
    RenameLookup(t, x, d, leaf, cs);
    WalkIsLookup(t, cs);
    WalkIsLookup(Rename(t, x, d, leaf), cs);
    var src, dst := Canon(srel), Canon(drel);
    if dst <= cs {
      PlainJoin(srel, cs, |dst|);
      WalkIsLookup(t, src + cs[|dst|..]);
    }
  }

  /** The same of the object's own rename, once it has succeeded on two different nodes. */
  lemma RenamePathLaw(fs: Tmpfs, before: Tree, srel: Path, drel: Path, src: Id, dst: int, cs: seq<string>)
    requires Absolute(srel) && Absolute(drel) && AllPlain(cs) && Plain(Leaf(srel)) && Plain(Leaf(drel))
    requires fs.Renamed(before, srel, drel, src, dst) && dst != src
    ensures WalkTo(fs.tree, Print(cs))
         == if Canon(drel) <= cs then WalkTo(before, Print(Canon(srel) + cs[|Canon(drel)|..]))
            else if Canon(srel) <= cs then None
            else WalkTo(before, Print(cs))
  {
    hide CanRename, Rename, Entry, Child, WalkTo, Canon, AllPlain, Plain, Print, SplitOf;
    var (d, leaf) := Place(before, drel).value;
    RenameLaw(before, srel, drel, src, d, leaf, cs);
  }

  lemma WellFormedOf(t: Tree, x: Id, d: Id, leaf: string)
    requires CanRename(t, x, d, leaf)
    ensures WellFormed(t) && x in t.rank && d in t.rank
  {
  }

  lemma PlainJoin(rel: Path, cs: seq<string>, n: nat)
    requires AllPlain(cs) && n <= |cs|
    ensures AllPlain(Canon(rel) + cs[n..])
  {
    FoldIsPlain([], Components(rel));
  }

  /** A rename leaves its node where some walk reaches it, of whatever path, exactly when the last
      component of the destination is plain. */
  lemma RenameKeepsWalkable(t: Tree, srel: Path, drel: Path, x: Id, d: Id, leaf: string)
    requires GoesAhead(t, srel, drel, x, d, leaf)
    ensures Plain(leaf) <==> exists raw: Path :: WalkTo(Rename(t, x, d, leaf), raw) == Some(x)
  {
    hide WellFormed, PathTo, Visit, Entry, Place, AllPlain, Plain, HasChildren, Rename, WalkTo, Lookup, CanRename;
    hide Canon, AfterMove, Norm, Print;
    WellFormedOf(t, x, d, leaf);
    EntryPath(t, srel, x);
    PlacePath(t, drel, d, leaf);
    RenameWellFormed(t, x, d, leaf);
    var t', dst := Rename(t, x, d, leaf), PathTo(t, d) + [leaf];
    if Plain(leaf) {
      CanonIsNorm("/", drel);
      RenamedAt(t, x, d, leaf);
      WalkIsLookup(t', dst);
    } else {
      forall raw: Path ensures WalkTo(t', raw) != Some(x) {
        var cs := Norm("/", raw);
        NormIsPlain("/", raw);
        WalkIsLookup(t', cs);
        DottedIsNoPrefix(dst, cs);
        NotFoundElsewhere(t, x, d, leaf, cs);
        if WalkTo(t', raw) == Some(x) { WalkAgreesWithNorm(t', "/", raw, x); }
      }
    }
  }

  /** But it stays an entry: whatever it is called, the name-space calls find the node under the
      destination path, provided the way to its directory does not step up. */
  lemma RenamedIsEntry(t: Tree, srel: Path, drel: Path, x: Id, d: Id, leaf: string)
    requires GoesAhead(t, srel, drel, x, d, leaf) && AllPlain(Components(SplitOf(drel).value.0))
    ensures Entry(Rename(t, x, d, leaf), drel) == Some(x)
  {
    hide WellFormed, PathTo, Visit, AllPlain, Plain, HasChildren, Rename, CanRename, AfterMove, SplitOf, Child, Under;
    WellFormedOf(t, x, d, leaf);
    var t', cs := Rename(t, x, d, leaf), Components(SplitOf(drel).value.0);
    VisitOfPlain(t, t.root, cs);
    VisitOfPlain(t', t'.root, cs);
    DirectoryStays(t, x, d, leaf, cs);
    RenamedAt(t, x, d, leaf);
    PathIsUnique(t, cs, d);
    DescendStep(t', t'.root, cs, leaf);
  }

  lemma DirectoryStays(t: Tree, x: Id, d: Id, leaf: string, cs: seq<string>)
    requires CanRename(t, x, d, leaf) && Lookup(t, cs) == Some(d)
    ensures Lookup(Rename(t, x, d, leaf), cs) == Some(d)
  {
    hide Rename, Lookup, PathTo, WellFormed, Under, HasChildren, Child;
    RenameLookup(t, x, d, leaf, cs);
    PathIsUnique(t, cs, d);
    UnderIsPrefix(t, d, x);
  }

  lemma RenamedAt(t: Tree, x: Id, d: Id, leaf: string)
    requires CanRename(t, x, d, leaf)
    ensures Lookup(Rename(t, x, d, leaf), PathTo(t, d) + [leaf]) == Some(x)
  {
    hide Rename, Lookup, CanRename, PathTo, WellFormed;
    WellFormedOf(t, x, d, leaf);
    var dst := PathTo(t, d) + [leaf];
    RenameLookup(t, x, d, leaf, dst);
    assert PathTo(t, x) + dst[|dst|..] == PathTo(t, x);
    PathToFinds(t, x);
  }

  lemma NotFoundElsewhere(t: Tree, x: Id, d: Id, leaf: string, cs: seq<string>)
    requires CanRename(t, x, d, leaf) && !(PathTo(t, d) + [leaf] <= cs)
    ensures Lookup(Rename(t, x, d, leaf), cs) != Some(x)
  {
    hide Rename, Lookup, CanRename, PathTo, WellFormed;
    WellFormedOf(t, x, d, leaf);
    RenameLookup(t, x, d, leaf, cs);
    if Lookup(t, cs) == Some(x) { PathIsUnique(t, cs, x); }
  }

  // ---- a rename that hides its file, and one that brings it back -----------------------------------

  lemma OneLevel(c: char)
    requires c != '/'
    ensures SplitOf(['/', c]) == Some(("/", [c])) && Absolute(['/', c])
  {
    var rel := ['/', c];
    assert Trimmed(rel, 2) == 2;
    assert LastSlash(rel, 2) == LastSlash(rel, 1) == 0;
    assert rel[..2] == rel && rel[1..2] == [c];
  }

  lemma AtRoot(t: Tree, c: char)
    requires c != '/'
    ensures Place(t, ['/', c]) == Some((t.root, [c]))
  {
    OneLevel(c);
    SlashComponents([]);
    EmptyComponents();
    assert "/" + [] == "/";
  }

  /** A tree with the single file "/a". */
  function OneFileTree(): Tree { Tree(0, map[1 := 0], map[1 := "a"], map[0 := 0, 1 := 1]) }

  lemma OneFileCanRename()
    ensures var t := OneFileTree();
            GoesAhead(t, "/a", "/.", 1, 0, ".") && Child(t, 0, ".").None? && Child(t, 0, "b").None?
  {
    hide Place, SplitOf;
    var t := OneFileTree();
    assert t.rank.Keys == Nodes(t);
    AtRoot(t, 'a');
    AtRoot(t, '.');
    OneLevel('a');
    OneLevel('.');
    ChildIs(t, 0, "a", 1);
    forall y ensures !IsChild(t, 0, ".", y) && !IsChild(t, 0, "b", y) {}
    assert !Under(t, 0, 1);
  }

  /** With the single file "/a", renaming it to "/." goes ahead and no walk reaches it afterwards;
      renaming "/." to "/b" then goes ahead too, and a walk of "/b" reaches it. */
  lemma DottedRenameHidesAndReturns()
    ensures var t := OneFileTree();
            && GoesAhead(t, "/a", "/.", 1, 0, ".")
            && var t' := Rename(t, 1, 0, ".");
               && (forall raw: Path :: WalkTo(t', raw) != Some(1))
               && GoesAhead(t', "/.", "/b", 1, 0, "b")
               && WalkTo(Rename(t', 1, 0, "b"), "/b") == Some(1)
  {
    hide Place, Entry, WalkTo, Rename, AllPlain, SplitOf, CanRename, Child, Lookup;
    OneFileCanRename();
    var t := OneFileTree();
    var t' := Rename(t, 1, 0, ".");
    RenameKeepsWalkable(t, "/a", "/.", 1, 0, ".");
    OneFileRenamed();
    OneLevel('b');
    OneLevel('.');
    RootHasNoComponents();
    RenamedIsEntry(t, "/a", "/.", 1, 0, ".");
    AtRoot(t', 'b');
    RenamedAt(t', 1, 0, "b");
    WellFormedOf(t', 1, 0, "b");
    RootPath(t');
    assert [] + ["b"] == ["b"];
    WalkOfOne(Rename(t', 1, 0, "b"), 'b');
  }

  lemma RootHasNoComponents()
    ensures Components("/") == [] && AllPlain([])
  {
    SlashComponents([]);
    EmptyComponents();
    assert "/" + [] == "/";
  }

  lemma WalkOfOne(t: Tree, c: char)
    requires c != '/' && c != '.'
    ensures WalkTo(t, ['/', c]) == Lookup(t, [[c]])
  {
    var cs := [[c]];
    assert cs[..0] == [];
    assert Printed(cs) == [] + "/" + [c] == ['/', c];
    assert Plain(cs[0]);
    WalkIsLookup(t, cs);
  }

  lemma OneFileRenamed()
    ensures var t := OneFileTree(); CanRename(t, 1, 0, ".")
    ensures var t' := Rename(OneFileTree(), 1, 0, "."); t'.root == 0 && CanRename(t', 1, 0, "b")
  {
    OneFileCanRename();
    var t := OneFileTree();
    RenameWellFormed(t, 1, 0, ".");
    MoveChild(t, 1, 0, ".", 0, "b");
    assert 0 !in Rename(t, 1, 0, ".").parent;
  }

  // ---- a rename that frees an open file --------------------------------------------------------------

  lemma InRoot(t: Tree, c: char)
    requires c != '/'
    ensures Place(t, ['/', c]) == Some((t.root, [c])) && Entry(t, ['/', c]) == Child(t, t.root, [c])
    ensures Components(['/', c]) != []
  {
    AtRoot(t, c);
    OneLevel(c);
    SplitComponents(['/', c]);
  }

  /** A new file system with the files "/a" and "/b". */
  method MakeTwoFiles() returns (fs: Tmpfs, ghost x: Id, ghost y: Id)
    ensures fresh(fs) && fs.Safe() && WellFormed(fs.tree) && HasTwoFiles(fs.tree, fs.pool, x, y)
  {
    hide Place, Entry, Components, SplitOf, WalkTo, Child, Add, HandlesOk, Represents, FreeOk, MakeOutcome, WellFormed;
    fs := new Tmpfs();
    ghost var t0 := fs.tree;
    EmptyRoot(t0);
    NothingThere(t0, fs.pool, fs.free, 'a');
    var r: Errno;
    r, x := fs.CreateFile("/a");
    OneFile(t0, x);
    NothingThere(fs.tree, fs.pool, fs.free, 'b');
    r, y := fs.CreateFile("/b");
    TwoFiles(t0, x, y);
  }

  ghost predicate HasTwoFiles(t: Tree, pool: Pool, x: Id, y: Id) {
    && t.root in t.rank && y in t.rank && t.root !in t.parent && x != t.root && x != y
    && Child(t, t.root, "a") == Some(x) && Child(t, t.root, "b") == Some(y)
    && IsDir(pool, t.root) && x < |pool| && !pool[x].kind.Dir? && y < |pool| && !pool[y].kind.Dir?
  }

  /** Two files, the second of them open, and the first renamed to the second: the open file's slot is
      free although a handle is still on it. */
  method HeldDestinationIsFreed() returns (fs: Tmpfs)
    ensures fs.Valid() && !fs.Safe() && exists x: Id :: x in fs.free && x < |fs.opens| && fs.opens[x] > 0
  {
    hide Place, Entry, Components, SplitOf, WalkTo, Child, HandlesOk, Represents, FreeOk, RenameOutcome;
    hide WellFormed, CanRename, Rename;
    ghost var x: Id, y: Id, src: Id, dst: int;
    var r: Errno;
    fs, x, y := MakeTwoFiles();
    fs.InUse(y);
    fs.HandleCount();
    WalkInRoot(fs.tree, 'b', y);
    var h: int := fs.Walk("/b");
    fs.Retain(h);
    CanReplace(fs.tree, fs.pool, x, y);
    r, src, dst := fs.RenamePath("/a", "/b");
    assert y in fs.free && fs.opens[y] > 0;
  }

  lemma WalkInRoot(t: Tree, c: char, x: Id)
    requires c != '/' && c != '.' && Child(t, t.root, [c]) == Some(x)
    ensures WalkTo(t, ['/', c]) == Some(x)
  {
    WalkOfOne(t, c);
    assert [[c]][..0] == [];
    assert Descend(t, t.root, [[c]][..0]) == Some(t.root);
  }

  lemma EmptyRoot(t: Tree)
    requires t == Tree(t.root, map[], map[], map[t.root := 0])
    ensures WellFormed(t) && t.root in t.rank && forall s :: Child(t, t.root, s).None?
  {
  }

  lemma OneFile(t0: Tree, x: Id)
    requires t0 == Tree(t0.root, map[], map[], map[t0.root := 0]) && x !in t0.rank
    ensures var t1 := Add(t0, x, t0.root, "a");
            && WellFormed(t1) && t1.root == t0.root && t1.root in t1.rank && x in t1.rank
            && Child(t1, t1.root, "a") == Some(x) && Child(t1, t1.root, "b").None?
  {
    EmptyRoot(t0);
    AddWellFormed(t0, x, t0.root, "a");
    AddChild(t0, x, t0.root, "a", t0.root, "a");
    AddChild(t0, x, t0.root, "a", t0.root, "b");
  }

  lemma TwoFiles(t0: Tree, x: Id, y: Id)
    requires t0 == Tree(t0.root, map[], map[], map[t0.root := 0]) && x !in t0.rank
    requires y !in Add(t0, x, t0.root, "a").rank
    ensures t0.root in Add(t0, x, t0.root, "a").rank
    ensures var t2 := Add(Add(t0, x, t0.root, "a"), y, t0.root, "b");
               && WellFormed(t2) && t2.root == t0.root && x != y && t2.root !in t2.parent && x != t2.root
               && x in t2.rank && y in t2.rank && t2.root in t2.rank
               && Child(t2, t2.root, "a") == Some(x) && Child(t2, t2.root, "b") == Some(y)
  {
    OneFile(t0, x);
    var t1 := Add(t0, x, t0.root, "a");
    AddWellFormed(t1, y, t1.root, "b");
    AddChild(t1, y, t1.root, "b", t1.root, "a");
    AddChild(t1, y, t1.root, "b", t1.root, "b");
  }

  lemma CanReplace(t: Tree, pool: Pool, x: Id, y: Id)
    requires WellFormed(t) && HasTwoFiles(t, pool, x, y)
    ensures RenameOutcome(t, pool, "/a", "/b") == OK && Entry(t, "/a") == Some(x) && Entry(t, "/b") == Some(y)
  {
    hide Components, Place, Entry, Child;
    InRoot(t, 'a');
    InRoot(t, 'b');
    assert ['/', 'a'] == "/a" && ['/', 'b'] == "/b";
  }

  lemma NothingThere(t: Tree, pool: Pool, free: seq<Id>, c: char)
    requires c != '/' && Child(t, t.root, [c]).None? && IsDir(pool, t.root) && free != []
    ensures Components(['/', c]) != [] && MakeOutcome(t, pool, free, ['/', c], true) == OK
    ensures Place(t, ['/', c]) == Some((t.root, [c]))
  {
    InRoot(t, c);
  }
}
