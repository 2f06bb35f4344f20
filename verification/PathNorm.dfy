/** The lexical path normaliser `path_norm` of src/kernel/syscall.c. */
module PathNorm {
  import opened Prelude
  import opened Paths

  const PATH_MAX: nat := 256

  // ---- what it computes ------------------------------------------------------------

  predicate EndsWithSlash(s: Path) { s != [] && s[|s| - 1] == '/' }

  /** The path to normalise: an absolute one by itself, a relative one after its base. */
  function Splice(base: Path, path: Path): Path {
    if path != [] && path[0] == '/' then path
    else if EndsWithSlash(base) then base + path
    else base + "/" + path
  }

  /** The components a path comes to, from the root. */
  function Norm(base: Path, path: Path): seq<string> {
    FoldOnto([], Components(Splice(base, path)))
  }

  /** Every intermediate result fits the output buffer. */
  ghost predicate FitsThroughout(cs: seq<string>) {
    forall i | 0 <= i <= |cs| :: |Print(FoldOnto([], cs[..i]))| < PATH_MAX
  }

  ghost predicate Fits(base: Path, path: Path) {
    |Splice(base, path)| < PATH_MAX && FitsThroughout(Components(Splice(base, path)))
  }

  // ---- the two buffers ----------------------------------------------------------------

  /** Copies `s` after `buf`, refusing to exceed the buffer. */
  method Append(buf: Path, s: Path) returns (r: Option<Path>)
    requires |buf| < PATH_MAX
    ensures r.Some? <==> |buf + s| < PATH_MAX
    ensures r.Some? ==> r.value == buf + s
  {
    var b := buf;
    for i := 0 to |s|
      invariant b == buf + s[..i] && |b| < PATH_MAX
    {
      if |b| >= PATH_MAX - 1 {
        return None;
      }
      b := b + [s[i]];
    }
    assert s[..|s|] == s;
    return Some(b);
  }

  /** Splices base and path into one string. */
  method SpliceInto(base: Path, path: Path) returns (buf: Option<Path>)
    ensures buf.Some? <==> |Splice(base, path)| < PATH_MAX
    ensures buf.Some? ==> buf.value == Splice(base, path)
  {
    buf := Some([]);
    if path == [] || path[0] != '/' {
      buf := Append([], base);
      if buf.None? {
        return;
      }
      assert buf.value == base;
      if base == [] || base[|base| - 1] != '/' {
        buf := Append(buf.value, "/");
        if buf.None? {
          return;
        }
      }
    }
    buf := Append(buf.value, path);
  }

  /** Drops the last component, and the separator before it, from a canonical path. */
  method PopComponent(out: array<char>, n: nat, ghost stack: seq<string>) returns (o: nat)
    requires n <= out.Length && out[..n] == Print(stack) && AreComponents(stack)
    ensures o <= n && out[..o] == Print(Push(stack, ".."))
  {
    o := n;
    if stack == [] {
      assert out[..1] == "/" && out[0] == out[..1][0];
    }
    while o > 1 && out[o - 1] != '/'
      invariant if stack == [] then o == 1 else |Printed(stack[..|stack| - 1])| < o <= n
    {
      PrintedAt(stack, o - 1);
      o := o - 1;
    }
    if o > 1 {
      o := o - 1;
    }
  }

  /** In the last component of a canonical path there is no slash; just before it there is one. */
  lemma PrintedAt(stack: seq<string>, i: nat)
    requires AreComponents(stack) && stack != []
    requires |Printed(stack[..|stack| - 1])| <= i < |Printed(stack)|
    ensures (Printed(stack)[i] == '/') <==> i == |Printed(stack[..|stack| - 1])|
  {
  }

  /** Adds a component, and the separator before it, to a canonical path. */
  method PushComponent(out: array<char>, n: nat, c: string, ghost stack: seq<string>) returns (o: Option<nat>)
    requires out.Length == PATH_MAX && n < PATH_MAX && out[..n] == Print(stack) && AreComponents(stack)
    modifies out
    ensures o.Some? <==> |Print(stack + [c])| < PATH_MAX
    ensures o.Some? ==> o.value < PATH_MAX && out[..o.value] == Print(stack + [c])
  {
    hide Print, AreComponents;
    var i := n;
    assert |Print(stack)| == n;
    PrintPush(stack, c);
    if i > 1 {
      if i >= PATH_MAX - 1 {
        return None;
      }
      out[i] := '/';
      i := i + 1;
    }
    if i + |c| >= PATH_MAX {
      return None;
    }
    ghost var front := out[..i];
    forall k | 0 <= k < |c| {
      out[i + k] := c[k];
    }
    assert out[..i + |c|] == front + c;
    return Some(i + |c|);
  }

  lemma PrintPush(stack: seq<string>, c: string)
    requires AreComponents(stack)
    ensures stack == [] ==> Print(stack + [c]) == Print(stack) + c && |Print(stack)| == 1
    ensures stack != [] ==> Print(stack + [c]) == Print(stack) + "/" + c && |Print(stack)| > 1
  {
    assert (stack + [c])[..|stack|] == stack;
    if stack == [] {
      assert Printed(stack + [c]) == [] + "/" + c == "/" + c;
    }
  }

  /** Rebuilds a path component by component in the output buffer. */
  method Rebuild(buf: Path) returns (r: Option<Path>)
    ensures r.Some? <==> FitsThroughout(Components(buf))
    ensures r.Some? ==> r.value == Print(FoldOnto([], Components(buf)))
  {
    hide Components, Push;
    var out := new char[PATH_MAX](i => '/');
    ghost var all := Components(buf);
    ghost var done: nat := 0;
    var o: nat, i: nat := 1, 0;
    assert buf[0..] == buf && all[0..] == all;
    StartOfFold(all);
    assert out[..1] == "/";
    while i < |buf|
      invariant i <= |buf| && done <= |all| && Components(buf[i..]) == all[done..]
      invariant o < PATH_MAX && out[..o] == Print(FoldOnto([], all[..done]))
      invariant forall k | 0 <= k <= done :: |Print(FoldOnto([], all[..k]))| < PATH_MAX
      decreases |buf| - i
    {
      var start, end := NextComponent(buf, i);
      i := end;
      if start == end {
        assert buf[i..] == [];
        EmptyComponents();
        break;
      }
      FoldStep(all, done);
      var c := buf[start..end];
      assert c == all[done] && all[done..][1..] == all[done + 1..];
      ghost var stack := FoldOnto([], all[..done]);
      var next := Step(out, o, c, stack);
      if next.None? {
        return None;
      }
      o := next.value;
      done := done + 1;
    }
    EndOfFold(buf, i, all, done);
    return Some(out[..o]);
  }

  method Step(out: array<char>, n: nat, c: string, ghost stack: seq<string>) returns (o: Option<nat>)
    requires out.Length == PATH_MAX && n < PATH_MAX && out[..n] == Print(stack) && AreComponents(stack)
    modifies out
    ensures o.Some? <==> |Print(Push(stack, c))| < PATH_MAX
    ensures o.Some? ==> o.value < PATH_MAX && out[..o.value] == Print(Push(stack, c))
  {
    assert |Print(stack)| == n;
    if c == "." {
      return Some(n);
    }
    if c == ".." {
      var k := PopComponent(out, n, stack);
      assert |out[..k]| == k;
      return Some(k);
    }
    o := PushComponent(out, n, c, stack);
  }

  lemma StartOfFold(all: seq<string>)
    ensures FoldOnto([], all[..0]) == [] && Print([]) == "/"
  {
  }

  lemma FoldStep(all: seq<string>, k: nat)
    requires k < |all| && AreComponents(all)
    ensures FoldOnto([], all[..k + 1]) == Push(FoldOnto([], all[..k]), all[k])
    ensures AreComponents(FoldOnto([], all[..k]))
  {
    assert all[..k + 1][..k] == all[..k];
    FoldIsPlain([], all[..k]);
  }

  lemma EndOfFold(buf: Path, i: nat, all: seq<string>, done: nat)
    requires i <= |buf| && done <= |all| && Components(buf[i..]) == all[done..]
    requires i == |buf|
    ensures done == |all| && all[..done] == all
  {
    assert buf[i..] == [];
  }

  /** `path_norm`: folding the components of base and path onto a stack and printing it. */
  method PathNorm(base: Path, path: Path) returns (r: Option<Path>)
    ensures r.Some? <==> Fits(base, path)
    ensures r.Some? ==> r.value == Print(Norm(base, path))
  {
    var buf := SpliceInto(base, path);
    if buf.None? {
      return None;
    }
    r := Rebuild(buf.value);
  }

  // ---- what the result looks like -----------------------------------------------------------

  /** Canonical: a leading slash, plain components, no trailing slash except for the root. */
  ghost predicate Canonical(p: Path) { exists cs :: AllPlain(cs) && p == Print(cs) }

  lemma NormIsPlain(base: Path, path: Path)
    ensures AllPlain(Norm(base, path))
  {
    FoldIsPlain([], Components(Splice(base, path)));
  }

  lemma NormIsCanonical(base: Path, path: Path)
    ensures Canonical(Print(Norm(base, path)))
  {
    NormIsPlain(base, path);
  }

  lemma {:induction false} PrintedShape(cs: seq<string>)
    requires AreComponents(cs) && cs != []
    ensures Printed(cs)[0] == '/' && !EndsWithSlash(Printed(cs))
  {
    if |cs| > 1 { PrintedShape(cs[..|cs| - 1]); }
  }

  lemma CanonicalStartsAtRoot(cs: seq<string>)
    requires AreComponents(cs)
    ensures Print(cs)[0] == '/'
    ensures EndsWithSlash(Print(cs)) <==> cs == []
  {
    if cs != [] { PrintedShape(cs); }
  }

  /** A canonical path is its own normal form, whatever the base. */
  lemma NormOfCanonical(base: Path, cs: seq<string>)
    requires AllPlain(cs)
    ensures Norm(base, Print(cs)) == cs
  {
    CanonicalStartsAtRoot(cs);
    ComponentsPrint(cs);
    FoldOfPlain([], cs);
  }

  /** Normalising twice is normalising once. */
  lemma NormIdempotent(base: Path, path: Path, base2: Path)
    ensures Norm(base2, Print(Norm(base, path))) == Norm(base, path)
  {
    NormIsPlain(base, path);
    NormOfCanonical(base2, Norm(base, path));
  }

  lemma SpliceComponents(base: Path, path: Path)
    requires path == [] || path[0] != '/'
    ensures Components(Splice(base, path)) == Components(base) + Components(path)
  {
    hide Components;
    SlashComponents(path);
    if EndsWithSlash(base) {
      var b := base[..|base| - 1];
      assert base == b + "/" && base + path == b + ("/" + path);
      ComponentsConcat(b, "/" + path);
      ComponentsConcat(b, "/");
      SlashComponents([]);
      EmptyComponents();
      assert "/" + [] == "/";
    } else {
      assert base + "/" + path == base + ("/" + path);
      ComponentsConcat(base, "/" + path);
    }
  }

  lemma SlashComponents(s: Path)
    ensures Components("/" + s) == Components(s)
  {
    assert ("/" + s)[1..] == s;
  }

  /** Walking to `p` and then to a relative `q` is walking to `p/q`. */
  lemma NormComposes(base: Path, p: Path, q: Path)
    requires p != [] && (q == [] || q[0] != '/')
    ensures Norm(Print(Norm(base, p)), q) == Norm(base, p + "/" + q)
  {
    hide Components, Print;
    var stack := Norm(base, p);
    NormIsPlain(base, p);
    SpliceComponents(Print(stack), q);
    ComponentsPrint(stack);
    FoldConcat([], stack, Components(q));
    FoldOfPlain([], stack);
    assert [] + stack == stack;
    SpliceJoin(base, p, q);
    FoldConcat([], Components(Splice(base, p)), Components(q));
  }

  lemma SpliceJoin(base: Path, p: Path, q: Path)
    requires p != []
    ensures Components(Splice(base, p + "/" + q)) == Components(Splice(base, p)) + Components(q)
  {
    hide Components;
    var s := Splice(base, p);
    assert (p + "/" + q)[0] == p[0];
    assert Splice(base, p + "/" + q) == s + ("/" + q);
    ComponentsConcat(s, "/" + q);
    SlashComponents(q);
  }

  /** What a last component does: a name goes one level down, "." stays, ".." goes one level up, and from the
      root nowhere; an absolute path ignores its base, and an empty one stays there. */
  lemma NormSteps(base: Path, p: Path, name: string)
    requires p != [] && Plain(name)
    ensures Norm(base, p + "/" + name) == Norm(base, p) + [name]
    ensures Norm(base, p + "/" + ".") == Norm(base, p)
    ensures var n := Norm(base, p); Norm(base, p + "/" + "..") == if n == [] then [] else n[..|n| - 1]
  {
    LastStep(base, p, name);
    LastStep(base, p, ".");
    LastStep(base, p, "..");
  }

  lemma LastStep(base: Path, p: Path, c: string)
    requires p != [] && IsComponent(c)
    ensures Norm(base, p + "/" + c) == Push(Norm(base, p), c)
  {
    hide Components, Push, IsComponent;
    SpliceJoin(base, p, c);
    OneComponent(c);
    FoldConcat([], Components(Splice(base, p)), [c]);
    FoldOne(Norm(base, p), c);
  }

  lemma OneComponent(c: string)
    requires IsComponent(c)
    ensures Components(c) == [c]
  {
    hide Components;
    assert c + [] == c;
    ComponentsCons(c, []);
    EmptyComponents();
  }

  lemma FoldOne(stack: seq<string>, c: string)
    ensures FoldOnto(stack, [c]) == Push(stack, c)
  {
    assert [c][..0] == [];
    assert FoldOnto(stack, []) == stack;
  }

  lemma NormStarts(base: Path, base2: Path, p: Path)
    requires p != [] && p[0] == '/'
    ensures Norm(base, p) == Norm(base2, p) && Norm(base, []) == FoldOnto([], Components(base))
  {
    hide Components;
    SpliceComponents(base, []);
    EmptyComponents();
    assert Components(base) + [] == Components(base);
  }

  // ---- an absolute path always fits -----------------------------------------------------------

  lemma {:induction false} PushLength(stack: seq<string>, c: string)
    ensures |Printed(Push(stack, c))| <= |Printed(stack)| + 1 + |c|
  {
    if c != "." && c != ".." { assert (stack + [c])[..|stack|] == stack; }
  }

  /** The room `cs` takes when every component is preceded by a slash. */
  lemma {:induction false} FoldLength(cs: seq<string>)
    ensures |Printed(FoldOnto([], cs))| <= |Printed(cs)|
  {
    if cs != [] {
      FoldLength(cs[..|cs| - 1]);
      PushLength(FoldOnto([], cs[..|cs| - 1]), cs[|cs| - 1]);
    }
  }

  lemma {:induction false} PrefixLength(cs: seq<string>, i: nat)
    requires i <= |cs|
    ensures |Printed(cs[..i])| <= |Printed(cs)|
    decreases |cs|
  {
    if i < |cs| {
      PrefixLength(cs[..|cs| - 1], i);
      assert cs[..|cs| - 1][..i] == cs[..i];
    } else {
      assert cs[..i] == cs;
    }
  }

  lemma PrintedCons(c: string, cs: seq<string>)
    ensures |Printed([c] + cs)| == 1 + |c| + |Printed(cs)|
    decreases |cs|
  {
    var s := [c] + cs;
    if cs == [] {
      assert s[..0] == [];
    } else {
      PrintedCons(c, cs[..|cs| - 1]);
      assert s[..|s| - 1] == [c] + cs[..|cs| - 1];
    }
  }

  /** The components of a path take no more room than the path, up to a missing leading slash. */
  lemma {:induction false} ComponentsLength(s: Path)
    ensures |Printed(Components(s))| <= |s| + (if s != [] && s[0] != '/' then 1 else 0)
    decreases |s|
  {
    if s != [] {
      if s[0] == '/' {
        ComponentsLength(s[1..]);
      } else {
        var e := NextSlash(s, 0);
        ComponentsLength(s[e..]);
        PrintedCons(s[..e], Components(s[e..]));
      }
    }
  }

  /** From an absolute base the only failure is a spliced path longer than the buffer. */
  lemma AbsoluteFits(base: Path, path: Path)
    requires Splice(base, path)[0] == '/'
    ensures Fits(base, path) <==> |Splice(base, path)| < PATH_MAX
  {
    var s := Splice(base, path);
    var cs := Components(s);
    forall i | 0 <= i <= |cs| ensures |Print(FoldOnto([], cs[..i]))| <= |s| {
      FoldLength(cs[..i]);
      PrefixLength(cs, i);
      ComponentsLength(s);
    }
  }
}
