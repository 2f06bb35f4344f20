/** Slash-separated paths: their components, the canonical form of a path, and folding "." and ".."
    away. */
module Paths {
  import opened Prelude

  type Path = string

  // ---- components -------------------------------------------------------------------

  /** The first position at or after `i` that holds a slash. */
  function NextSlash(s: Path, i: nat): (j: nat)
    requires i <= |s|
    ensures i <= j <= |s|
    ensures forall k | i <= k < j :: s[k] != '/'
    ensures j < |s| ==> s[j] == '/'
    decreases |s| - i
  {
    if i == |s| || s[i] == '/' then i else NextSlash(s, i + 1)
  }

  predicate IsComponent(c: string) { c != [] && forall i | 0 <= i < |c| :: c[i] != '/' }

  ghost predicate AreComponents(cs: seq<string>) { forall i | 0 <= i < |cs| :: IsComponent(cs[i]) }

  /** The non-empty stretches between slashes. */
  function Components(s: Path): (cs: seq<string>)
    ensures AreComponents(cs)
    decreases |s|
  {
    if s == [] then []
    else if s[0] == '/' then Components(s[1..])
    else [s[..NextSlash(s, 0)]] + Components(s[NextSlash(s, 0)..])
  }

  /** A component that names a directory entry, as opposed to a step to oneself or one's parent. */
  predicate Plain(c: string) { IsComponent(c) && c != "." && c != ".." }

  ghost predicate AllPlain(cs: seq<string>) { forall i | 0 <= i < |cs| :: Plain(cs[i]) }

  /** The canonical spelling of a list of components: the root is a slash by itself. */
  function Print(cs: seq<string>): Path {
    if cs == [] then "/" else Printed(cs)
  }

  function Printed(cs: seq<string>): Path {
    if cs == [] then [] else Printed(cs[..|cs| - 1]) + "/" + cs[|cs| - 1]
  }

  /** One component folded onto a stack: "." is dropped and ".." pops, stopping at the root. */
  function Push(stack: seq<string>, c: string): seq<string> {
    if c == "." then stack
    else if c == ".." then (if stack == [] then [] else stack[..|stack| - 1])
    else stack + [c]
  }

  function FoldOnto(stack: seq<string>, cs: seq<string>): seq<string> {
    if cs == [] then stack else Push(FoldOnto(stack, cs[..|cs| - 1]), cs[|cs| - 1])
  }

  // ---- facts about components ----------------------------------------------------------

  /** One component in front of a slash or of the end. */
  lemma ComponentsCons(c: string, rest: Path)
    requires IsComponent(c) && (rest == [] || rest[0] == '/')
    ensures Components(c + rest) == [c] + Components(rest)
  {
    var s := c + rest;
    assert s[0] == c[0] != '/';
    var e := NextSlash(s, 0);
    assert e == |c| by {
      assert forall k | 0 <= k < |c| :: s[k] == c[k];
      assert rest != [] ==> s[|c|] == rest[0];
    }
    assert s[..e] == c && s[e..] == rest;
  }

  /** Splitting a path at a slash splits its components. */
  lemma {:induction false} ComponentsConcat(a: Path, b: Path)
    requires b == [] || b[0] == '/'
    ensures Components(a + b) == Components(a) + Components(b)
    decreases |a|
  {
    hide IsComponent, Components, NextSlash;
    if a == [] {
      assert a + b == b;
      EmptyComponents();
    } else if a[0] == '/' {
      assert (a + b)[1..] == a[1..] + b;
      SkipSlash(a);
      SkipSlash(a + b);
      ComponentsConcat(a[1..], b);
    } else {
      var e := NextSlash(a, 0);
      var c, rest := a[..e], a[e..];
      assert a == c + rest && a + b == c + (rest + b);
      IsFirstComponent(a);
      ComponentsCons(c, rest);
      ComponentsCons(c, rest + b);
      ComponentsConcat(rest, b);
    }
  }

  lemma SkipSlash(s: Path)
    requires s != [] && s[0] == '/'
    ensures Components(s) == Components(s[1..])
  {
  }

  lemma IsFirstComponent(a: Path)
    requires a != [] && a[0] != '/'
    ensures IsComponent(a[..NextSlash(a, 0)]) && NextSlash(a, 0) > 0
  {
  }

  /** A canonical path has exactly the components it was printed from. */
  lemma {:induction false} ComponentsPrinted(cs: seq<string>)
    requires AreComponents(cs)
    ensures Components(Printed(cs)) == cs
  {
    hide IsComponent;
    if cs != [] {
      var before, c := cs[..|cs| - 1], cs[|cs| - 1];
      ComponentsPrinted(before);
      assert Printed(cs) == Printed(before) + ("/" + c);
      ComponentsConcat(Printed(before), "/" + c);
      assert ("/" + c)[1..] == c == c + [];
      ComponentsCons(c, []);
    }
  }

  lemma ComponentsPrint(cs: seq<string>)
    requires AreComponents(cs)
    ensures Components(Print(cs)) == cs
  {
    if cs == [] {
      assert "/"[1..] == [];
    } else {
      ComponentsPrinted(cs);
    }
  }

  /** The next component at or after position `i`; an empty one at the end. */
  method NextComponent(buf: Path, i: nat) returns (start: nat, end: nat)
    requires i <= |buf|
    ensures i <= start <= end <= |buf|
    ensures start == end ==> end == |buf| && Components(buf[i..]) == []
    ensures start < end ==> i < end && Components(buf[i..]) == [buf[start..end]] + Components(buf[end..])
  {
    start := i;
    while start < |buf| && buf[start] == '/'
      invariant i <= start <= |buf|
      invariant Components(buf[start..]) == Components(buf[i..])
    {
      assert buf[start..][1..] == buf[start + 1..];
      start := start + 1;
    }
    end := start;
    while end < |buf| && buf[end] != '/'
      invariant start <= end <= |buf|
      invariant forall k | start <= k < end :: buf[k] != '/'
    {
      end := end + 1;
    }
    if start < end {
      var c, rest := buf[start..end], buf[end..];
      assert buf[start..] == c + rest;
      ComponentsCons(c, rest);
    } else {
      assert buf[start..] == [];
    }
  }

  lemma EmptyComponents()
    ensures Components([]) == []
  {
  }

  // ---- facts about folding -----------------------------------------------------------------

  lemma {:induction false} FoldConcat(stack: seq<string>, a: seq<string>, b: seq<string>)
    ensures FoldOnto(stack, a + b) == FoldOnto(FoldOnto(stack, a), b)
    decreases |b|
  {
    if b == [] {
      assert a + b == a;
    } else {
      assert (a + b)[..|a + b| - 1] == a + b[..|b| - 1];
      FoldConcat(stack, a, b[..|b| - 1]);
    }
  }

  /** Folding leaves only plain components: ".." cannot leave the root. */
  lemma {:induction false} FoldIsPlain(stack: seq<string>, cs: seq<string>)
    requires AllPlain(stack) && AreComponents(cs)
    ensures AllPlain(FoldOnto(stack, cs))
  {
    hide IsComponent;
    if cs != [] { FoldIsPlain(stack, cs[..|cs| - 1]); }
  }

  lemma {:induction false} FoldOfPlain(stack: seq<string>, cs: seq<string>)
    requires AllPlain(cs)
    ensures FoldOnto(stack, cs) == stack + cs
  {
    if cs != [] {
      FoldOfPlain(stack, cs[..|cs| - 1]);
      assert stack + cs[..|cs| - 1] + [cs[|cs| - 1]] == stack + cs;
    }
  }
}
