/** What changing the protection of a range and unmapping one do to the protection in force.  The
    page-fault handler goes by the last record that covers an address; parts that a change splits off go to
    the end of the table, behind newer records, while unmapping takes from the first. */
module MmapInForce {
  import opened Prelude
  import opened MmapRecords
  import opened MmapReflag

  /** The part of a record that `a` lies in is split off. */
  predicate Cuts(r: Rec, c: Change, room: nat, a: nat) {
    && Touches(r, c) && Has(r, a)
    && ((a >= c.end && SplitsAbove(r, c, room)) || (a < c.addr && SplitsBelow(r, c, room)))
  }

  /** The protection of the last record from which a part with `a` in it is split off. */
  function LastCut(recs: seq<Rec>, c: Change, room: nat, a: nat): Option<nat>
    requires c.addr <= c.end
  {
    if recs == [] then None
    else if Cuts(recs[|recs| - 1], c, Left(recs[..|recs| - 1], c, room), a) then Some(recs[|recs| - 1].flags)
    else LastCut(recs[..|recs| - 1], c, room, a)
  }

  /** The last record that covers `a` meets the range. */
  predicate TopTouched(recs: seq<Rec>, c: Change, a: nat) {
    recs != []
    && if Has(recs[|recs| - 1], a) then Touches(recs[|recs| - 1], c) else TopTouched(recs[..|recs| - 1], c, a)
  }

  function Repainted(recs: seq<Rec>, c: Change, a: nat): Option<nat> {
    if TopTouched(recs, c, a) then Some(c.flags) else InForce(recs, a)
  }

  // ---- the table afterwards -------------------------------------------------------------------------

  lemma SplitExtra(r: Rec, c: Change, room: nat, a: nat)
    requires c.addr <= c.end
    ensures InForce(Split(r, c, room).extra, a) == if Cuts(r, c, room, a) then Some(r.flags) else None
  {
    hide InForce;
    NothingInForce(a);
    if Touches(r, c) {
      var above, below := Rec(c.end, 0, 0), Rec(r.base, 0, 0);
      if SplitsAbove(r, c, room) { above := Rec(c.end, End(r) - c.end, r.flags); }
      if SplitsBelow(r, c, room) { below := Rec(r.base, c.addr - r.base, r.flags); }
      var xs := if SplitsAbove(r, c, room) then [above] else [];
      var ys := if SplitsBelow(r, c, room) then [below] else [];
      assert Split(r, c, room).extra == xs + ys;
      LastOfSnoc([], above, a);
      LastOfSnoc([], below, a);
      assert [] + [above] == [above] && [] + [below] == [below];
      InForceConcat(xs, ys, a);
    }
  }

  lemma {:induction false} ExtraInForce(recs: seq<Rec>, c: Change, room: nat, a: nat)
    requires c.addr <= c.end
    ensures InForce(ExtraOf(recs, c, room), a) == LastCut(recs, c, room, a)
  {
    hide InForce, Split, Left, Cuts;
    if recs == [] {
      NothingInForce(a);
    } else {
      var before := recs[..|recs| - 1];
      ExtraInForce(before, c, room, a);
      InForceConcat(ExtraOf(before, c, room), Last(recs, c, room).extra, a);
      SplitExtra(recs[|recs| - 1], c, Left(before, c, room), a);
    }
  }

  lemma SplitKept(r: Rec, c: Change, room: nat, a: nat)
    requires c.addr <= c.end && !Cuts(r, c, room, a)
    ensures var k := Split(r, c, room).kept;
            Has(k, a) == Has(r, a) && k.flags == if Touches(r, c) then c.flags else r.flags
  {
  }

  lemma {:induction false} KeptInForce(recs: seq<Rec>, c: Change, room: nat, a: nat)
    requires c.addr <= c.end && LastCut(recs, c, room, a).None?
    ensures InForce(KeptOf(recs, c, room), a) == Repainted(recs, c, a)
  {
    hide Split, Left, Cuts, Touches;
    if recs != [] {
      var before := recs[..|recs| - 1];
      KeptInForce(before, c, room, a);
      SplitKept(recs[|recs| - 1], c, Left(before, c, room), a);
      LastOfSnoc(KeptOf(before, c, room), Last(recs, c, room).kept, a);
    }
  }

  /** At every address the last part split off decides; where there is none, the last record does. */
  lemma ReflaggedInForce(recs: seq<Rec>, c: Change, room: nat, a: nat)
    requires c.addr <= c.end
    ensures InForce(Reflagged(recs, c, room), a)
         == if LastCut(recs, c, room, a).Some? then LastCut(recs, c, room, a) else Repainted(recs, c, a)
  {
    hide InForce, LastCut, Repainted, KeptOf, ExtraOf;
    InForceConcat(KeptOf(recs, c, room), ExtraOf(recs, c, room), a);
    ExtraInForce(recs, c, room, a);
    if LastCut(recs, c, room, a).None? { KeptInForce(recs, c, room, a); }
  }

  // ---- inside the range ---------------------------------------------------------------------------

  lemma {:induction false} NoCutInside(recs: seq<Rec>, c: Change, room: nat, a: nat)
    requires c.addr <= c.end && InRange(c, a)
    ensures LastCut(recs, c, room, a).None? && (TopTouched(recs, c, a) <==> InForce(recs, a).Some?)
  {
    if recs != [] { NoCutInside(recs[..|recs| - 1], c, room, a); }
  }

  /** Whatever the room, every covered address of the range has the new protection in force, and no
      other comes to be covered. */
  lemma InsideChanges(recs: seq<Rec>, c: Change, room: nat, a: nat)
    requires c.addr <= c.end && InRange(c, a)
    ensures InForce(Reflagged(recs, c, room), a) == if InForce(recs, a).Some? then Some(c.flags) else None
  {
    hide InForce, LastCut, TopTouched, Reflagged;
    ReflaggedInForce(recs, c, room, a);
    NoCutInside(recs, c, room, a);
  }

  // ---- outside it -----------------------------------------------------------------------------------

  ghost predicate SameOutside(recs: seq<Rec>, after: seq<Rec>, c: Change) {
    forall a: nat | !InRange(c, a) :: InForce(after, a) == InForce(recs, a)
  }

  /** What is put last at `a` has the protection that was in force there: the last part split off or,
      if there is none, the last record with the new protection, if that one meets the range. */
  predicate PutLastAgrees(recs: seq<Rec>, c: Change, room: nat, a: nat)
    requires c.addr <= c.end
  {
    match LastCut(recs, c, room, a)
    case Some(f) => InForce(recs, a) == Some(f)
    case None => TopTouched(recs, c, a) ==> InForce(recs, a) == Some(c.flags)
  }

  ghost predicate OutsideAgrees(recs: seq<Rec>, c: Change, room: nat)
    requires c.addr <= c.end
  {
    forall a: nat | !InRange(c, a) :: PutLastAgrees(recs, c, room, a)
  }

  /** Outside the range nothing in force changes if and only if what is put last agrees with what was in
      force before. */
  lemma OutsideStays(recs: seq<Rec>, c: Change, room: nat)
    requires c.addr <= c.end
    ensures SameOutside(recs, Reflagged(recs, c, room), c) <==> OutsideAgrees(recs, c, room)
  {
    hide InForce, LastCut, TopTouched, Reflagged;
    var after := Reflagged(recs, c, room);
    forall a: nat ensures InForce(after, a) == InForce(recs, a) <==> PutLastAgrees(recs, c, room, a) {
      ReflaggedInForce(recs, c, room, a);
    }
  }

  // ---- with room to split ------------------------------------------------------------------------------

  /** The protection of the last record that covers `a` and meets the range. */
  function LastTouched(recs: seq<Rec>, c: Change, a: nat): Option<nat> {
    if recs == [] then None
    else if Has(recs[|recs| - 1], a) && Touches(recs[|recs| - 1], c) then Some(recs[|recs| - 1].flags)
    else LastTouched(recs[..|recs| - 1], c, a)
  }

  lemma {:induction false} AmpleCuts(recs: seq<Rec>, c: Change, room: nat, a: nat)
    requires c.addr <= c.end && room >= 2 * |recs| && !InRange(c, a)
    ensures LastCut(recs, c, room, a) == LastTouched(recs, c, a)
    ensures TopTouched(recs, c, a) ==> LastTouched(recs, c, a).Some?
  {
    hide Left;
    if recs != [] {
      AmpleRoom(recs[..|recs| - 1], c, room);
      AmpleCuts(recs[..|recs| - 1], c, room, a);
    }
  }

  /** With room to split, nothing outside the range changes if and only if, at every address outside that
      a record meeting the range covers, the last such record has the protection in force. */
  lemma AmpleOutsideStays(recs: seq<Rec>, c: Change, room: nat)
    requires c.addr <= c.end && room >= 2 * |recs|
    ensures SameOutside(recs, Reflagged(recs, c, room), c)
       <==> forall a: nat | !InRange(c, a) && LastTouched(recs, c, a).Some? ::
              LastTouched(recs, c, a) == InForce(recs, a)
  {
    hide InForce, LastCut, LastTouched, TopTouched, Reflagged, SameOutside;
    OutsideStays(recs, c, room);
    forall a: nat | !InRange(c, a)
      ensures PutLastAgrees(recs, c, room, a)
         <==> (LastTouched(recs, c, a).Some? ==> LastTouched(recs, c, a) == InForce(recs, a))
    {
      AmpleCuts(recs, c, room, a);
    }
  }

  /** Where all records that cover an address outside agree and none lacks the room to be split, it keeps
      its protection. */
  lemma AgreedStays(recs: seq<Rec>, c: Change, room: nat, a: nat, f: nat)
    requires c.addr <= c.end && NoSpill(recs, c, room) && !InRange(c, a)
    requires Cover(recs, a, f) > 0 && forall g | g != f :: Cover(recs, a, g) == 0
    ensures InForce(Reflagged(recs, c, room), a) == Some(f)
  {
    hide Cover, InForce, Reflagged, NoSpill, Wanted;
    var after := Reflagged(recs, c, room);
    forall g ensures Cover(after, a, g) == Cover(recs, a, g) {
      NoSpillIsExact(recs, c, room, a, g);
      WantedIs(recs, c, a, g);
    }
    AgreedInForce(after, a, f);
  }

  // ---- unmapping ----------------------------------------------------------------------------------------

  /** The first record that covers `a`, or -1. */
  function First(recs: seq<Rec>, a: nat): (i: int)
    ensures -1 <= i < |recs|
    ensures i >= 0 ==> Has(recs[i], a) && forall k | 0 <= k < i :: !Has(recs[k], a)
    ensures i < 0 ==> forall k | 0 <= k < |recs| :: !Has(recs[k], a)
  {
    if recs == [] then -1
    else
      var i := First(recs[..|recs| - 1], a);
      if i >= 0 then i else if Has(recs[|recs| - 1], a) then |recs| - 1 else -1
  }

  function Without(recs: seq<Rec>, i: nat): seq<Rec>
    requires i < |recs|
  {
    recs[..i] + recs[i + 1..]
  }

  lemma {:induction false} InForceAs(recs: seq<Rec>, i: nat, r: Rec, a: nat)
    requires i < |recs| && Has(r, a) == Has(recs[i], a) && r.flags == recs[i].flags
    ensures InForce(recs[i := r], a) == InForce(recs, a)
  {
    var n := |recs| - 1;
    if i < n {
      assert recs[i := r][..n] == recs[..n][i := r];
      InForceAs(recs[..n], i, r, a);
    } else {
      assert recs[i := r][..n] == recs[..n];
    }
  }

  lemma InForceWithout(recs: seq<Rec>, i: nat, a: nat)
    requires i < |recs| && !Has(recs[i], a)
    ensures InForce(Without(recs, i), a) == InForce(recs, a)
  {
    hide InForce;
    assert recs == (recs[..i] + [recs[i]]) + recs[i + 1..];
    InForceConcat(recs[..i], recs[i + 1..], a);
    InForceConcat(recs[..i] + [recs[i]], recs[i + 1..], a);
    LastOfSnoc(recs[..i], recs[i], a);
  }

  /** The table after taking `span` from record `i`: as before outside it, as without the record in it. */
  ghost predicate Unmapped(recs: seq<Rec>, i: nat, span: Rec, after: seq<Rec>)
    requires i < |recs|
  {
    forall a: nat :: InForce(after, a) == InForce(if Has(span, a) then Without(recs, i) else recs, a)
  }

  lemma TrimInForce(recs: seq<Rec>, i: nat, span: Rec, left: Rec)
    requires i < |recs| && left.flags == recs[i].flags
    requires forall a: nat :: Has(left, a) <==> Has(recs[i], a) && !Has(span, a)
    ensures Unmapped(recs, i, span, recs[i := left])
  {
    hide InForce;
    var after := recs[i := left];
    forall a: nat ensures InForce(after, a) == InForce(if Has(span, a) then Without(recs, i) else recs, a) {
      if Has(span, a) {
        InForceWithout(after, i, a);
        assert Without(after, i) == Without(recs, i);
      } else {
        InForceAs(recs, i, left, a);
      }
    }
  }

  lemma WholeInForce(recs: seq<Rec>, i: nat, span: Rec)
    requires i < |recs| && span == recs[i]
    ensures Unmapped(recs, i, span, Without(recs, i))
  {
    hide InForce, Without;
    forall a: nat ensures InForce(Without(recs, i), a) == InForce(if Has(span, a) then Without(recs, i) else recs, a) {
      if !Has(span, a) { InForceWithout(recs, i, a); }
    }
  }

  lemma {:induction false} SomeInForce(recs: seq<Rec>, a: nat)
    ensures InForce(recs, a).Some? <==> exists k :: 0 <= k < |recs| && Has(recs[k], a)
  {
    if recs != [] {
      var before := recs[..|recs| - 1];
      SomeInForce(before, a);
      if k :| 0 <= k < |recs| && Has(recs[k], a) { assert k < |before| ==> before[k] == recs[k]; }
    }
  }

  /** Another record than `i` covers `a`. */
  predicate Elsewhere(recs: seq<Rec>, i: nat, a: nat) { exists k :: 0 <= k < |recs| && k != i && Has(recs[k], a) }

  lemma WithoutCovers(recs: seq<Rec>, i: nat, a: nat)
    requires i < |recs|
    ensures InForce(Without(recs, i), a).Some? <==> Elsewhere(recs, i, a)
  {
    hide InForce;
    var rest := Without(recs, i);
    SomeInForce(rest, a);
    if k :| 0 <= k < |recs| && k != i && Has(recs[k], a) {
      assert rest[if k < i then k else k - 1] == recs[k];
    }
    if k :| 0 <= k < |rest| && Has(rest[k], a) {
      assert rest[k] == recs[if k < i then k else k + 1];
    }
  }

  /** Unmapping leaves its span uncovered if and only if no other record covers any address of it. */
  lemma UnmapClears(recs: seq<Rec>, i: nat, span: Rec, after: seq<Rec>)
    requires i < |recs| && Unmapped(recs, i, span, after)
    ensures (forall a: nat | Has(span, a) :: InForce(after, a).None?)
       <==> forall a: nat | Has(span, a) :: !Elsewhere(recs, i, a)
  {
    hide InForce, Without, Elsewhere;
    forall a: nat | Has(span, a) ensures InForce(after, a).Some? <==> Elsewhere(recs, i, a) {
      WithoutCovers(recs, i, a);
    }
  }

  /** What the first record loses was in force only if no other record covers the address: taking it away
      changes nothing for the page-fault handler wherever another does. */
  lemma FirstIsNotInForce(recs: seq<Rec>, a: nat)
    requires First(recs, a) >= 0
    ensures InForce(Without(recs, First(recs, a)), a)
         == if Elsewhere(recs, First(recs, a), a) then InForce(recs, a) else None
  {
    hide InForce, Elsewhere;
    var i := First(recs, a);
    WithoutCovers(recs, i, a);
    var x, y := recs[..i], recs[i + 1..];
    assert recs == (x + [recs[i]]) + y;
    InForceConcat(x, y, a);
    InForceConcat(x + [recs[i]], y, a);
    SomeInForce(x, a);
  }
}
