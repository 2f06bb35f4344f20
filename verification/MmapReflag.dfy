/** Changing the protection of an address range, as values: records that straddle the range are split
    while there is room for more records. */
module MmapReflag {
  import opened MmapRecords

  /** The range that changes, up to but excluding `end`, and its new protection. */
  datatype Change = Change(addr: nat, end: nat, flags: nat)

  predicate InRange(c: Change, a: nat) { c.addr <= a < c.end }

  predicate Touches(r: Rec, c: Change) { Overlaps(r, c.addr, c.end) }

  /** What becomes of a record when `room` more records fit: the record in its place, and the parts
      split off above and below the range. */
  datatype Parts = Parts(kept: Rec, extra: seq<Rec>)

  predicate SplitsAbove(r: Rec, c: Change, room: nat) { End(r) > c.end && room > 0 }

  predicate SplitsBelow(r: Rec, c: Change, room: nat) {
    r.base < c.addr && room > (if SplitsAbove(r, c, room) then 1 else 0)
  }

  function Split(r: Rec, c: Change, room: nat): (p: Parts)
    requires c.addr <= c.end
    ensures |p.extra| <= room && |p.extra| <= 2
  {
    if !Touches(r, c) then Parts(r, [])
    else
      var lo := if SplitsBelow(r, c, room) then c.addr else r.base;
      var hi := if SplitsAbove(r, c, room) then c.end else End(r);
      Parts(Rec(lo, hi - lo, c.flags),
            (if SplitsAbove(r, c, room) then [Rec(c.end, End(r) - c.end, r.flags)] else [])
            + (if SplitsBelow(r, c, room) then [Rec(r.base, c.addr - r.base, r.flags)] else []))
  }

  // ---- a whole table ---------------------------------------------------------------------

  /** The room left after the records have been dealt with in order. */
  function Left(recs: seq<Rec>, c: Change, room: nat): (m: nat)
    requires c.addr <= c.end
    ensures m <= room
  {
    if recs == [] then room
    else
      var m := Left(recs[..|recs| - 1], c, room);
      m - |Split(recs[|recs| - 1], c, m).extra|
  }

  function Last(recs: seq<Rec>, c: Change, room: nat): Parts
    requires c.addr <= c.end && recs != []
  {
    Split(recs[|recs| - 1], c, Left(recs[..|recs| - 1], c, room))
  }

  function KeptOf(recs: seq<Rec>, c: Change, room: nat): (ks: seq<Rec>)
    requires c.addr <= c.end
    ensures |ks| == |recs|
  {
    if recs == [] then [] else KeptOf(recs[..|recs| - 1], c, room) + [Last(recs, c, room).kept]
  }

  function ExtraOf(recs: seq<Rec>, c: Change, room: nat): (xs: seq<Rec>)
    requires c.addr <= c.end
    ensures |xs| == room - Left(recs, c, room)
  {
    if recs == [] then [] else ExtraOf(recs[..|recs| - 1], c, room) + Last(recs, c, room).extra
  }

  /** The table afterwards: the records in place, then the parts split off. */
  function Reflagged(recs: seq<Rec>, c: Change, room: nat): seq<Rec>
    requires c.addr <= c.end
  {
    KeptOf(recs, c, room) + ExtraOf(recs, c, room)
  }

  // ---- what it should come to -----------------------------------------------------------------

  /** A record covers the range with the new protection and the rest with its own. */
  function WantedHits(r: Rec, c: Change, a: nat, f: nat): nat {
    if Has(r, a) && f == (if InRange(c, a) then c.flags else r.flags) then 1 else 0
  }

  function Wanted(recs: seq<Rec>, c: Change, a: nat, f: nat): nat {
    if recs == [] then 0 else Wanted(recs[..|recs| - 1], c, a, f) + WantedHits(recs[|recs| - 1], c, a, f)
  }

  /** Inside the range every covering record has the new protection; outside nothing changes. */
  lemma {:induction false} WantedIs(recs: seq<Rec>, c: Change, a: nat, f: nat)
    ensures Wanted(recs, c, a, f)
         == if !InRange(c, a) then Cover(recs, a, f) else if f == c.flags then Depth(recs, a) else 0
  {
    if recs != [] { WantedIs(recs[..|recs| - 1], c, a, f); }
  }

  ghost predicate Exact(recs: seq<Rec>, after: seq<Rec>, c: Change) {
    forall a: nat, f: nat :: Cover(after, a, f) == Wanted(recs, c, a, f)
  }

  /** Too little room to split a record whose protection changes. */
  predicate Spills(r: Rec, c: Change, room: nat) {
    && Touches(r, c) && r.flags != c.flags
    && ((End(r) > c.end && !SplitsAbove(r, c, room)) || (r.base < c.addr && !SplitsBelow(r, c, room)))
  }

  predicate NoSpill(recs: seq<Rec>, c: Change, room: nat)
    requires c.addr <= c.end
  {
    recs == [] || (NoSpill(recs[..|recs| - 1], c, room) && !Spills(recs[|recs| - 1], c, Left(recs[..|recs| - 1], c, room)))
  }

  // ---- one record -----------------------------------------------------------------------------

  function PartHits(p: Parts, a: nat, f: nat): nat { Hits(p.kept, a, f) + Cover(p.extra, a, f) }

  lemma CoverFew(a: nat, f: nat)
    ensures Cover([], a, f) == 0
    ensures forall r :: Cover([r], a, f) == Hits(r, a, f)
    ensures forall r, s :: Cover([r, s], a, f) == Hits(r, a, f) + Hits(s, a, f)
  {
    forall r ensures Cover([r], a, f) == Hits(r, a, f) {
      assert [r][..0] == [];
    }
    forall r, s ensures Cover([r, s], a, f) == Hits(r, a, f) + Hits(s, a, f) {
      assert [r, s][..1] == [r];
    }
  }

  lemma ExtraHits(r: Rec, c: Change, room: nat, a: nat, f: nat)
    requires c.addr <= c.end && Touches(r, c)
    ensures Cover(Split(r, c, room).extra, a, f)
         == (if SplitsAbove(r, c, room) then Hits(Rec(c.end, End(r) - c.end, r.flags), a, f) else 0)
            + (if SplitsBelow(r, c, room) then Hits(Rec(r.base, c.addr - r.base, r.flags), a, f) else 0)
  {
    hide Cover;
    CoverFew(a, f);
    var xs := if SplitsAbove(r, c, room) then [Rec(c.end, End(r) - c.end, r.flags)] else [];
    var ys := if SplitsBelow(r, c, room) then [Rec(r.base, c.addr - r.base, r.flags)] else [];
    assert Split(r, c, room).extra == xs + ys;
    if xs == [] {
      assert xs + ys == ys;
    } else if ys == [] {
      assert xs + ys == xs;
    } else {
      assert xs + ys == [xs[0], ys[0]];
    }
  }

  /** A record that does not spill ends up as wanted. */
  lemma SplitHits(r: Rec, c: Change, room: nat, a: nat, f: nat)
    requires c.addr <= c.end && !Spills(r, c, room)
    ensures PartHits(Split(r, c, room), a, f) == WantedHits(r, c, a, f)
  {
    if Touches(r, c) { ExtraHits(r, c, room, a, f); } else { CoverFew(a, f); }
  }

  /** Outside the range, and for any other protection, a record never covers more than wanted. */
  lemma SplitAtMost(r: Rec, c: Change, room: nat, a: nat, f: nat)
    requires c.addr <= c.end && !InRange(c, a) && f != c.flags
    ensures PartHits(Split(r, c, room), a, f) <= WantedHits(r, c, a, f)
  {
    if Touches(r, c) { ExtraHits(r, c, room, a, f); } else { CoverFew(a, f); }
  }

  /** One that spills takes an address outside the range with it. */
  function SpillAt(r: Rec, c: Change, room: nat): nat {
    if End(r) > c.end && !SplitsAbove(r, c, room) then (if r.base > c.end then r.base else c.end) else r.base
  }

  lemma SpillLosesOne(r: Rec, c: Change, room: nat)
    requires c.addr <= c.end && Spills(r, c, room)
    ensures var a := SpillAt(r, c, room);
            !InRange(c, a) && PartHits(Split(r, c, room), a, r.flags) < WantedHits(r, c, a, r.flags)
  {
    ExtraHits(r, c, room, SpillAt(r, c, room), r.flags);
  }

  // ---- the whole table -------------------------------------------------------------------------

  lemma {:induction false} CoverConcat(x: seq<Rec>, y: seq<Rec>, a: nat, f: nat)
    ensures Cover(x + y, a, f) == Cover(x, a, f) + Cover(y, a, f)
    decreases |y|
  {
    if y == [] {
      assert x + y == x;
    } else {
      assert (x + y)[..|x + y| - 1] == x + y[..|y| - 1];
      CoverConcat(x, y[..|y| - 1], a, f);
    }
  }

  /** The table covers what its records' parts cover. */
  lemma ReflaggedStep(recs: seq<Rec>, c: Change, room: nat, a: nat, f: nat)
    requires c.addr <= c.end && recs != []
    ensures Cover(Reflagged(recs, c, room), a, f)
         == Cover(Reflagged(recs[..|recs| - 1], c, room), a, f) + PartHits(Last(recs, c, room), a, f)
  {
    hide Split, Left, Cover;
    var before := recs[..|recs| - 1];
    var ks, xs, p := KeptOf(before, c, room), ExtraOf(before, c, room), Last(recs, c, room);
    CoverConcat(ks, xs, a, f);
    CoverConcat(ks + [p.kept], xs + p.extra, a, f);
    CoverConcat(xs, p.extra, a, f);
    CoverSnoc(ks, p.kept, a, f);
  }

  lemma {:induction false} NoSpillIsExact(recs: seq<Rec>, c: Change, room: nat, a: nat, f: nat)
    requires c.addr <= c.end && NoSpill(recs, c, room)
    ensures Cover(Reflagged(recs, c, room), a, f) == Wanted(recs, c, a, f)
  {
    hide Split, Cover, Spills, Left;
    if recs == [] {
      Nothing(c, room, a, f);
    } else {
      NoSpillIsExact(recs[..|recs| - 1], c, room, a, f);
      ReflaggedStep(recs, c, room, a, f);
      SplitHits(recs[|recs| - 1], c, Left(recs[..|recs| - 1], c, room), a, f);
    }
  }

  lemma Nothing(c: Change, room: nat, a: nat, f: nat)
    requires c.addr <= c.end
    ensures Cover(Reflagged([], c, room), a, f) == 0
  {
    assert Reflagged([], c, room) == [];
  }

  lemma {:induction false} ReflaggedAtMost(recs: seq<Rec>, c: Change, room: nat, a: nat, f: nat)
    requires c.addr <= c.end && !InRange(c, a) && f != c.flags
    ensures Cover(Reflagged(recs, c, room), a, f) <= Wanted(recs, c, a, f)
  {
    hide Split, Cover, Left;
    if recs == [] {
      Nothing(c, room, a, f);
    } else {
      ReflaggedAtMost(recs[..|recs| - 1], c, room, a, f);
      ReflaggedStep(recs, c, room, a, f);
      SplitAtMost(recs[|recs| - 1], c, Left(recs[..|recs| - 1], c, room), a, f);
    }
  }

  lemma {:induction false} SpillLoses(recs: seq<Rec>, c: Change, room: nat) returns (a: nat, f: nat)
    requires c.addr <= c.end && !NoSpill(recs, c, room)
    ensures !InRange(c, a) && f != c.flags && Cover(Reflagged(recs, c, room), a, f) < Wanted(recs, c, a, f)
  {
    hide Split, Cover, Left;
    var before, r, m := recs[..|recs| - 1], recs[|recs| - 1], Left(recs[..|recs| - 1], c, room);
    if Spills(r, c, m) {
      a, f := SpillAt(r, c, m), r.flags;
      SpillLosesOne(r, c, m);
      ReflaggedAtMost(before, c, room, a, f);
    } else {
      a, f := SpillLoses(before, c, room);
      SplitAtMost(r, c, m, a, f);
    }
    ReflaggedStep(recs, c, room, a, f);
  }

  /** The change affects exactly its range if and only if no record whose protection changes lacks
      the room to be split. */
  lemma ReflagIsExact(recs: seq<Rec>, c: Change, room: nat)
    requires c.addr <= c.end
    ensures NoSpill(recs, c, room) <==> Exact(recs, Reflagged(recs, c, room), c)
  {
    hide Reflagged, NoSpill, Wanted, Cover;
    if NoSpill(recs, c, room) {
      forall a: nat, f: nat ensures Cover(Reflagged(recs, c, room), a, f) == Wanted(recs, c, a, f) {
        NoSpillIsExact(recs, c, room, a, f);
      }
    } else {
      var a, f := SpillLoses(recs, c, room);
    }
  }

  /** A record that spills is not mended by those after it. */
  lemma {:induction false} SpillStays(recs: seq<Rec>, c: Change, room: nat, n: nat)
    requires c.addr <= c.end && n < |recs| && Spills(recs[n], c, Left(recs[..n], c, room))
    ensures !NoSpill(recs, c, room)
    decreases |recs|
  {
    if n < |recs| - 1 {
      assert recs[..|recs| - 1][..n] == recs[..n];
      SpillStays(recs[..|recs| - 1], c, room, n);
    }
  }

  /** Two free records for each existing one are always enough. */
  lemma {:induction false} AmpleRoom(recs: seq<Rec>, c: Change, room: nat)
    requires c.addr <= c.end && room >= 2 * |recs|
    ensures NoSpill(recs, c, room) && Left(recs, c, room) >= room - 2 * |recs|
  {
    if recs != [] { AmpleRoom(recs[..|recs| - 1], c, room); }
  }

  // ---- the table halfway through ------------------------------------------------------------------

  /** The table when its first `i` records have been dealt with. */
  function Progress(recs: seq<Rec>, c: Change, room: nat, i: nat): (s: seq<Rec>)
    requires c.addr <= c.end
    ensures |s| >= |recs|
  {
    if i >= |recs| then Reflagged(recs, c, room)
    else KeptOf(recs[..i], c, room) + recs[i..] + ExtraOf(recs[..i], c, room)
  }

  lemma ProgressStarts(recs: seq<Rec>, c: Change, room: nat)
    requires c.addr <= c.end
    ensures Progress(recs, c, room, 0) == recs
  {
    if recs != [] { assert recs[..0] == [] && [] + recs[0..] + [] == recs; }
  }

  lemma ProgressDone(recs: seq<Rec>, c: Change, room: nat, i: nat)
    requires c.addr <= c.end && i >= |recs|
    ensures Progress(recs, c, room, i) == Reflagged(recs, c, room)
  {
  }

  lemma ProgressStep(recs: seq<Rec>, c: Change, room: nat, i: nat)
    requires c.addr <= c.end && i < |recs|
    ensures var s, m := Progress(recs, c, room, i), Left(recs[..i], c, room);
            && s[i] == recs[i] && |s| == |recs| + room - m
            && s[i := Split(recs[i], c, m).kept] + Split(recs[i], c, m).extra == Progress(recs, c, room, i + 1)
  {
    hide Split;
    var ks, xs := KeptOf(recs[..i], c, room), ExtraOf(recs[..i], c, room);
    var p := Split(recs[i], c, Left(recs[..i], c, room));
    assert recs[..i + 1][..i] == recs[..i];
    assert (ks + recs[i..] + xs)[i := p.kept] + p.extra == (ks + [p.kept]) + recs[i + 1..] + (xs + p.extra);
    if i + 1 == |recs| {
      assert recs[..i + 1] == recs && recs[i + 1..] == [];
      assert (ks + [p.kept]) + [] + (xs + p.extra) == (ks + [p.kept]) + (xs + p.extra);
    }
  }

  /** What was split off is not looked at again. */
  lemma {:induction false} ExtraIsOutside(recs: seq<Rec>, c: Change, room: nat, k: nat)
    requires c.addr <= c.end && k < |ExtraOf(recs, c, room)|
    ensures !Touches(ExtraOf(recs, c, room)[k], c)
  {
    if k < |ExtraOf(recs[..|recs| - 1], c, room)| { ExtraIsOutside(recs[..|recs| - 1], c, room, k); }
  }

  lemma ProgressEnds(recs: seq<Rec>, c: Change, room: nat, i: nat, m: nat)
    requires c.addr <= c.end && |recs| <= i < |Reflagged(recs, c, room)|
    ensures var s := Reflagged(recs, c, room);
            s[i := Split(s[i], c, m).kept] + Split(s[i], c, m).extra == s
  {
    ExtraIsOutside(recs, c, room, i - |recs|);
  }
}
