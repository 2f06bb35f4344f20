/** Recording a mapping in a table that has nothing left to merge: what the coalescing scan does
    then, that it leaves nothing to merge again, and exactly when the newest record covering an
    address stays the last one. */
module MmapSettled {
  import opened MmapRecords

  ghost predicate Positive(s: seq<Rec>) { forall k | 0 <= k < |s| :: s[k].size > 0 }

  /** No two records can be merged. */
  ghost predicate Settled(s: seq<Rec>) { forall lo: nat, hi: nat :: !MayMerge(s, lo, hi) }

  lemma CanMergeIs(s: seq<Rec>, i: nat, j: nat)
    requires Positive(s) && i < |s| && j < |s|
    ensures CanMerge(s, i, j) <==> MayMerge(s, i, j) || MayMerge(s, j, i)
  {
  }

  // ---- scanning past pairs that do not merge -----------------------------------------------

  lemma {:induction false} RowSkips(s: seq<Rec>, i: nat, j: nat, end: nat)
    requires i + 1 < |s| && j <= end <= |s|
    requires forall y | j <= y < end :: !CanMerge(s, i, y)
    ensures Scan(s, i, j) == Scan(s, i, end)
    decreases end - j
  {
    if j < end {
      hide CanMerge, Scan;
      ScanStep(s, i, j);
      RowSkips(s, i, j + 1, end);
    }
  }

  lemma {:induction false} RowsSkip(s: seq<Rec>, i: nat, end: nat)
    requires i <= end < |s|
    requires forall x, y | i <= x < end && x < y < |s| :: !CanMerge(s, x, y)
    ensures Scan(s, i, i + 1) == Scan(s, end, end + 1)
    decreases end - i
  {
    if i < end {
      hide CanMerge, Scan;
      RowSkips(s, i, i + 1, |s|);
      ScanStep(s, i, |s|);
      RowsSkip(s, i + 1, end);
    }
  }

  /** A row, and all rows after it, without a pair to merge. */
  lemma ScanEnds(s: seq<Rec>, i: nat)
    requires i < |s| && forall x, y | i <= x < y < |s| :: !CanMerge(s, x, y)
    ensures Scan(s, i, i + 1) == s
  {
    hide CanMerge, Scan;
    RowsSkip(s, i, |s| - 1);
    ScanStep(s, |s| - 1, |s|);
  }

  lemma SettledScan(s: seq<Rec>, i: nat)
    requires Positive(s) && Settled(s) && i < |s|
    ensures Scan(s, i, i + 1) == s
  {
    forall x, y | i <= x < y < |s| ensures !CanMerge(s, x, y) { CanMergeIs(s, x, y); }
    ScanEnds(s, i);
  }

  // ---- the neighbours of a new record -----------------------------------------------------------

  /** Record `k` can be merged with the new record above it. */
  ghost predicate Below(t: seq<Rec>, r: Rec, k: nat) { k < |t| && MayMerge(t + [r], k, |t|) }

  /** Record `k` can be merged with the new record below it. */
  ghost predicate Above(t: seq<Rec>, r: Rec, k: nat) { k < |t| && MayMerge(t + [r], |t|, k) }

  /** The new record fills the gap between two others that it can be merged with. */
  ghost predicate Bridges(t: seq<Rec>, r: Rec, p: nat, q: nat) { Below(t, r, p) && Above(t, r, q) }

  lemma NeighboursAreUnique(t: seq<Rec>, r: Rec, x: nat, y: nat)
    requires Positive(t) && r.size > 0
    ensures Below(t, r, x) && Below(t, r, y) ==> x == y
    ensures Above(t, r, x) && Above(t, r, y) ==> x == y
    ensures Below(t, r, x) && Above(t, r, y) ==> x != y
  {
  }

  /** In a settled table only the new record can be merged with anything. */
  lemma OnlyNewMerges(t: seq<Rec>, r: Rec, lo: nat, hi: nat)
    requires Settled(t) && MayMerge(t + [r], lo, hi)
    ensures lo == |t| || hi == |t|
  {
    var s := t + [r];
    if lo < |t| && hi < |t| {
      forall k | 0 <= k < |t| && k != lo && k != hi ensures !Overlaps(t[k], t[lo].base, End(t[hi])) {
        assert s[k] == t[k];
      }
      assert MayMerge(t, lo, hi);
    }
  }

  /** The record at `i` after taking the new one in. */
  function Joined(t: seq<Rec>, r: Rec, i: nat): Rec
    requires i < |t|
  {
    if t[i].base < r.base then t[i].(size := t[i].size + r.size) else r.(size := r.size + t[i].size)
  }

  /** The first merge, on either side, ends with the joined record in place of its neighbour. */
  lemma FirstMerge(t: seq<Rec>, r: Rec, i: nat)
    requires Positive(t) && r.size > 0 && (Below(t, r, i) || Above(t, r, i))
    ensures CanMerge(t + [r], i, |t|)
    ensures Merge(t + [r], Lower(t + [r], i, |t|), Upper(t + [r], i, |t|)) == t[i := Joined(t, r, i)]
    ensures SameInForce(t + [r], t[i := Joined(t, r, i)])
  {
    var s := t + [r];
    var lo, hi := Lower(s, i, |t|), Upper(s, i, |t|);
    assert MayMerge(s, lo, hi);
    assert Merge(s, lo, hi) == t[i := Joined(t, r, i)];
    MergeKeepsInForce(s, lo, hi);
    assert Jumped(s, lo, hi) == [];
  }

  /** Until the first neighbour the scan finds nothing. */
  lemma ScanToFirst(t: seq<Rec>, r: Rec, i: nat)
    requires Positive(t) && r.size > 0 && Settled(t)
    requires Below(t, r, i) || Above(t, r, i)
    requires forall k | 0 <= k < i :: !Below(t, r, k) && !Above(t, r, k)
    ensures Scan(t + [r], 0, 1) == Scan(t[i := Joined(t, r, i)], i, i + 1)
  {
    hide Scan, Merge, Joined;
    var s, n := t + [r], |t|;
    assert Positive(s);
    forall x, y | 0 <= x < i && x < y < |s| ensures !CanMerge(s, x, y) { NoEarlyMerge(t, r, x, y); }
    RowsSkip(s, 0, i);
    forall y | i + 1 <= y < n ensures !CanMerge(s, i, y) { NoInnerMerge(t, r, i, y); }
    RowSkips(s, i, i + 1, n);
    ScanStep(s, i, n);
    FirstMerge(t, r, i);
  }

  lemma NoInnerMerge(t: seq<Rec>, r: Rec, x: nat, y: nat)
    requires Positive(t) && r.size > 0 && Settled(t) && x < |t| && y < |t|
    ensures !CanMerge(t + [r], x, y)
  {
    assert Positive(t + [r]);
    CanMergeIs(t + [r], x, y);
    if MayMerge(t + [r], x, y) { OnlyNewMerges(t, r, x, y); }
    if MayMerge(t + [r], y, x) { OnlyNewMerges(t, r, y, x); }
  }

  lemma NoEarlyMerge(t: seq<Rec>, r: Rec, x: nat, y: nat)
    requires Positive(t) && r.size > 0 && Settled(t) && x < |t| && x < y <= |t|
    requires !Below(t, r, x) && !Above(t, r, x)
    ensures !CanMerge(t + [r], x, y)
  {
    assert Positive(t + [r]);
    if y < |t| {
      NoInnerMerge(t, r, x, y);
    } else {
      CanMergeIs(t + [r], x, y);
    }
  }

  // ---- after the first merge -----------------------------------------------------------------------

  /** What can still be merged: the joined record with the new record's other neighbour. */
  lemma SecondMerge(t: seq<Rec>, r: Rec, i: nat, lo: nat, hi: nat)
    requires Positive(t) && r.size > 0 && Settled(t) && (Below(t, r, i) || Above(t, r, i))
    requires MayMerge(t[i := Joined(t, r, i)], lo, hi)
    ensures (lo == i || hi == i) && Bridges(t, r, lo, hi)
  {
    var u, s := t[i := Joined(t, r, i)], t + [r];
    Inside(t, r, i);
    if lo != i && hi != i {
      forall k | 0 <= k < |t| && k != lo && k != hi ensures !Overlaps(t[k], t[lo].base, End(t[hi])) {
        assert !Overlaps(u[k], u[lo].base, End(u[hi]));
      }
      assert MayMerge(t, lo, hi);
    } else if (lo == i && Above(t, r, i)) || (hi == i && Below(t, r, i)) {
      forall k | 0 <= k < |t| && k != lo && k != hi ensures !Overlaps(t[k], t[lo].base, End(t[hi])) {
        assert !Overlaps(u[k], u[lo].base, End(u[hi]));
      }
      assert MayMerge(t, lo, hi);
    } else {
      BridgeParts(t, r, i, lo, hi);
    }
  }

  lemma Inside(t: seq<Rec>, r: Rec, i: nat)
    requires Positive(t) && r.size > 0 && (Below(t, r, i) || Above(t, r, i))
    ensures var g := Joined(t, r, i);
            && g.flags == t[i].flags == r.flags && g.size > 0
            && (Below(t, r, i) ==> g.base == t[i].base && End(g) == End(r) && End(t[i]) == r.base)
            && (Above(t, r, i) ==> g.base == r.base && End(g) == End(t[i]) && End(r) == t[i].base)
  {
    var s := t + [r];
    assert s[i] == t[i] && s[|t|] == r;
  }

  lemma BridgeParts(t: seq<Rec>, r: Rec, i: nat, lo: nat, hi: nat)
    requires Positive(t) && r.size > 0 && i < |t| && MayMerge(t[i := Joined(t, r, i)], lo, hi)
    requires ((lo == i && Below(t, r, i)) || (hi == i && Above(t, r, i)))
    ensures Bridges(t, r, lo, hi)
  {
    var u, s, n := t[i := Joined(t, r, i)], t + [r], |t|;
    Inside(t, r, i);
    var other := if lo == i then hi else lo;
    assert u[other] == t[other] == s[other];
    forall k | 0 <= k < |s| && k != n && k != other && k != i
      ensures !Overlaps(s[k], u[lo].base, End(u[hi]))
    {
      assert s[k] == u[k];
    }
    if lo == i {
      forall k | 0 <= k < |s| && k != n && k != hi ensures !Overlaps(s[k], s[n].base, End(s[hi])) {
        assert k == i || !Overlaps(s[k], u[lo].base, End(u[hi]));
      }
      assert MayMerge(s, n, hi);
    } else {
      forall k | 0 <= k < |s| && k != n && k != lo ensures !Overlaps(s[k], s[lo].base, End(s[n])) {
        assert k == i || !Overlaps(s[k], u[lo].base, End(u[hi]));
      }
      assert MayMerge(s, lo, n);
    }
  }

  /** Between the two neighbours, the joined record can be merged with the other. */
  lemma BridgeMerges(t: seq<Rec>, r: Rec, p: nat, q: nat, i: nat)
    requires Positive(t) && r.size > 0 && Bridges(t, r, p, q) && (i == p || i == q)
    ensures p != q && MayMerge(t[i := Joined(t, r, i)], p, q)
  {
    var u, s, n := t[i := Joined(t, r, i)], t + [r], |t|;
    Inside(t, r, p);
    Inside(t, r, q);
    NeighboursAreUnique(t, r, p, q);
    forall k | 0 <= k < |u| && k != p && k != q ensures !Overlaps(u[k], u[p].base, End(u[q])) {
      assert s[k] == u[k];
      assert !Overlaps(s[k], s[p].base, End(s[n])) && !Overlaps(s[k], s[n].base, End(s[q]));
    }
  }

  // ---- after the second merge -------------------------------------------------------------------------

  /** Both neighbours and the new record in one. */
  function Whole(t: seq<Rec>, r: Rec, p: nat, q: nat): Rec
    requires p < |t| && q < |t|
  {
    Rec(t[p].base, t[p].size + r.size + t[q].size, r.flags)
  }

  /** The table after both merges: the whole in the lower neighbour's place, the last record in the
      upper one's. */
  function Filled(t: seq<Rec>, r: Rec, p: nat, q: nat): (u: seq<Rec>)
    requires p < |t| && q < |t|
    ensures |u| == |t| - 1
  {
    var g := t[p := Whole(t, r, p, q)];
    g[q := g[|t| - 1]][..|t| - 1]
  }

  lemma FilledIs(t: seq<Rec>, r: Rec, p: nat, q: nat, i: nat)
    requires Positive(t) && r.size > 0 && Bridges(t, r, p, q) && (i == p || i == q)
    ensures Merge(t[i := Joined(t, r, i)], p, q) == Filled(t, r, p, q)
  {
    Inside(t, r, p);
    Inside(t, r, q);
    NeighboursAreUnique(t, r, p, q);
    var a, b := Merge(t[i := Joined(t, r, i)], p, q), Filled(t, r, p, q);
    forall x | 0 <= x < |b| ensures a[x] == b[x] {}
  }

  /** Where the whole stands, and which old record stands anywhere else. */
  function WholeAt(t: seq<Rec>, p: nat, q: nat): nat { if p == |t| - 1 then q else p }

  function Origin(t: seq<Rec>, q: nat, x: nat): nat
    requires t != []
  {
    if x == q then |t| - 1 else x
  }

  lemma FilledAt(t: seq<Rec>, r: Rec, p: nat, q: nat, x: nat)
    requires p < |t| && q < |t| && p != q && x < |t| - 1
    ensures var u := Filled(t, r, p, q);
            if x == WholeAt(t, p, q) then u[x] == Whole(t, r, p, q)
            else u[x] == t[Origin(t, q, x)] && Origin(t, q, x) != p && Origin(t, q, x) != q
  {
  }

  /** Every old record but the two neighbours is still there. */
  lemma StillThere(t: seq<Rec>, r: Rec, p: nat, q: nat, k: nat)
    requires p < |t| && q < |t| && p != q && k < |t| && k != p && k != q
    ensures var x := if k == |t| - 1 then q else k;
            x < |t| - 1 && x != WholeAt(t, p, q) && Origin(t, q, x) == k && Filled(t, r, p, q)[x] == t[k]
  {
  }

  /** A merge in the filled table would be one of old records. */
  lemma OldMerge(t: seq<Rec>, r: Rec, p: nat, q: nat, lo: nat, hi: nat, k: nat, l: nat)
    requires Positive(t) && r.size > 0 && Bridges(t, r, p, q) && p != q
    requires MayMerge(Filled(t, r, p, q), lo, hi)
    requires k == if lo == WholeAt(t, p, q) then q else Origin(t, q, lo)
    requires l == if hi == WholeAt(t, p, q) then p else Origin(t, q, hi)
    ensures MayMerge(t, k, l)
  {
    var u, g := Filled(t, r, p, q), Whole(t, r, p, q);
    Inside(t, r, p);
    Inside(t, r, q);
    FilledAt(t, r, p, q, lo);
    FilledAt(t, r, p, q, hi);
    forall m | 0 <= m < |t| && m != k && m != l ensures !Overlaps(t[m], t[k].base, End(t[l])) {
      if m != p && m != q {
        StillThere(t, r, p, q, m);
        assert !Overlaps(u[if m == |t| - 1 then q else m], u[lo].base, End(u[hi]));
      } else if lo != WholeAt(t, p, q) && hi != WholeAt(t, p, q) {
        FilledAt(t, r, p, q, WholeAt(t, p, q));
        assert !Overlaps(u[WholeAt(t, p, q)], u[lo].base, End(u[hi]));
      }
    }
  }

  lemma FilledIsSettled(t: seq<Rec>, r: Rec, p: nat, q: nat)
    requires Positive(t) && r.size > 0 && Settled(t) && Bridges(t, r, p, q)
    ensures Settled(Filled(t, r, p, q)) && Positive(Filled(t, r, p, q))
  {
    NeighboursAreUnique(t, r, p, q);
    forall lo: nat, hi: nat ensures !MayMerge(Filled(t, r, p, q), lo, hi) {
      if MayMerge(Filled(t, r, p, q), lo, hi) {
        var k := if lo == WholeAt(t, p, q) then q else Origin(t, q, lo);
        var l := if hi == WholeAt(t, p, q) then p else Origin(t, q, hi);
        OldMerge(t, r, p, q, lo, hi, k, l);
      }
    }
  }

  // ---- the whole call ---------------------------------------------------------------------------------

  /** The table after recording `r`. */
  ghost function Recorded(t: seq<Rec>, r: Rec): seq<Rec> { Scan(t + [r], 0, 1) }

  /** Without a neighbour nothing is merged. */
  lemma RecordApart(t: seq<Rec>, r: Rec)
    requires Positive(t) && r.size > 0 && Settled(t)
    requires forall k :: !Below(t, r, k) && !Above(t, r, k)
    ensures Recorded(t, r) == t + [r] && Settled(t + [r])
  {
    forall lo: nat, hi: nat ensures !MayMerge(t + [r], lo, hi) {
      assert !Below(t, r, lo) && !Above(t, r, hi);
      if MayMerge(t + [r], lo, hi) { OnlyNewMerges(t, r, lo, hi); }
    }
    assert Positive(t + [r]);
    SettledScan(t + [r], 0);
  }

  /** With neighbours on one side only, one merge. */
  lemma RecordJoins(t: seq<Rec>, r: Rec, i: nat)
    requires Positive(t) && r.size > 0 && Settled(t) && (Below(t, r, i) || Above(t, r, i))
    requires forall p, q :: !Bridges(t, r, p, q)
    ensures Recorded(t, r) == t[i := Joined(t, r, i)] && Settled(Recorded(t, r))
    ensures SameInForce(t + [r], Recorded(t, r))
  {
    var u := t[i := Joined(t, r, i)];
    forall k: nat | k < i ensures !Below(t, r, k) && !Above(t, r, k) {
      NeighboursAreUnique(t, r, i, k);
      assert !Bridges(t, r, i, k) && !Bridges(t, r, k, i);
    }
    ScanToFirst(t, r, i);
    forall lo: nat, hi: nat ensures !MayMerge(u, lo, hi) {
      if MayMerge(u, lo, hi) { SecondMerge(t, r, i, lo, hi); }
    }
    Inside(t, r, i);
    SettledScan(u, i);
    FirstMerge(t, r, i);
  }

  /** Filling a gap takes two merges. */
  lemma RecordFills(t: seq<Rec>, r: Rec, p: nat, q: nat)
    requires Positive(t) && r.size > 0 && Settled(t) && Bridges(t, r, p, q)
    ensures Recorded(t, r) == Filled(t, r, p, q)
  {
    hide Scan, Merge, Filled, Joined, Bridges, MayMerge, CanMerge, Settled;
    NeighboursOf(t, r, p, q);
    var i, j := if p < q then p else q, if p < q then q else p;
    var u := t[i := Joined(t, r, i)];
    ScanToFirst(t, r, i);
    GapPairs(t, r, p, q);
    RowSkips(u, i, i + 1, j);
    ScanStep(u, i, j);
    FilledIs(t, r, p, q, i);
    FilledIsSettled(t, r, p, q);
    SettledScan(Filled(t, r, p, q), i);
  }

  lemma NeighboursOf(t: seq<Rec>, r: Rec, p: nat, q: nat)
    requires Positive(t) && r.size > 0 && Bridges(t, r, p, q)
    ensures p < |t| && q < |t| && p != q && Below(t, r, p) && Above(t, r, q)
    ensures forall k :: k != p ==> !Below(t, r, k)
    ensures forall k :: k != q ==> !Above(t, r, k)
  {
    NeighboursAreUnique(t, r, p, q);
    forall k: nat ensures k != p ==> !Below(t, r, k) { NeighboursAreUnique(t, r, p, k); }
    forall k: nat ensures k != q ==> !Above(t, r, k) { NeighboursAreUnique(t, r, q, k); }
  }

  /** After the first merge the row of the joined record merges with the other neighbour first. */
  lemma GapPairs(t: seq<Rec>, r: Rec, p: nat, q: nat)
    requires Positive(t) && r.size > 0 && Settled(t) && Bridges(t, r, p, q)
    ensures p < |t| && q < |t| && p != q
    ensures var i, j := if p < q then p else q, if p < q then q else p;
            var u := t[i := Joined(t, r, i)];
            && (forall y | i < y < j :: !CanMerge(u, i, y))
            && CanMerge(u, i, j) && Lower(u, i, j) == p && Upper(u, i, j) == q
  {
    NeighboursOf(t, r, p, q);
    var i, j := if p < q then p else q, if p < q then q else p;
    var u := t[i := Joined(t, r, i)];
    BridgeMerges(t, r, p, q, i);
    Inside(t, r, i);
    assert Positive(u);
    forall y | i < y < j ensures !CanMerge(u, i, y) {
      CanMergeIs(u, i, y);
      if MayMerge(u, i, y) { SecondMerge(t, r, i, i, y); }
      if MayMerge(u, y, i) { SecondMerge(t, r, i, y, i); }
    }
  }

  /** If the new record fills a gap, the records that the last one is then moved in front of agree with
      it. */
  ghost predicate GapsAgree(t: seq<Rec>, r: Rec) {
    forall p: nat, q: nat | Bridges(t, r, p, q) :: AgreeWithLast(t, Jumped(t, p, q))
  }

  lemma FilledInForce(t: seq<Rec>, r: Rec, p: nat, q: nat)
    requires Positive(t) && r.size > 0 && Bridges(t, r, p, q)
    ensures SameInForce(t + [r], Filled(t, r, p, q)) <==> AgreeWithLast(t, Jumped(t, p, q))
  {
    hide Merge, Filled, Joined, MayMerge, InForce;
    NeighboursOf(t, r, p, q);
    var i := if p < q then p else q;
    var u := t[i := Joined(t, r, i)];
    FirstMerge(t, r, i);
    BridgeMerges(t, r, p, q, i);
    FilledIs(t, r, p, q, i);
    MergeKeepsInForce(u, p, q);
    if p == |t| - 1 || q == |t| - 1 {
      NothingAgrees(t);
      NothingAgrees(u);
    } else {
      assert Jumped(u, p, q) == Jumped(t, p, q) && u[|t| - 1] == t[|t| - 1];
    }
    var s, f := t + [r], Filled(t, r, p, q);
    assert SameInForce(s, f) <==> SameInForce(u, f) by {
      forall a: nat ensures InForce(u, a) == InForce(s, a) {}
    }
  }

  lemma NothingAgrees(t: seq<Rec>)
    requires t != []
    ensures AgreeWithLast(t, [])
  {
  }

  /** Recording into a settled table leaves a settled table; and the new protection is in force in its
      range, with every other unchanged, if and only if the new record fills no gap or the records
      that the last one is then moved in front of agree with it. */
  lemma RecordKeepsInForce(t: seq<Rec>, r: Rec)
    requires Positive(t) && r.size > 0 && Settled(t)
    ensures Settled(Recorded(t, r)) && Positive(Recorded(t, r))
    ensures SameInForce(t + [r], Recorded(t, r)) <==> GapsAgree(t, r)
  {
    hide Recorded, MayMerge, Scan, InForce, Jumped, Joined, AgreeWithLast;
    if p: nat, q: nat :| Bridges(t, r, p, q) {
      RecordFills(t, r, p, q);
      FilledIsSettled(t, r, p, q);
      FilledInForce(t, r, p, q);
      NeighboursOf(t, r, p, q);
    } else if i: nat :| Below(t, r, i) || Above(t, r, i) {
      RecordJoins(t, r, i);
      Inside(t, r, i);
    } else {
      RecordApart(t, r);
    }
  }

  /** A record that touches no other one of its protection has no neighbour. */
  lemma TouchesNone(t: seq<Rec>, r: Rec)
    requires forall k | 0 <= k < |t| :: t[k].flags != r.flags || (End(t[k]) != r.base && End(r) != t[k].base)
    ensures forall k :: !Below(t, r, k) && !Above(t, r, k)
  {
    forall k: nat ensures !Below(t, r, k) && !Above(t, r, k) {
      if k < |t| { assert (t + [r])[k] == t[k] && (t + [r])[|t|] == r; }
    }
  }
}
