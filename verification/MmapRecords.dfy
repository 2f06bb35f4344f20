/** The records of a process's memory mappings, as values: which address is covered how often and
    with which protection, and how records are merged. */
module MmapRecords {
  import opened Prelude

  datatype Rec = Rec(base: nat, size: nat, flags: nat)

  function End(r: Rec): nat { r.base + r.size }

  predicate Has(r: Rec, a: nat) { r.base <= a < End(r) }

  function Hits(r: Rec, a: nat, f: nat): nat { if Has(r, a) && r.flags == f then 1 else 0 }

  /** How many records cover address `a` with protection `f`. */
  function Cover(recs: seq<Rec>, a: nat, f: nat): nat {
    if recs == [] then 0 else Cover(recs[..|recs| - 1], a, f) + Hits(recs[|recs| - 1], a, f)
  }

  /** How many records cover address `a`. */
  function Depth(recs: seq<Rec>, a: nat): nat {
    if recs == [] then 0 else Depth(recs[..|recs| - 1], a) + (if Has(recs[|recs| - 1], a) then 1 else 0)
  }

  lemma {:induction false} CoverUpdate(recs: seq<Rec>, i: nat, r: Rec, a: nat, f: nat)
    requires i < |recs|
    ensures Cover(recs[i := r], a, f) == Cover(recs, a, f) - Hits(recs[i], a, f) + Hits(r, a, f)
  {
    var n := |recs| - 1;
    if i == n {
      assert recs[i := r][..n] == recs[..n];
    } else {
      assert recs[i := r][..n] == recs[..n][i := r];
      CoverUpdate(recs[..n], i, r, a, f);
    }
  }

  lemma CoverSnoc(recs: seq<Rec>, r: Rec, a: nat, f: nat)
    ensures Cover(recs + [r], a, f) == Cover(recs, a, f) + Hits(r, a, f)
  {
    assert (recs + [r])[..|recs|] == recs;
  }

  lemma {:induction false} CoverRemove(recs: seq<Rec>, i: nat, a: nat, f: nat)
    requires i < |recs|
    ensures Cover(recs[..i] + recs[i + 1..], a, f) == Cover(recs, a, f) - Hits(recs[i], a, f)
  {
    var n := |recs| - 1;
    var less := recs[..i] + recs[i + 1..];
    if i == n {
      assert less == recs[..n];
    } else {
      CoverRemove(recs[..n], i, a, f);
      assert less == (recs[..n][..i] + recs[..n][i + 1..]) + [recs[n]];
      CoverSnoc(recs[..n][..i] + recs[..n][i + 1..], recs[n], a, f);
    }
  }

  // ---- merging ---------------------------------------------------------------------------

  /** Which of two records starts lower. */
  function Lower(recs: seq<Rec>, i: nat, j: nat): nat
    requires i < |recs| && j < |recs|
  {
    if recs[j].base < recs[i].base then j else i
  }

  function Upper(recs: seq<Rec>, i: nat, j: nat): nat
    requires i < |recs| && j < |recs|
  {
    if recs[j].base < recs[i].base then i else j
  }

  predicate Overlaps(r: Rec, lo: nat, hi: nat) { r.base < hi && End(r) > lo }

  /** Equally protected neighbours that nothing else overlaps. */
  ghost predicate MayMerge(recs: seq<Rec>, lo: nat, hi: nat) {
    && lo < |recs| && hi < |recs| && lo != hi
    && recs[lo].flags == recs[hi].flags && End(recs[lo]) == recs[hi].base
    && forall k | 0 <= k < |recs| && k != lo && k != hi :: !Overlaps(recs[k], recs[lo].base, End(recs[hi]))
  }

  ghost predicate CanMerge(recs: seq<Rec>, i: nat, j: nat)
    requires i < |recs| && j < |recs|
  {
    MayMerge(recs, Lower(recs, i, j), Upper(recs, i, j))
  }

  /** The lower record grows by the upper one, whose place the last record takes. */
  function Merge(recs: seq<Rec>, lo: nat, hi: nat): (r: seq<Rec>)
    requires lo < |recs| && hi < |recs|
    ensures |r| == |recs| - 1
  {
    var grown := recs[lo := recs[lo].(size := recs[lo].size + recs[hi].size)];
    grown[hi := grown[|grown| - 1]][..|grown| - 1]
  }

  lemma MergeCover(recs: seq<Rec>, lo: nat, hi: nat, a: nat, f: nat)
    requires lo < |recs| && hi < |recs| && lo != hi
    requires recs[lo].flags == recs[hi].flags && End(recs[lo]) == recs[hi].base
    ensures Cover(Merge(recs, lo, hi), a, f) == Cover(recs, a, f)
  {
    hide Cover;
    var grown := recs[lo := recs[lo].(size := recs[lo].size + recs[hi].size)];
    CoverUpdate(recs, lo, grown[lo], a, f);
    CoverUpdate(grown, hi, grown[|grown| - 1], a, f);
    var moved := grown[hi := grown[|grown| - 1]];
    assert moved == moved[..|moved| - 1] + [grown[|grown| - 1]];
    CoverSnoc(moved[..|moved| - 1], grown[|grown| - 1], a, f);
  }

  /** The coalescing scan from pair `i`, `j` on. */
  ghost function Scan(recs: seq<Rec>, i: nat, j: nat): seq<Rec>
    decreases |recs|, |recs| + 1 - i, |recs| - j
  {
    if i + 1 >= |recs| then recs
    else if j >= |recs| then Scan(recs, i + 1, i + 2)
    else if CanMerge(recs, i, j) then Scan(Merge(recs, Lower(recs, i, j), Upper(recs, i, j)), i, i + 1)
    else Scan(recs, i, j + 1)
  }

  /** However much is merged, every address stays covered as often with each protection. */
  lemma {:induction false} ScanCover(recs: seq<Rec>, i: nat, j: nat, a: nat, f: nat)
    ensures Cover(Scan(recs, i, j), a, f) == Cover(recs, a, f)
    decreases |recs|, |recs| + 1 - i, |recs| - j
  {
    hide Cover, Merge, Overlaps;
    if i + 1 >= |recs| {
    } else if j >= |recs| {
      ScanCover(recs, i + 1, i + 2, a, f);
    } else if CanMerge(recs, i, j) {
      var lo, hi := Lower(recs, i, j), Upper(recs, i, j);
      MergeCover(recs, lo, hi, a, f);
      ScanCover(Merge(recs, lo, hi), i, i + 1, a, f);
    } else {
      ScanCover(recs, i, j + 1, a, f);
    }
  }

  // ---- the protection in force -----------------------------------------------------------------

  /** The page-fault handler goes by the last record that covers an address. */
  function InForce(recs: seq<Rec>, a: nat): Option<nat> {
    if recs == [] then None
    else if Has(recs[|recs| - 1], a) then Some(recs[|recs| - 1].flags)
    else InForce(recs[..|recs| - 1], a)
  }

  lemma {:induction false} InForceIsCovered(recs: seq<Rec>, a: nat)
    ensures InForce(recs, a).Some? ==> Cover(recs, a, InForce(recs, a).value) > 0
    ensures InForce(recs, a).None? ==> forall f :: Cover(recs, a, f) == 0
  {
    if recs != [] { InForceIsCovered(recs[..|recs| - 1], a); }
  }

  /** Where all covering records agree, merging cannot change the protection in force. */
  lemma ScanKeepsAgreed(recs: seq<Rec>, i: nat, j: nat, a: nat, f: nat)
    requires Cover(recs, a, f) > 0 && forall g | g != f :: Cover(recs, a, g) == 0
    ensures InForce(Scan(recs, i, j), a) == Some(f)
  {
    var after := Scan(recs, i, j);
    InForceIsCovered(after, a);
    ScanCover(recs, i, j, a, f);
    if InForce(after, a).Some? { ScanCover(recs, i, j, a, InForce(after, a).value); }
  }

  // ---- what one merge does to it ------------------------------------------------------------------

  lemma {:induction false} InForceConcat(x: seq<Rec>, y: seq<Rec>, a: nat)
    ensures InForce(x + y, a) == if InForce(y, a).Some? then InForce(y, a) else InForce(x, a)
    decreases |y|
  {
    if y == [] {
      assert x + y == x;
    } else {
      assert (x + y)[..|x + y| - 1] == x + y[..|y| - 1];
      InForceConcat(x, y[..|y| - 1], a);
    }
  }

  lemma {:induction false} InForceUpdate(recs: seq<Rec>, i: nat, r: Rec, a: nat)
    requires i < |recs| && !Has(recs[i], a) && !Has(r, a)
    ensures InForce(recs[i := r], a) == InForce(recs, a)
  {
    var n := |recs| - 1;
    if i < n {
      assert recs[i := r][..n] == recs[..n][i := r];
      InForceUpdate(recs[..n], i, r, a);
    } else {
      assert recs[i := r][..n] == recs[..n];
    }
  }

  /** The records that the last one is moved in front of. */
  function Jumped(recs: seq<Rec>, lo: nat, hi: nat): seq<Rec>
    requires lo < |recs| && hi < |recs|
  {
    if lo == |recs| - 1 || hi == |recs| - 1 then [] else recs[hi + 1..|recs| - 1]
  }

  /** Inside the merged records nothing changes: no other record covers them. */
  lemma MergeInside(recs: seq<Rec>, lo: nat, hi: nat, a: nat)
    requires MayMerge(recs, lo, hi) && recs[lo].base <= a < End(recs[hi])
    ensures InForce(Merge(recs, lo, hi), a) == InForce(recs, a)
    ensures !Has(recs[|recs| - 1], a) || lo == |recs| - 1 || hi == |recs| - 1
  {
    hide Cover, InForce, Merge;
    var f := recs[lo].flags;
    forall g | g != f ensures Cover(recs, a, g) == 0 { OthersAway(recs, lo, hi, a, g); }
    var k := if Has(recs[lo], a) then lo else hi;
    CoverAtLeast(recs, k, a, f);
    AgreedInForce(recs, a, f);
    forall g ensures Cover(Merge(recs, lo, hi), a, g) == Cover(recs, a, g) { MergeCover(recs, lo, hi, a, g); }
    AgreedInForce(Merge(recs, lo, hi), a, f);
  }

  lemma AgreedInForce(recs: seq<Rec>, a: nat, f: nat)
    requires Cover(recs, a, f) > 0 && forall g | g != f :: Cover(recs, a, g) == 0
    ensures InForce(recs, a) == Some(f)
  {
    InForceIsCovered(recs, a);
  }

  lemma {:induction false} CoverAtLeast(recs: seq<Rec>, k: nat, a: nat, f: nat)
    requires k < |recs|
    ensures Cover(recs, a, f) >= Hits(recs[k], a, f)
  {
    if k < |recs| - 1 { CoverAtLeast(recs[..|recs| - 1], k, a, f); }
  }

  lemma {:induction false} NotCovered(recs: seq<Rec>, a: nat, g: nat)
    requires forall k | 0 <= k < |recs| :: Hits(recs[k], a, g) == 0
    ensures Cover(recs, a, g) == 0
  {
    if recs != [] { NotCovered(recs[..|recs| - 1], a, g); }
  }

  lemma OthersAway(recs: seq<Rec>, lo: nat, hi: nat, a: nat, g: nat)
    requires MayMerge(recs, lo, hi) && recs[lo].base <= a < End(recs[hi]) && g != recs[lo].flags
    ensures Cover(recs, a, g) == 0
  {
    forall k | 0 <= k < |recs| ensures Hits(recs[k], a, g) == 0 {
      assert k != lo && k != hi ==> !Overlaps(recs[k], recs[lo].base, End(recs[hi]));
    }
    NotCovered(recs, a, g);
  }

  /** What a merge does to the protection in force: it stays, except where the last record covers an
      address together with one that it is moved in front of. */
  lemma MergeInForce(recs: seq<Rec>, lo: nat, hi: nat, a: nat)
    requires MayMerge(recs, lo, hi)
    ensures InForce(Merge(recs, lo, hi), a)
         == if Has(recs[|recs| - 1], a) && InForce(Jumped(recs, lo, hi), a).Some?
            then InForce(Jumped(recs, lo, hi), a)
            else InForce(recs, a)
  {
    hide InForce, Cover, Overlaps;
    var n := |recs| - 1;
    if recs[lo].base <= a < End(recs[hi]) {
      NothingInForce(a);
      MergeInside(recs, lo, hi, a);
    } else {
      var grown := recs[lo := recs[lo].(size := recs[lo].size + recs[hi].size)];
      InForceUpdate(recs, lo, grown[lo], a);
      MoveLast(grown, hi, a);
      NothingInForce(a);
      if lo < n && hi < n { JumpedSame(recs, lo, hi, grown[lo], a); }
    }
  }

  lemma NothingInForce(a: nat)
    ensures InForce([], a).None?
  {
  }

  lemma JumpedSame(recs: seq<Rec>, lo: nat, hi: nat, r: Rec, a: nat)
    requires lo < |recs| - 1 && hi < |recs| - 1 && !Has(recs[lo], a) && !Has(r, a)
    ensures InForce(recs[lo := r][hi + 1..|recs| - 1], a) == InForce(recs[hi + 1..|recs| - 1], a)
  {
    var n := |recs| - 1;
    if lo <= hi {
      assert recs[lo := r][hi + 1..n] == recs[hi + 1..n];
    } else {
      assert recs[lo := r][hi + 1..n] == recs[hi + 1..n][lo - hi - 1 := r];
      InForceUpdate(recs[hi + 1..n], lo - hi - 1, r, a);
    }
  }

  /** Moving the last record to a place that does not cover `a`. */
  lemma MoveLast(recs: seq<Rec>, hi: nat, a: nat)
    requires hi < |recs| && !Has(recs[hi], a)
    ensures var n := |recs| - 1;
            InForce(recs[hi := recs[n]][..n], a)
            == if hi < n && Has(recs[n], a) && InForce(recs[hi + 1..n], a).Some? then InForce(recs[hi + 1..n], a)
               else InForce(recs, a)
  {
    var n := |recs| - 1;
    if hi == n {
      assert recs[hi := recs[n]][..n] == recs[..n];
    } else {
      var x, y, z := recs[..hi], recs[hi + 1..n], recs[n];
      assert recs[hi := z][..n] == (x + [z]) + y;
      assert recs[..n] == (x + [recs[hi]]) + y;
      InForceConcat(x + [z], y, a);
      InForceConcat(x + [recs[hi]], y, a);
      LastOfSnoc(x, z, a);
      LastOfSnoc(x, recs[hi], a);
    }
  }

  lemma LastOfSnoc(x: seq<Rec>, r: Rec, a: nat)
    ensures InForce(x + [r], a) == if Has(r, a) then Some(r.flags) else InForce(x, a)
  {
    assert (x + [r])[..|x|] == x;
  }

  ghost predicate SameInForce(recs: seq<Rec>, after: seq<Rec>) { forall a: nat :: InForce(after, a) == InForce(recs, a) }

  /** The records agree with the last one wherever both cover an address. */
  ghost predicate AgreeWithLast(recs: seq<Rec>, others: seq<Rec>)
    requires recs != []
  {
    forall a: nat | Has(recs[|recs| - 1], a) && InForce(others, a).Some? ::
      InForce(others, a) == Some(recs[|recs| - 1].flags)
  }

  /** Exactly when a merge leaves every protection in force alone: when the records that the last one
      is moved in front of agree with it. */
  lemma MergeKeepsInForce(recs: seq<Rec>, lo: nat, hi: nat)
    requires MayMerge(recs, lo, hi)
    ensures SameInForce(recs, Merge(recs, lo, hi)) <==> AgreeWithLast(recs, Jumped(recs, lo, hi))
  {
    hide Jumped, Merge, Overlaps;
    var last, others, after := recs[|recs| - 1], Jumped(recs, lo, hi), Merge(recs, lo, hi);
    if SameInForce(recs, after) {
      forall a: nat | Has(last, a) && InForce(others, a).Some? ensures InForce(others, a) == Some(last.flags) {
        MergeInForce(recs, lo, hi, a);
        assert InForce(after, a) == InForce(recs, a);
      }
    }
    if AgreeWithLast(recs, others) {
      forall a: nat ensures InForce(after, a) == InForce(recs, a) { MergeInForce(recs, lo, hi, a); }
    }
  }

  lemma ScanStep(recs: seq<Rec>, i: nat, j: nat)
    ensures Scan(recs, i, j)
         == if i + 1 >= |recs| then recs
            else if j >= |recs| then Scan(recs, i + 1, i + 2)
            else if CanMerge(recs, i, j) then Scan(Merge(recs, Lower(recs, i, j), Upper(recs, i, j)), i, i + 1)
            else Scan(recs, i, j + 1)
  {
  }

  lemma LastInForce(recs: seq<Rec>, a: nat)
    requires recs != [] && Has(recs[|recs| - 1], a)
    ensures InForce(recs, a) == Some(recs[|recs| - 1].flags)
  {
  }
}
