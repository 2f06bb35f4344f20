/** The mapping-record table of an address space, changed in place as src/kernel/syscall.c does. */
module Mmap {
  import opened Prelude
  import opened MmapRecords
  import opened MmapSettled
  import opened MmapReflag
  import opened MmapInForce

  const CAPACITY: nat := 512
  const ADDRESSES: nat := 0x1_0000_0000_0000_0000
  const E_INVAL: int := 22

  /** A length rounded up to whole pages, in 64-bit arithmetic. */
  function PagesOf(len: nat): nat {
    var n := (len + 0xFFF) % ADDRESSES;
    n - n % 0x1000
  }

  /** Of a length that does not wrap, the least whole number of pages that holds it; of the last 4095 lengths,
      zero. */
  lemma PagesAre(len: nat)
    requires len < ADDRESSES
    ensures PagesOf(len) % 0x1000 == 0
    ensures len <= ADDRESSES - 0x1000 ==> len <= PagesOf(len) < len + 0x1000
    ensures len > ADDRESSES - 0x1000 ==> PagesOf(len) == 0
  {
  }

  /** The part of a record that munmap means. */
  function SpanOf(rec: Rec, addr: nat, len: nat): Rec {
    Rec(addr, if PagesOf(len) < rec.size then PagesOf(len) else rec.size, rec.flags)
  }

  /** The whole record or, unless it is shared, either end of it. */
  predicate CanUnmap(rec: Rec, addr: nat, len: nat, shared: set<nat>) {
    var span := SpanOf(rec, addr, len);
    span == rec || (rec.base !in shared && (addr == rec.base || End(span) == End(rec)))
  }

  class AddressSpace {
    var mmaps: array<Rec>
    var count: nat

    ghost predicate Valid()
      reads this
    {
      mmaps.Length == CAPACITY && count <= CAPACITY
    }

    ghost function Recs(): seq<Rec>
      reads this, mmaps
      requires Valid()
    {
      mmaps[..count]
    }

    constructor ()
      ensures Valid() && Recs() == [] && fresh(mmaps)
    {
      mmaps := new Rec[CAPACITY](_ => Rec(0, 0, 0));
      count := 0;
    }

    // ---- recording ---------------------------------------------------------------------

    /** Records a mapping and merges neighbours; a full table refuses.  The rescans end because every
        merge shortens the table. */
    method Record(base: nat, size: nat, flags: nat) returns (ok: bool)
      requires Valid()
      modifies this`count, mmaps
      ensures Valid() && ok == (old(count) < CAPACITY)
      ensures !ok ==> Recs() == old(Recs())
      ensures ok ==> Recs() == Recorded(old(Recs()), Rec(base, size, flags))
      ensures ok ==> forall a: nat, f: nat ::
                Cover(Recs(), a, f) == Cover(old(Recs()), a, f) + Hits(Rec(base, size, flags), a, f)
      ensures ok && size > 0 && Positive(old(Recs())) && Settled(old(Recs())) ==>
                && Positive(Recs()) && Settled(Recs())
                && (SameInForce(old(Recs()) + [Rec(base, size, flags)], Recs())
                    <==> GapsAgree(old(Recs()), Rec(base, size, flags)))
    {
      hide Scan, Cover, CanMerge, Settled, Positive, SameInForce, GapsAgree;
      if count >= CAPACITY {
        return false;
      }
      var r := Rec(base, size, flags);
      mmaps[count] := r;
      count := count + 1;
      ghost var all := old(Recs()) + [r];
      assert Recs() == all;
      var i: nat := 0;
      while i + 1 < count
        invariant Valid() && Scan(Recs(), i, i + 1) == Scan(all, 0, 1)
        decreases count - i
      {
        ScanRow(i);
        i := i + 1;
      }
      ScanStep(Recs(), i, i + 1);
      forall a: nat, f: nat ensures Cover(Recs(), a, f) == Cover(old(Recs()), a, f) + Hits(r, a, f) {
        ScanCover(all, 0, 1, a, f);
        CoverSnoc(old(Recs()), r, a, f);
      }
      if size > 0 && Positive(old(Recs())) && Settled(old(Recs())) { RecordKeepsInForce(old(Recs()), r); }
      return true;
    }

    /** Merges record `i` with what it can, starting over after each merge. */
    method ScanRow(i: nat)
      requires Valid() && i + 1 < count
      modifies this`count, mmaps
      ensures Valid() && count <= old(count)
      ensures Scan(Recs(), i + 1, i + 2) == old(Scan(Recs(), i, i + 1))
    {
      hide Scan, CanMerge, Merge;
      ghost var goal := Scan(Recs(), i, i + 1);
      var j: nat := i + 1;
      while j < count
        invariant Valid() && count <= old(count) && i < j
        invariant Scan(Recs(), i, j) == goal
        decreases count, count - j
      {
        ScanStep(Recs(), i, j);
        var can := CheckMerge(i, j);
        if can {
          MergePair(i, j);
          j := i + 1;
        } else {
          j := j + 1;
        }
      }
      ScanStep(Recs(), i, j);
      ScanStep(Recs(), i + 1, i + 2);
    }

    /** Whether two records are equally protected neighbours that nothing else overlaps. */
    method CheckMerge(i: nat, j: nat) returns (can: bool)
      requires Valid() && i < count && j < count && i != j
      ensures can <==> CanMerge(Recs(), i, j)
    {
      if mmaps[j].flags != mmaps[i].flags {
        return false;
      }
      var lo, hi := i, j;
      if mmaps[j].base < mmaps[i].base {
        lo, hi := j, i;
      }
      if mmaps[lo].base + mmaps[lo].size != mmaps[hi].base {
        return false;
      }
      var cb, ce := mmaps[lo].base, mmaps[hi].base + mmaps[hi].size;
      ghost var recs := Recs();
      for k := 0 to count
        invariant forall m | 0 <= m < k && m != lo && m != hi :: !Overlaps(recs[m], cb, ce)
      {
        if k != lo && k != hi && mmaps[k].base < ce && mmaps[k].base + mmaps[k].size > cb {
          assert Overlaps(recs[k], cb, ce);
          return false;
        }
      }
      return true;
    }

    method MergePair(i: nat, j: nat)
      requires Valid() && i < count && j < count && i != j
      modifies this`count, mmaps
      ensures Valid() && count == old(count) - 1
      ensures Recs() == Merge(old(Recs()), Lower(old(Recs()), i, j), Upper(old(Recs()), i, j))
    {
      var lo, hi := i, j;
      if mmaps[j].base < mmaps[i].base {
        lo, hi := j, i;
      }
      mmaps[lo] := mmaps[lo].(size := mmaps[lo].size + mmaps[hi].size);
      mmaps[hi] := mmaps[count - 1];
      count := count - 1;
    }

    // ---- finding and forgetting -----------------------------------------------------------

    /** The first record that covers `addr`. */
    method Find(addr: nat) returns (idx: int)
      requires Valid()
      ensures idx >= 0 ==> idx < count && Has(mmaps[idx], addr) && forall k | 0 <= k < idx :: !Has(mmaps[k], addr)
      ensures idx < 0 ==> forall k | 0 <= k < count :: !Has(mmaps[k], addr)
      ensures idx == First(Recs(), addr)
    {
      ghost var recs := Recs();
      for i := 0 to count
        invariant forall k | 0 <= k < i :: !Has(mmaps[k], addr)
      {
        assert mmaps[i] == recs[i];
        if mmaps[i].base <= addr < mmaps[i].base + mmaps[i].size {
          return i;
        }
      }
      return -1;
    }

    /** Closes the gap a record leaves, keeping the order. */
    method Forget(idx: nat)
      requires Valid() && idx < count
      modifies this`count, mmaps
      ensures Valid() && Recs() == old(Recs())[..idx] + old(Recs())[idx + 1..]
    {
      ghost var recs := Recs();
      for i := idx to count - 1
        invariant count == |recs| && mmaps[..count] == recs[..idx] + recs[idx + 1..i + 1] + recs[i..]
      {
        ShiftStep(recs, idx, i);
        mmaps[i] := mmaps[i + 1];
      }
      assert recs[..idx] + recs[idx + 1..count] == recs[..idx] + recs[idx + 1..];
      count := count - 1;
    }

    // ---- unmapping ------------------------------------------------------------------------------

    /** munmap: takes the span from the first record that covers `addr`, whole or at either end; `shared`
        holds the bases of shared mappings, which are only removed whole.  The span ends up uncovered if and
        only if no other record covers any address of it. */
    method Munmap(addr: nat, len: nat, shared: set<nat>) returns (r: int, ghost idx: int, ghost span: Rec)
      requires Valid()
      modifies this`count, mmaps
      ensures Valid() && idx == First(old(Recs()), addr)
      ensures r == if idx >= 0 && CanUnmap(old(Recs())[idx], addr, len, shared) then 0 else -E_INVAL
      ensures r != 0 ==> Recs() == old(Recs())
      ensures r == 0 ==>
                && idx >= 0 && span == SpanOf(old(Recs())[idx], addr, len)
                && (forall a: nat, f: nat :: Cover(Recs(), a, f) == Cover(old(Recs()), a, f) - Hits(span, a, f))
                && Unmapped(old(Recs()), idx, span, Recs())
                && ((forall a: nat | Has(span, a) :: InForce(Recs(), a).None?)
                    <==> forall a: nat | Has(span, a) :: !Elsewhere(old(Recs()), idx, a))
    {
      hide Cover, InForce, Unmapped, Elsewhere, First;
      ghost var recs := Recs();
      span := Rec(0, 0, 0);
      var at := Find(addr);
      idx := at;
      if at < 0 {
        return -E_INVAL, idx, span;
      }
      var rec := mmaps[at];
      var ulen := PagesOf(len);
      if ulen > rec.size {
        ulen := rec.size;
      }
      span := Rec(addr, ulen, rec.flags);
      if addr == rec.base && ulen == rec.size {
        Forget(at);
        Removed(recs, at);
        UnmapClears(recs, at, span, Recs());
        return 0, idx, span;
      }
      if rec.base in shared {
        return -E_INVAL, idx, span;
      }
      ghost var left: Rec;
      if addr == rec.base && ulen < rec.size {
        left := Rec(rec.base + ulen, rec.size - ulen, rec.flags);
        mmaps[at] := rec.(base := rec.base + ulen, size := rec.size - ulen);
      } else if addr + ulen == rec.base + rec.size {
        left := Rec(rec.base, rec.size - ulen, rec.flags);
        mmaps[at] := rec.(size := rec.size - ulen);
      } else {
        return -E_INVAL, idx, span;
      }
      assert Recs() == recs[at := left];
      Trimmed(recs, at, span, left);
      UnmapClears(recs, at, span, Recs());
      return 0, idx, span;
    }

    // ---- changing protection -----------------------------------------------------------------------

    /** Reflags record `i` where it meets the range, splitting off the rest while there is room. */
    method UpdateOne(i: nat, c: Change)
      requires Valid() && i < count && c.addr <= c.end
      modifies this`count, mmaps
      ensures Valid() && count >= old(count)
      ensures var p := Split(old(Recs())[i], c, CAPACITY - old(count));
              Recs() == old(Recs())[i := p.kept] + p.extra
    {
      ghost var recs := Recs();
      var rec := mmaps[i];
      if rec.base + rec.size <= c.addr || rec.base >= c.end {
        assert recs[i := rec] + [] == recs;
        return;
      }
      hide Split;
      ghost var above := CutAbove(i, c);
      ghost var middle := mmaps[i];
      assert Recs() == recs[i := middle] + above;
      ghost var below := CutBelow(i, c);
      ghost var inner := mmaps[i];
      SetFlags(i, c.flags);
      Regroup(recs, i, middle, above, inner, below, inner.(flags := c.flags));
      SplitIs(rec, c, CAPACITY - |recs|, above, below, inner);
    }

    method SetFlags(i: nat, flags: nat)
      requires Valid() && i < count
      modifies mmaps
      ensures Recs() == old(Recs())[i := old(Recs())[i].(flags := flags)]
    {
      mmaps[i] := mmaps[i].(flags := flags);
    }

    /** Splits off the part above the range if there is room. */
    method CutAbove(i: nat, c: Change) returns (ghost above: seq<Rec>)
      requires Valid() && i < count && Touches(mmaps[i], c)
      modifies this`count, mmaps
      ensures Valid() && count == old(count) + |above|
      ensures var r := old(Recs())[i];
              && above == (if SplitsAbove(r, c, CAPACITY - old(count)) then [Rec(c.end, End(r) - c.end, r.flags)] else [])
              && Recs() == old(Recs())[i := if above == [] then r else r.(size := c.end - r.base)] + above
    {
      var rec := mmaps[i];
      above := [];
      if rec.base + rec.size > c.end && count < CAPACITY {
        above := [Rec(c.end, rec.base + rec.size - c.end, rec.flags)];
        SplitOff(i, rec.(size := c.end - rec.base), Rec(c.end, rec.base + rec.size - c.end, rec.flags));
      } else {
        assert Recs()[i := rec] + [] == Recs();
      }
    }

    /** Then the part below it. */
    method CutBelow(i: nat, c: Change) returns (ghost below: seq<Rec>)
      requires Valid() && i < count && c.addr <= End(mmaps[i])
      modifies this`count, mmaps
      ensures Valid() && count == old(count) + |below|
      ensures var r := old(Recs())[i];
              && below == (if r.base < c.addr && old(count) < CAPACITY then [Rec(r.base, c.addr - r.base, r.flags)] else [])
              && Recs() == old(Recs())[i := if below == [] then r else Rec(c.addr, End(r) - c.addr, r.flags)] + below
    {
      var rec := mmaps[i];
      below := [];
      if rec.base < c.addr && count < CAPACITY {
        below := [Rec(rec.base, c.addr - rec.base, rec.flags)];
        SplitOff(i, Rec(c.addr, rec.base + rec.size - c.addr, rec.flags), Rec(rec.base, c.addr - rec.base, rec.flags));
      } else {
        assert Recs()[i := rec] + [] == Recs();
      }
    }

    /** Cuts record `i` down and puts the rest at the end. */
    method SplitOff(i: nat, kept: Rec, rest: Rec)
      requires Valid() && i < count < CAPACITY
      modifies this`count, mmaps
      ensures Valid() && count == old(count) + 1 && Recs() == old(Recs())[i := kept] + [rest]
    {
      mmaps[count] := rest;
      count := count + 1;
      mmaps[i] := kept;
    }

    /** mprotect's bookkeeping. */
    method UpdateFlags(addr: nat, size: nat, flags: nat)
      requires Valid()
      modifies this`count, mmaps
      ensures Valid()
      ensures Recs() == Reflagged(old(Recs()), Change(addr, addr + size, flags), CAPACITY - old(count))
      ensures NoSpill(old(Recs()), Change(addr, addr + size, flags), CAPACITY - old(count)) <==>
              Exact(old(Recs()), Recs(), Change(addr, addr + size, flags))
      ensures forall a: nat | addr <= a < addr + size ::
                InForce(Recs(), a) == if InForce(old(Recs()), a).Some? then Some(flags) else None
      ensures SameOutside(old(Recs()), Recs(), Change(addr, addr + size, flags)) <==>
              OutsideAgrees(old(Recs()), Change(addr, addr + size, flags), CAPACITY - old(count))
    {
      hide Split, NoSpill, Exact, Progress, Left, Reflagged, InForce, SameOutside, OutsideAgrees;
      var c := Change(addr, addr + size, flags);
      ghost var recs, room := Recs(), CAPACITY - count;
      ReflagIsExact(recs, c, room);
      OutsideStays(recs, c, room);
      var i: nat := 0;
      ProgressStarts(recs, c, room);
      while i < count
        invariant Valid() && Recs() == Progress(recs, c, room, i)
        decreases CAPACITY - i
      {
        if i < |recs| {
          ProgressStep(recs, c, room, i);
        } else {
          ProgressDone(recs, c, room, i);
          ProgressEnds(recs, c, room, i, CAPACITY - count);
          ProgressDone(recs, c, room, i + 1);
        }
        UpdateOne(i, c);
        i := i + 1;
      }
      ProgressDone(recs, c, room, i);
      forall a: nat | InRange(c, a)
        ensures InForce(Recs(), a) == if InForce(recs, a).Some? then Some(flags) else None
      {
        InsideChanges(recs, c, room, a);
      }
    }
  }

  lemma Removed(recs: seq<Rec>, i: nat)
    requires i < |recs|
    ensures forall a: nat, f: nat :: Cover(Without(recs, i), a, f) == Cover(recs, a, f) - Hits(recs[i], a, f)
    ensures Unmapped(recs, i, recs[i], Without(recs, i))
  {
    hide Cover, Unmapped;
    forall a: nat, f: nat ensures Cover(Without(recs, i), a, f) == Cover(recs, a, f) - Hits(recs[i], a, f) {
      CoverRemove(recs, i, a, f);
    }
    WholeInForce(recs, i, recs[i]);
  }

  lemma Trimmed(recs: seq<Rec>, i: nat, span: Rec, left: Rec)
    requires i < |recs| && left.flags == span.flags == recs[i].flags
    requires forall a: nat :: Has(left, a) <==> Has(recs[i], a) && !Has(span, a)
    requires recs[i].base <= span.base && End(span) <= End(recs[i])
    ensures forall a: nat, f: nat :: Cover(recs[i := left], a, f) == Cover(recs, a, f) - Hits(span, a, f)
    ensures Unmapped(recs, i, span, recs[i := left])
  {
    hide Cover, Unmapped;
    forall a: nat, f: nat ensures Cover(recs[i := left], a, f) == Cover(recs, a, f) - Hits(span, a, f) {
      CoverUpdate(recs, i, left, a, f);
    }
    TrimInForce(recs, i, span, left);
  }

  // ---- a protection that comes back -------------------------------------------------------------

  /** Three protections: readable, writable and executable, each for user mode. */
  const READABLE: nat := 2
  const WRITABLE: nat := 3
  const EXECUTABLE: nat := 6

  lemma OneMore(t: seq<Rec>, r: Rec)
    requires Positive(t) && r.size > 0 && Settled(t)
    requires forall k | 0 <= k < |t| :: t[k].flags != r.flags || (End(t[k]) != r.base && End(r) != t[k].base)
    ensures Recorded(t, r) == t + [r] && Settled(t + [r]) && Positive(t + [r])
  {
    TouchesNone(t, r);
    RecordApart(t, r);
  }

  const ONE: Rec := Rec(0x1000, 0x1000, READABLE)
  const GAP: Rec := Rec(0x2000, 0x1000, READABLE)
  const TWO: Rec := Rec(0x3000, 0x1000, READABLE)
  const OLD: Rec := Rec(0xB000, 0x2000, WRITABLE)
  const NEW: Rec := Rec(0xB000, 0x2000, EXECUTABLE)

  /** Five mappings in a row: two a page apart, two protections for one range, and the page between the
      first two.  The last call, which has nothing to do with the range, puts its older protection in
      force again. */
  method OldProtectionReturns() returns (space: AddressSpace, ghost before: seq<Rec>)
    ensures space.Valid() && space.Recs() == Recorded(before, GAP)
    ensures InForce(before, 0xB000) == Some(EXECUTABLE) && InForce(space.Recs(), 0xB000) == Some(WRITABLE)
  {
    hide Recorded, Scan, Settled, Positive, InForce, SameInForce, GapsAgree, Cover;
    space := new AddressSpace();
    EmptyIsSettled();
    OneMore([], ONE);
    var ok := space.Record(0x1000, 0x1000, READABLE);
    assert space.Recs() == [ONE];
    OneMore([ONE], TWO);
    ok := space.Record(0x3000, 0x1000, READABLE);
    assert space.Recs() == [ONE, TWO];
    OneMore([ONE, TWO], OLD);
    ok := space.Record(0xB000, 0x2000, WRITABLE);
    assert space.Recs() == [ONE, TWO, OLD];
    OneMore([ONE, TWO, OLD], NEW);
    ok := space.Record(0xB000, 0x2000, EXECUTABLE);
    before := space.Recs();
    assert before == [ONE, TWO, OLD, NEW];
    LastInForce(before, 0xB000);
    GapIsFilled(before);
    ok := space.Record(0x2000, 0x1000, READABLE);
    LastInForce(space.Recs(), 0xB000);
  }

  lemma EmptyIsSettled()
    ensures Settled([]) && Positive([])
  {
  }

  lemma GapIsFilled(t: seq<Rec>)
    requires t == [ONE, TWO, OLD, NEW] && Settled(t) && Positive(t)
    ensures Recorded(t, GAP) == [ONE.(size := 0x3000), NEW, OLD]
  {
    hide MayMerge, Settled, Positive, Recorded, Filled;
    var s := t + [GAP];
    assert s == [ONE, TWO, OLD, NEW, GAP];
    FirstTouches(s);
    RecordFills(t, GAP, 0, 1);
    FilledGap(t);
  }

  lemma FirstTouches(s: seq<Rec>)
    requires s == [ONE, TWO, OLD, NEW, GAP]
    ensures MayMerge(s, 0, 4) && MayMerge(s, 4, 1)
  {
    forall k | 0 <= k < 5 && k != 0 && k != 4 ensures !Overlaps(s[k], 0x1000, 0x3000) { assert s[k].base >= 0x3000; }
    forall k | 0 <= k < 5 && k != 4 && k != 1 ensures !Overlaps(s[k], 0x2000, 0x4000) {
      assert s[k].base >= 0xB000 || End(s[k]) == 0x2000;
    }
  }

  lemma FilledGap(t: seq<Rec>)
    requires t == [ONE, TWO, OLD, NEW]
    ensures Filled(t, GAP, 0, 1) == [ONE.(size := 0x3000), NEW, OLD]
  {
  }

  // ---- records laid over others -----------------------------------------------------------------

  const UNDER: Rec := Rec(0x1000, 0x3000, READABLE)
  const OVER: Rec := Rec(0x3000, 0x1000, WRITABLE)

  /** A readable mapping whose last page a writable one was laid over. */
  method MakeOverlaid() returns (space: AddressSpace)
    ensures fresh(space) && fresh(space.mmaps) && space.Valid() && space.Recs() == [UNDER, OVER]
  {
    hide Recorded, Scan, Settled, Positive, InForce, SameInForce, GapsAgree, Cover;
    space := new AddressSpace();
    EmptyIsSettled();
    OneMore([], UNDER);
    var ok := space.Record(0x1000, 0x3000, READABLE);
    assert space.Recs() == [UNDER];
    OneMore([UNDER], OVER);
    ok := space.Record(0x3000, 0x1000, WRITABLE);
  }

  /** Changing the middle page then, with nearly all of the table free and the number of records with each
      protection right everywhere, makes the last page readable only. */
  method NewerMappingLoses() returns (space: AddressSpace, ghost before: seq<Rec>, ghost c: Change)
    ensures c == Change(0x2000, 0x3000, EXECUTABLE) && !InRange(c, 0x3000)
    ensures space.Valid() && space.Recs() == Reflagged(before, c, CAPACITY - 2)
    ensures NoSpill(before, c, CAPACITY - 2) && Exact(before, space.Recs(), c)
    ensures InForce(before, 0x3000) == Some(WRITABLE) && InForce(space.Recs(), 0x3000) == Some(READABLE)
  {
    hide InForce, NoSpill, Exact, Reflagged, SameOutside, OutsideAgrees;
    c := Change(0x2000, 0x3000, EXECUTABLE);
    space := MakeOverlaid();
    before := space.Recs();
    assert |before| == 2;
    AmpleRoom(before, c, CAPACITY - 2);
    LastInForce(before, 0x3000);
    ReflaggedInForce(before, c, CAPACITY - 2, 0x3000);
    UnderIsCut();
    space.UpdateFlags(0x2000, 0x1000, EXECUTABLE);
  }

  lemma UnderIsCut()
    ensures LastCut([UNDER, OVER], Change(0x2000, 0x3000, EXECUTABLE), CAPACITY - 2, 0x3000) == Some(READABLE)
  {
    assert [UNDER, OVER][..1] == [UNDER] && [UNDER][..0] == [];
  }

  /** Unmapping the last page succeeds, and the page is as mapped as before. */
  method UnmappedYetCovered() returns (space: AddressSpace, r: int, ghost before: seq<Rec>)
    ensures space.Valid() && r == 0
    ensures InForce(before, 0x3000) == Some(WRITABLE) && InForce(space.Recs(), 0x3000) == Some(WRITABLE)
  {
    hide InForce, Unmapped, Elsewhere, Cover;
    space := MakeOverlaid();
    before := space.Recs();
    LastInForce(before, 0x3000);
    ghost var idx, span;
    UnderIsFirst();
    r, idx, span := space.Munmap(0x3000, 0x1000, {});
    FirstIsNotInForce(before, 0x3000);
    AtSpan(before, 0, span, space.Recs(), 0x3000);
  }

  lemma UnderIsFirst()
    ensures First([UNDER, OVER], 0x3000) == 0 && Elsewhere([UNDER, OVER], 0, 0x3000)
  {
    assert Has([UNDER, OVER][0], 0x3000) && Has([UNDER, OVER][1], 0x3000);
  }

  lemma AtSpan(recs: seq<Rec>, i: nat, span: Rec, after: seq<Rec>, a: nat)
    requires i < |recs| && Unmapped(recs, i, span, after) && Has(span, a)
    ensures InForce(after, a) == InForce(Without(recs, i), a)
  {
  }

  // ---- a change that reaches too far ---------------------------------------------------------------

  /** Three-page mappings with a page between each two. */
  function Spaced(n: nat): (s: seq<Rec>)
    ensures |s| == n
  {
    seq(n, i requires i >= 0 => Rec(0x1000 + i * 0x4000, 0x3000, READABLE))
  }

  lemma SpacedNext(n: nat)
    requires Settled(Spaced(n)) && Positive(Spaced(n))
    ensures Recorded(Spaced(n), Rec(0x1000 + n * 0x4000, 0x3000, READABLE)) == Spaced(n + 1)
    ensures Settled(Spaced(n + 1)) && Positive(Spaced(n + 1))
  {
    hide Settled, Positive, Recorded;
    var r := Rec(0x1000 + n * 0x4000, 0x3000, READABLE);
    OneMore(Spaced(n), r);
    assert Spaced(n) + [r] == Spaced(n + 1);
  }

  lemma FirstSpills()
    ensures !NoSpill(Spaced(CAPACITY), Change(0x2000, 0x3000, WRITABLE), 0)
  {
    var recs, c := Spaced(CAPACITY), Change(0x2000, 0x3000, WRITABLE);
    assert recs[0] == Rec(0x1000, 0x3000, READABLE);
    assert Left(recs[..0], c, 0) == 0;
    SpillStays(recs, c, 0, 0);
  }

  /** With the table full of three-page mappings, changing the middle page of the first does not change
      that page alone. */
  method FullTableSpills() returns (space: AddressSpace)
    ensures space.Valid() && !Exact(Spaced(CAPACITY), space.Recs(), Change(0x2000, 0x3000, WRITABLE))
  {
    hide Settled, Positive, Recorded, Scan, SameInForce, GapsAgree, Cover, Spaced, NoSpill, Exact, Reflagged;
    space := new AddressSpace();
    EmptyIsSettled();
    assert Spaced(0) == [];
    for n := 0 to CAPACITY
      invariant fresh(space) && fresh(space.mmaps) && space.Valid() && space.Recs() == Spaced(n)
      invariant Settled(Spaced(n)) && Positive(Spaced(n))
    {
      SpacedNext(n);
      assert |space.Recs()| == n;
      var ok := space.Record(0x1000 + n * 0x4000, 0x3000, READABLE);
    }
    FirstSpills();
    assert |space.Recs()| == CAPACITY;
    space.UpdateFlags(0x2000, 0x1000, WRITABLE);
  }

  lemma Regroup(recs: seq<Rec>, i: nat, a: Rec, x: seq<Rec>, b: Rec, y: seq<Rec>, r: Rec)
    requires i < |recs|
    ensures ((recs[i := a] + x)[i := b] + y)[i := r] == recs[i := r] + (x + y)
  {
  }

  lemma SplitIs(r: Rec, c: Change, room: nat, above: seq<Rec>, below: seq<Rec>, inner: Rec)
    requires c.addr <= c.end && Touches(r, c)
    requires above == if SplitsAbove(r, c, room) then [Rec(c.end, End(r) - c.end, r.flags)] else []
    requires below == if SplitsBelow(r, c, room) then [Rec(r.base, c.addr - r.base, r.flags)] else []
    requires inner.base == (if below == [] then r.base else c.addr) && End(inner) == (if above == [] then End(r) else c.end)
    ensures Split(r, c, room) == Parts(inner.(flags := c.flags), above + below)
  {
  }

  lemma ShiftStep(recs: seq<Rec>, idx: nat, i: nat)
    requires idx <= i && i + 1 < |recs|
    ensures (recs[..idx] + recs[idx + 1..i + 1] + recs[i..])[i := recs[i + 1]]
         == recs[..idx] + recs[idx + 1..i + 2] + recs[i + 1..]
    ensures (recs[..idx] + recs[idx + 1..i + 1] + recs[i..])[i + 1] == recs[i + 1]
  {
  }
}
