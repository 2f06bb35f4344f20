/** The two CRC-32 implementations: bit by bit (src/lib/gzip.c) and table driven
    (src/crypto/crypto.c), and the proof that they agree on every byte string. */
module Crc32 {

  const POLY: bv32 := 0xEDB88320
  const ONES: bv32 := 0xFFFFFFFF

  function Xor(a: bv32, b: bv32): bv32 { a ^ b }
  function Half(c: bv32): bv32 { c >> 1 }
  function Odd(c: bv32): bool { c & 1 == 1 }
  function LowByte(c: bv32): bv8 { (c & 0xFF) as bv8 }
  function Widen(b: bv8): bv32 { b as bv32 }

  /** One bit of the reflected division by the CRC polynomial. */
  function Shift(c: bv32): bv32 {
    if Odd(c) then Xor(POLY, Half(c)) else Half(c)
  }

  function Shifts(c: bv32, n: nat): bv32 {
    if n == 0 then c else Shift(Shifts(c, n - 1))
  }

  /** The division remainder after `data`, bit by bit. */
  function Remainder(data: seq<bv8>, c: bv32): bv32 {
    if data == [] then c
    else Shifts(Xor(Remainder(data[..|data| - 1], c), Widen(data[|data| - 1])), 8)
  }

  function Crc(data: seq<bv8>): bv32 {
    Xor(Remainder(data, ONES), ONES)
  }

  // ---- linearity -----------------------------------------------------------

  lemma OddXor(a: bv32, b: bv32)
    ensures Odd(Xor(a, b)) <==> (Odd(a) != Odd(b))
  {
    assert (a ^ b) & 1 == (a & 1) ^ (b & 1);
    assert a & 1 == 0 || a & 1 == 1;
    assert b & 1 == 0 || b & 1 == 1;
  }

  lemma HalfXor(a: bv32, b: bv32)
    ensures Half(Xor(a, b)) == Xor(Half(a), Half(b))
  {
  }

  lemma XorAssoc(x: bv32, y: bv32, z: bv32)
    ensures Xor(Xor(x, y), z) == Xor(x, Xor(y, z))
  {
    assert (x ^ y) ^ z == x ^ (y ^ z);
  }

  lemma XorComm(x: bv32, y: bv32)
    ensures Xor(x, y) == Xor(y, x)
  {
  }

  lemma XorSelf(x: bv32, y: bv32)
    ensures Xor(x, Xor(x, y)) == y
  {
  }

  lemma XorMoves(p: bv32, x: bv32, y: bv32)
    ensures Xor(p, Xor(x, y)) == Xor(Xor(p, x), y) == Xor(x, Xor(p, y))
    ensures Xor(Xor(p, x), Xor(p, y)) == Xor(x, y)
  {
    hide Xor;
    XorAssoc(p, x, y);
    XorAssoc(x, p, y);
    XorComm(p, x);
    XorAssoc(x, p, Xor(p, y));
    XorSelf(p, y);
  }

  lemma ShiftXor(a: bv32, b: bv32)
    ensures Shift(Xor(a, b)) == Xor(Shift(a), Shift(b))
  {
    hide Xor, Half, Odd;
    OddXor(a, b);
    HalfXor(a, b);
    XorMoves(POLY, Half(a), Half(b));
  }

  lemma {:induction false} ShiftsXor(a: bv32, b: bv32, n: nat)
    ensures Shifts(Xor(a, b), n) == Xor(Shifts(a, n), Shifts(b, n))
  {
    hide Xor, Shift;
    if n != 0 {
      ShiftsXor(a, b, n - 1);
      ShiftXor(Shifts(a, n - 1), Shifts(b, n - 1));
    }
  }

  function Down(c: bv32): bv32 { c >> 8 }

  function Halves(c: bv32, n: nat): bv32 {
    if n == 0 then c else Half(Halves(c, n - 1))
  }

  lemma EightHalves(c: bv32)
    requires c & 0xFF == 0
    ensures Halves(c, 8) == Down(c)
    ensures forall n | 0 <= n < 8 :: !Odd(Halves(c, n))
  {
    assert Halves(c, 1) == c >> 1;
    assert Halves(c, 2) == c >> 2;
    assert Halves(c, 3) == c >> 3;
    assert Halves(c, 4) == c >> 4;
    assert Halves(c, 5) == c >> 5;
    assert Halves(c, 6) == c >> 6;
    assert Halves(c, 7) == c >> 7;
  }

  /** Steps over even words only move them down. */
  lemma {:induction false} ShiftsOfEven(c: bv32, n: nat)
    requires forall k | 0 <= k < n :: !Odd(Halves(c, k))
    ensures Shifts(c, n) == Halves(c, n)
  {
    hide Xor, Half, Odd;
    if n != 0 { ShiftsOfEven(c, n - 1); }
  }

  lemma SplitLowByte(c: bv32) returns (high: bv32)
    ensures c == Xor(Widen(LowByte(c)), high)
    ensures high & 0xFF == 0 && Down(high) == Down(c)
  {
    high := c & 0xFFFFFF00;
    assert Widen(LowByte(c)) == c & 0xFF;
  }

  /** The step a table lookup replaces: only the low byte needs dividing. */
  lemma TableStep(c: bv32)
    ensures Shifts(c, 8) == Xor(Shifts(Widen(LowByte(c)), 8), Down(c))
  {
    hide Xor, Shift, Half, Odd, Down, LowByte, Widen;
    var high := SplitLowByte(c);
    ShiftsXor(Widen(LowByte(c)), high, 8);
    EightHalves(high);
    ShiftsOfEven(high, 8);
  }

  // ---- the two implementations ----------------------------------------------

  /** `gzip_crc32`: the branch-free form of the shift. */
  method BitwiseCrc(data: seq<bv8>) returns (crc: bv32)
    ensures crc == Crc(data)
  {
    hide Shift, Xor, Widen, Negate;
    var c := ONES;
    for i := 0 to |data|
      invariant c == Remainder(data[..i], ONES)
    {
      assert data[..i + 1][..i] == data[..i];
      c := Xor(c, Widen(data[i]));
      ghost var start := c;
      for bit := 0 to 8
        invariant c == Shifts(start, bit)
      {
        BranchFree(c);
        c := Xor(Half(c), POLY & Negate(c & 1));
      }
    }
    assert data[..|data|] == data;
    crc := Xor(c, ONES);
  }

  function Negate(b: bv32): bv32 { 0 - b }

  lemma BranchFree(c: bv32)
    ensures Xor(Half(c), POLY & Negate(c & 1)) == Shift(c)
  {
    assert c & 1 == 0 || c & 1 == 1;
    if c & 1 == 0 {
      assert POLY & Negate(0) == 0;
      assert Half(c) ^ 0 == Half(c);
    } else {
      assert POLY & Negate(1) == POLY;
      assert Half(c) ^ POLY == POLY ^ Half(c);
    }
  }

  /** The lazily filled table, and the checksum computed through it. */
  class CrcTable {
    var table: seq<bv32>
    var ready: bool

    ghost predicate Valid()
      reads this
    {
      ready ==> |table| == 256 && forall b: bv8 :: table[b] == Shifts(Widen(b), 8)
    }

    constructor ()
      ensures Valid() && !ready
    {
      table, ready := [], false;
    }

    method Init()
      modifies this
      ensures Valid() && ready
    {
      hide Shift, Widen;
      var t: seq<bv32> := [];
      for i := 0 to 256
        invariant |t| == i
        invariant forall k | 0 <= k < i :: t[k] == Shifts(Widen(k as bv8), 8)
      {
        var c := Widen(i as bv8);
        for k := 0 to 8
          invariant c == Shifts(Widen(i as bv8), k)
        {
          c := Shift(c);
        }
        t := t + [c];
      }
      forall b: bv8 ensures t[b] == Shifts(Widen(b), 8) {
        assert t[b as int] == Shifts(Widen((b as int) as bv8), 8);
      }
      table, ready := t, true;
    }

    method Checksum(data: seq<bv8>) returns (crc: bv32)
      requires Valid()
      modifies this
      ensures Valid() && ready
      ensures crc == Crc(data)
    {
      hide Shifts, Xor, Down, Widen, LowByte;
      if !ready {
        Init();
      }
      var c := ONES;
      for i := 0 to |data|
        invariant c == Remainder(data[..i], ONES)
        invariant Valid() && ready
      {
        assert data[..i + 1][..i] == data[..i];
        var x := Xor(c, Widen(data[i]));
        TableStep(x);
        DownIgnoresByte(c, data[i]);
        c := Xor(table[LowByte(x)], Down(c));
      }
      assert data[..|data|] == data;
      crc := Xor(c, ONES);
    }
  }

  lemma DownIgnoresByte(c: bv32, b: bv8)
    ensures Down(Xor(c, Widen(b))) == Down(c)
  {
  }

  // ---- the polynomial and the check value ---------------------------------------------------------

  /** x^32 + x^26 + x^23 + x^22 + x^16 + x^12 + x^11 + x^10 + x^8 + x^7 + x^5 + x^4 + x^2 + x + 1, the coefficient
      of x^k in bit 31 - k. */
  lemma PolynomialIs()
    ensures POLY == (1 << 5) | (1 << 8) | (1 << 9) | (1 << 15) | (1 << 19) | (1 << 20) | (1 << 21) |
                    (1 << 23) | (1 << 24) | (1 << 26) | (1 << 27) | (1 << 29) | (1 << 30) | (1 << 31)
  {
  }

  function EightShifts(c: bv32): bv32 { Shift(Shift(Shift(Shift(Shift(Shift(Shift(Shift(c)))))))) }

  lemma EightShiftsAre(c: bv32)
    ensures Shifts(c, 8) == EightShifts(c)
  {
    hide Shift;
    assert Shifts(c, 1) == Shift(c);
    assert Shifts(c, 3) == Shift(Shift(Shifts(c, 1)));
    assert Shifts(c, 5) == Shift(Shift(Shifts(c, 3)));
    assert Shifts(c, 7) == Shift(Shift(Shifts(c, 5)));
  }

  lemma ByteTo(before: seq<bv8>, b: bv8, c: bv32, d: bv32) returns (after: seq<bv8>)
    requires Remainder(before, ONES) == c && EightShifts(Xor(c, Widen(b))) == d
    ensures after == before + [b] && Remainder(after, ONES) == d
  {
    hide EightShifts, Xor, Widen, Shifts;
    EightShiftsAre(Xor(c, Widen(b)));
    after := before + [b];
    assert after[..|before|] == before;
  }

  /** The check value of the digits 1 to 9. */
  lemma CheckValue()
    ensures Crc([0x31, 0x32, 0x33, 0x34, 0x35, 0x36, 0x37, 0x38, 0x39]) == 0xCBF43926
  {
    hide Remainder, EightShifts;
    Nothing();
    DigitSteps();
    var s1 := ByteTo([], 0x31, 0xffffffff, 0x7c231048);
    var s2 := ByteTo(s1, 0x32, 0x7c231048, 0xb0acbb32);
    var s3 := ByteTo(s2, 0x33, 0xb0acbb32, 0x77b79c2d);
    var s4 := ByteTo(s3, 0x34, 0x77b79c2d, 0x641c1f5c);
    var s5 := ByteTo(s4, 0x35, 0x641c1f5c, 0x340ac5e3);
    var s6 := ByteTo(s5, 0x36, 0x340ac5e3, 0xf68d2c9e);
    var s7 := ByteTo(s6, 0x37, 0xf68d2c9e, 0xaffc9660);
    var s8 := ByteTo(s7, 0x38, 0xaffc9660, 0x651f2550);
    var s9 := ByteTo(s8, 0x39, 0x651f2550, 0x340bc6d9);
    assert s9 == [0x31, 0x32, 0x33, 0x34, 0x35, 0x36, 0x37, 0x38, 0x39];
  }

  lemma Nothing()
    ensures Remainder([], ONES) == 0xFFFFFFFF
  {
  }

  lemma DigitSteps()
    ensures EightShifts(Xor(0xffffffff, Widen(0x31))) == 0x7c231048
    ensures EightShifts(Xor(0x7c231048, Widen(0x32))) == 0xb0acbb32
    ensures EightShifts(Xor(0xb0acbb32, Widen(0x33))) == 0x77b79c2d
    ensures EightShifts(Xor(0x77b79c2d, Widen(0x34))) == 0x641c1f5c
    ensures EightShifts(Xor(0x641c1f5c, Widen(0x35))) == 0x340ac5e3
    ensures EightShifts(Xor(0x340ac5e3, Widen(0x36))) == 0xf68d2c9e
    ensures EightShifts(Xor(0xf68d2c9e, Widen(0x37))) == 0xaffc9660
    ensures EightShifts(Xor(0xaffc9660, Widen(0x38))) == 0x651f2550
    ensures EightShifts(Xor(0x651f2550, Widen(0x39))) == 0x340bc6d9
  {
  }
}
