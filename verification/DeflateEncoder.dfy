/** An encoder for DEFLATE streams that uses no table of RFC 1951: lengths, distances, runs and the fixed
    codes are written by arithmetic.  Decoding what it writes gives back what was meant, for every choice of
    blocks, codes, literals and matches. */
module DeflateEncoder {
  import opened Prelude
  import opened Arith
  import opened Bits
  import opened HuffmanCodes
  import opened Deflate

  // ---- reading back a field and a code --------------------------------------------------------

  lemma FieldOf(v: nat, n: nat, rest: Bitstring)
    requires v < Pow2(n)
    ensures Field(LsbBits(v, n) + rest, n) == Some((v, rest))
  {
    var b := LsbBits(v, n);
    LsbBitsSplit(v, n, n);
    assert b[..n] == b && (b + rest)[..n] == b && (b + rest)[n..] == rest;
    SmallDivMod(v, Pow2(n));
  }

  lemma DecodeCode(code: seq<nat>, s: nat, rest: Bitstring)
    requires IsPrefixCode(code) && Used(code, s)
    ensures Decode(code, Code(code, s) + rest) == Some((s, rest))
  {
    var bits := Code(code, s) + rest;
    assert bits[..code[s]] == Code(code, s) && bits[code[s]..] == rest;
    DecodeIs(code, bits, s);
  }

  // ---- numbers in classes that double -----------------------------------------------------------

  /** The position of the highest one bit. */
  function Log(x: nat): (n: nat)
    requires x >= 1
    ensures Pow2(n) <= x < 2 * Pow2(n)
  {
    if x == 1 then 0 else 1 + Log(x / 2)
  }

  /** How many extra bits number `m` takes when each width has `Pow2(g)` symbols. */
  function Width(m: nat, g: nat): nat { if m >= 1 && Log(m) > g then Log(m) - g else 0 }

  /** The symbol of `m`: the width, then the bits of `m` above it. */
  function Slot(m: nat, g: nat): nat { Width(m, g) * Pow2(g) + m / Pow2(Width(m, g)) }

  function Offset(m: nat, g: nat): (r: nat)
    ensures r < Pow2(Width(m, g))
  {
    m % Pow2(Width(m, g))
  }

  /** The width of slot `k` and its first number. */
  function SlotWidth(k: nat, g: nat): nat { if k < 2 * Pow2(g) then 0 else k / Pow2(g) - 1 }

  function SlotStart(k: nat, g: nat): nat {
    if k < 2 * Pow2(g) then k else (Pow2(g) + k % Pow2(g)) * Pow2(SlotWidth(k, g))
  }

  /** A number is the start of its slot and its offset. */
  lemma SlotOf(m: nat, g: nat)
    ensures SlotWidth(Slot(m, g), g) == Width(m, g)
    ensures SlotStart(Slot(m, g), g) + Offset(m, g) == m
  {
    hide Pow2;
    var e, p := Width(m, g), Pow2(g);
    if e == 0 {
      NoWidth(m, g);
    } else {
      Pow2Add(e, g);
      assert Log(m) == e + g;
      WideSlot(m, e, p, Pow2(e));
    }
  }

  lemma NoWidth(m: nat, g: nat)
    requires Width(m, g) == 0
    ensures m < 2 * Pow2(g) && Slot(m, g) == m && Offset(m, g) == 0
  {
    hide Log;
    assert Pow2(0) == 1;
    if m >= 1 { Monotone(Log(m), g); }
  }

  lemma WideSlot(m: nat, e: nat, p: nat, w: nat)
    requires e >= 1 && p >= 1 && w >= 1 && w * p <= m < 2 * (w * p)
    ensures var k := e * p + m / w;
            k >= 2 * p && k / p - 1 == e && (p + k % p) * w + m % w == m
  {
    var q := m / w;
    assert w * p == p * w && 2 * (w * p) == (2 * p) * w;
    DivAtLeast(m, w, p);
    DivBound(m, w, 2 * p);
    assert e * p + q == (e + 1) * p + (q - p);
    DivModUnique(e * p + q, p, e + 1, q - p);
    MulMono(1, e, p);
    assert q * w + m % w == m;
  }

  lemma {:induction false} Monotone(a: nat, b: nat)
    requires a <= b
    ensures Pow2(a) <= Pow2(b)
    decreases b
  {
    if a < b { Monotone(a, b - 1); }
  }

  // ---- the tables of section 3.2.5 ------------------------------------------------------------------

  /** Lengths 3 to 257 take four symbols for each width, and 258 has its own. */
  lemma LengthTable(k: nat)
    requires k < 29
    ensures LENGTH_EXTRA[k] == if k == 28 then 0 else SlotWidth(k, 2)
    ensures LENGTH_BASE[k] == if k == 28 then 258 else 3 + SlotStart(k, 2)
  {
    LengthWidths(k);
    if k < 28 { LengthStarts(k); }
  }

  lemma LengthWidths(k: nat)
    requires k < 29
    ensures LENGTH_EXTRA[k] == if k == 28 then 0 else SlotWidth(k, 2)
    ensures LENGTH_BASE[28] == 258
  {
    assert Pow2(2) == 4;
  }

  lemma LengthStarts(k: nat)
    requires k < 28
    ensures LENGTH_BASE[k] == 3 + SlotStart(k, 2)
  {
    if k < 8 {
      assert Pow2(2) == 4;
    } else {
      var j, r := k / 4, k % 4;
      assert k == 4 * j + r;
      Quadrupled(j, r);
      StartOfFour(k, j, r);
    }
  }

  lemma StartOfFour(k: nat, j: nat, r: nat)
    requires j >= 2 && r < 4 && k == 4 * j + r
    ensures SlotStart(k, 2) == (4 + r) * Pow2(j - 1)
  {
    assert Pow2(2) == 4 && k / 4 == j && k % 4 == r;
  }

  lemma Quadrupled(j: nat, r: nat)
    requires 2 <= j < 7 && r < 4
    ensures LENGTH_BASE[4 * j + r] == 3 + (4 + r) * Pow2(j - 1)
  {
    hide Pow2;
    PowersTo13();
  }

  /** Distances 1 to 32768 take two symbols for each width. */
  lemma DistanceTable(k: nat)
    requires k < 30
    ensures DISTANCE_EXTRA[k] == SlotWidth(k, 1)
    ensures DISTANCE_BASE[k] == 1 + SlotStart(k, 1)
  {
    DistanceWidths(k);
    DistanceStarts(k);
  }

  lemma DistanceWidths(k: nat)
    requires k < 30
    ensures DISTANCE_EXTRA[k] == SlotWidth(k, 1)
  {
    assert Pow2(1) == 2;
    if k >= 4 { WidthOfTwo(k / 2); }
  }

  lemma WidthOfTwo(j: nat)
    requires 2 <= j < 15
    ensures DISTANCE_EXTRA[2 * j] == j - 1 && DISTANCE_EXTRA[2 * j + 1] == j - 1
  {
  }

  lemma DistanceStarts(k: nat)
    requires k < 30
    ensures DISTANCE_BASE[k] == 1 + SlotStart(k, 1)
  {
    if k < 4 {
      assert Pow2(1) == 2;
    } else {
      var j, r := k / 2, k % 2;
      assert k == 2 * j + r;
      Doubled(j, r);
      StartOfTwo(k, j, r);
    }
  }

  lemma StartOfTwo(k: nat, j: nat, r: nat)
    requires j >= 2 && r < 2 && k == 2 * j + r
    ensures SlotStart(k, 1) == (2 + r) * Pow2(j - 1)
  {
    assert Pow2(1) == 2 && k / 2 == j && k % 2 == r;
  }

  lemma Doubled(j: nat, r: nat)
    requires 2 <= j < 15 && r < 2
    ensures DISTANCE_BASE[2 * j + r] == 1 + (2 + r) * Pow2(j - 1)
  {
    hide Pow2;
    PowersTo13();
  }

  lemma PowersTo13()
    ensures Pow2(0) == 1 && Pow2(1) == 2 && Pow2(2) == 4 && Pow2(3) == 8 && Pow2(4) == 16 && Pow2(5) == 32
    ensures Pow2(6) == 64 && Pow2(7) == 128 && Pow2(8) == 256 && Pow2(9) == 512 && Pow2(10) == 1024
    ensures Pow2(11) == 2048 && Pow2(12) == 4096 && Pow2(13) == 8192
  {
  }

  /** The order in which the lengths of the code-length code are sent. */
  function Order(i: nat): nat
    requires i < 19
  {
    if i < 3 then 16 + i else if i == 3 then 0 else if i % 2 == 0 then 8 + (i - 4) / 2 else 7 - (i - 5) / 2
  }

  lemma OrderTable(i: nat)
    requires i < 19
    ensures CODE_ORDER[i] == Order(i)
  {
  }

  // ---- literals and matches ---------------------------------------------------------------------------

  /** A byte, or `length` bytes that repeat those from `distance` bytes back on; the largest length has a
      symbol of its own, `full`, beside its place in the last class. */
  datatype Item = Literal(byte: Octet) | Repeat(length: nat, distance: nat, full: bool)

  predicate ItemOk(x: Item) {
    x.Repeat? ==> 3 <= x.length <= 258 && 1 <= x.distance <= 32768 && (x.full ==> x.length == 258)
  }

  function LengthSlot(length: nat, full: bool): nat
    requires 3 <= length
  {
    if full then 28 else Slot(length - 3, 2)
  }

  function LengthBits(length: nat, full: bool): Bitstring
    requires 3 <= length
  {
    if full then [] else LsbBits(Offset(length - 3, 2), Width(length - 3, 2))
  }

  /** The codes have the symbols that an item needs. */
  predicate Encodable(codes: Codes, x: Item)
    requires ItemOk(x)
  {
    match x
    case Literal(b) => Used(codes.literal, b)
    case Repeat(l, d, full) => Used(codes.literal, 257 + LengthSlot(l, full)) && Used(codes.distance, Slot(d - 1, 1))
  }

  function EncodeItem(codes: Codes, x: Item): Bitstring
    requires ItemOk(x) && Encodable(codes, x)
  {
    match x
    case Literal(b) => Code(codes.literal, b)
    case Repeat(l, d, full) =>
      Code(codes.literal, 257 + LengthSlot(l, full)) + (LengthBits(l, full)
      + (Code(codes.distance, Slot(d - 1, 1)) + LsbBits(Offset(d - 1, 1), Width(d - 1, 1))))
  }

  predicate AllEncodable(codes: Codes, items: seq<Item>) {
    forall x <- items :: ItemOk(x) && Encodable(codes, x)
  }

  function EncodeItems(codes: Codes, items: seq<Item>): Bitstring
    requires AllEncodable(codes, items)
  {
    if items == [] then [] else EncodeItem(codes, items[0]) + EncodeItems(codes, items[1..])
  }

  /** One byte at a time. */
  function Repeated(out: seq<Octet>, distance: nat, length: nat): (r: seq<Octet>)
    requires 1 <= distance <= |out|
    ensures |r| == |out| + length
    decreases length
  {
    if length == 0 then out else Repeated(out + [out[|out| - distance]], distance, length - 1)
  }

  /** No match reaches back before the first byte. */
  predicate Grounded(out: seq<Octet>, items: seq<Item>)
    decreases |items|
  {
    items == [] || (One(out, items[0]) && Grounded(Expanded(out, items[0]), items[1..]))
  }

  predicate One(out: seq<Octet>, x: Item) { x.Repeat? ==> 1 <= x.distance <= |out| }

  function Expanded(out: seq<Octet>, x: Item): seq<Octet>
    requires One(out, x)
  {
    match x
    case Literal(b) => out + [b]
    case Repeat(l, d, _) => Repeated(out, d, l)
  }

  /** The bytes that items mean after `out`. */
  function Expand(out: seq<Octet>, items: seq<Item>): seq<Octet>
    requires Grounded(out, items)
    decreases |items|
  {
    if items == [] then out else Expand(Expanded(out, items[0]), items[1..])
  }

  lemma {:induction false} CopyFirst(out: seq<Octet>, distance: nat, length: nat)
    requires 1 <= distance <= |out| && length >= 1
    ensures Copy(out, distance, length) == Copy(out + [out[|out| - distance]], distance, length - 1)
  {
    if length > 1 { CopyFirst(out, distance, length - 1); }
  }

  lemma {:induction false} RepeatedIsCopy(out: seq<Octet>, distance: nat, length: nat)
    requires 1 <= distance <= |out|
    ensures Repeated(out, distance, length) == Copy(out, distance, length)
    decreases length
  {
    if length > 0 {
      RepeatedIsCopy(out + [out[|out| - distance]], distance, length - 1);
      CopyFirst(out, distance, length);
    }
  }

  // ---- reading them back -----------------------------------------------------------------------------

  lemma LogBound(m: nat, n: nat)
    requires 1 <= m < Pow2(n)
    ensures Log(m) < n
  {
    if Log(m) >= n { Monotone(n, Log(m)); }
  }

  lemma SlotBound(m: nat, g: nat, c: nat)
    requires m < Pow2(g + c + 1)
    ensures Slot(m, g) < (c + 2) * Pow2(g)
  {
    hide Pow2, Log, Slot;
    var e, p := Width(m, g), Pow2(g);
    if m >= 1 { LogBound(m, g + c + 1); }
    if e == 0 {
      NoWidth(m, g);
      MulMono(2, c + 2, p);
    } else {
      WideSlotBound(m, g, c);
    }
  }

  lemma WideSlotBound(m: nat, g: nat, c: nat)
    requires 0 < Width(m, g) <= c
    ensures Slot(m, g) < (c + 2) * Pow2(g)
  {
    hide Pow2, Log;
    Pow2Add(Width(m, g), g);
    assert Log(m) == Width(m, g) + g;
    WideBound(m, Width(m, g), Pow2(g), Pow2(Width(m, g)), c);
  }

  lemma WideBound(m: nat, e: nat, p: nat, w: nat, c: nat)
    requires p >= 1 && w >= 1 && m < 2 * (w * p) && e <= c
    ensures e * p + m / w < (c + 2) * p
  {
    assert 2 * (w * p) == (2 * p) * w;
    DivBound(m, w, 2 * p);
    MulMono(e, c, p);
    assert c * p + 2 * p == (c + 2) * p;
  }

  lemma LengthSlotBound(length: nat, full: bool)
    requires 3 <= length <= 258
    ensures LengthSlot(length, full) < 29 && (!full ==> LengthSlot(length, full) < 28)
  {
    hide Slot;
    PowersTo13();
    SlotBound(length - 3, 2, 5);
  }

  lemma DistanceSlotBound(distance: nat)
    requires 1 <= distance <= 32768
    ensures Slot(distance - 1, 1) < 30
  {
    hide Slot;
    PowersTo13();
    assert Pow2(15) == 32768;
    SlotBound(distance - 1, 1, 13);
  }

  lemma LengthRead(length: nat, full: bool, rest: Bitstring)
    requires 3 <= length <= 258 && (full ==> length == 258)
    ensures LengthSlot(length, full) < 29
    ensures MatchLength(LengthBits(length, full) + rest, 257 + LengthSlot(length, full)) == Some((length, rest))
  {
    hide Slot, Offset, Width, SlotStart, SlotWidth, Field, LsbBits;
    LengthSlotBound(length, full);
    LengthTable(LengthSlot(length, full));
    if full {
      assert [] + rest == rest;
      NoField(rest);
    } else {
      SlotOf(length - 3, 2);
      FieldOf(Offset(length - 3, 2), Width(length - 3, 2), rest);
    }
  }

  lemma NoField(rest: Bitstring)
    ensures Field(rest, 0) == Some((0, rest))
  {
  }

  lemma DistanceRead(code: seq<nat>, distance: nat, rest: Bitstring)
    requires IsPrefixCode(code) && 1 <= distance <= 32768 && Used(code, Slot(distance - 1, 1))
    ensures MatchDistance(code, (Code(code, Slot(distance - 1, 1))
                                 + LsbBits(Offset(distance - 1, 1), Width(distance - 1, 1))) + rest)
         == Some((distance, rest))
  {
    hide Slot, Offset, Width, SlotStart, SlotWidth, Field, LsbBits, Decode, Code, IsPrefixCode;
    var k, x := Slot(distance - 1, 1), LsbBits(Offset(distance - 1, 1), Width(distance - 1, 1));
    DistanceSlotBound(distance);
    DistanceTable(k);
    SlotOf(distance - 1, 1);
    assert (Code(code, k) + x) + rest == Code(code, k) + (x + rest);
    DecodeCode(code, k, x + rest);
    FieldOf(Offset(distance - 1, 1), Width(distance - 1, 1), rest);
  }

  lemma ItemRead(codes: Codes, x: Item, out: seq<Octet>, rest: Bitstring)
    requires IsPrefixCode(codes.literal) && IsPrefixCode(codes.distance)
    requires ItemOk(x) && Encodable(codes, x) && One(out, x)
    ensures CompressedBlock(codes, EncodeItem(codes, x) + rest, out) == CompressedBlock(codes, rest, Expanded(out, x))
  {
    hide Slot, Offset, Width, Field, LsbBits, Decode, Code, IsPrefixCode, LengthSlot, LengthBits;
    hide MatchLength, MatchDistance, Copy, Repeated;
    match x {
      case Literal(b) =>
        DecodeCode(codes.literal, b, rest);
      case Repeat(l, d, full) =>
        var e := Code(codes.distance, Slot(d - 1, 1)) + LsbBits(Offset(d - 1, 1), Width(d - 1, 1));
        var symbol, bits := 257 + LengthSlot(l, full), LengthBits(l, full) + (e + rest);
        assert EncodeItem(codes, x) + rest == Code(codes.literal, symbol) + bits;
        LengthRead(l, full, e + rest);
        DistanceRead(codes.distance, d, rest);
        DecodeCode(codes.literal, symbol, bits);
        RepeatedIsCopy(out, d, l);
        assert Match(codes, bits, symbol, out) == Some((Repeated(out, d, l), rest));
    }
  }

  /** A block's items, followed by anything: the decoder goes on from there with the bytes they mean. */
  lemma {:induction false} ItemsRead(codes: Codes, items: seq<Item>, out: seq<Octet>, rest: Bitstring)
    requires IsPrefixCode(codes.literal) && IsPrefixCode(codes.distance)
    requires AllEncodable(codes, items) && Grounded(out, items)
    ensures CompressedBlock(codes, EncodeItems(codes, items) + rest, out)
         == CompressedBlock(codes, rest, Expand(out, items))
    decreases |items|
  {
    hide CompressedBlock, EncodeItem, Expanded, Encodable, ItemOk, One, IsPrefixCode;
    if items == [] {
      assert EncodeItems(codes, items) + rest == rest;
    } else {
      var more := EncodeItems(codes, items[1..]) + rest;
      assert items[0] in items;
      assert EncodeItems(codes, items) + rest == EncodeItem(codes, items[0]) + more;
      ItemRead(codes, items[0], out, more);
      ItemsRead(codes, items[1..], Expanded(out, items[0]), rest);
    }
  }
}
