/** The converse of the round trip: every stream with a meaning is one that the encoder writes, so that a
    stream means something exactly when it is made of well-formed blocks, and then what they say. */
module DeflateWritten {
  import opened Prelude
  import opened Arith
  import opened Bits
  import opened HuffmanCodes
  import opened Deflate
  import opened DeflateEncoder
  import opened DeflateRoundTrip

  // ---- fields and codes ------------------------------------------------------------------------

  lemma {:induction false} BitsOfValue(bs: Bitstring)
    ensures LsbBits(LsbValue(bs), |bs|) == bs
  {
    if bs != [] {
      BitsOfValue(bs[1..]);
      var v := LsbValue(bs[1..]);
      assert LsbValue(bs) % 2 == Bit(bs[0]) && LsbValue(bs) / 2 == v;
      assert bs == [bs[0]] + bs[1..];
    }
  }

  lemma FieldWas(bits: Bitstring, n: nat)
    requires Field(bits, n).Some?
    ensures var (v, rest) := Field(bits, n).value; v < Pow2(n) && bits == LsbBits(v, n) + rest
  {
    BitsOfValue(bits[..n]);
    LsbValueBound(bits[..n]);
  }

  lemma CodeWas(code: seq<nat>, bits: Bitstring)
    requires Decode(code, bits).Some?
    ensures var (s, rest) := Decode(code, bits).value; Used(code, s) && bits == Code(code, s) + rest
  {
    var s: nat :| IsNext(code, bits, s) && Decode(code, bits) == Some((s, bits[code[s]..]));
    assert bits == bits[..code[s]] + bits[code[s]..];
  }

  // ---- slots -------------------------------------------------------------------------------------

  lemma LogIs(m: nat, n: nat)
    requires Pow2(n) <= m < 2 * Pow2(n)
    ensures m >= 1 && Log(m) == n
  {
    hide Log;
    if Log(m) < n { Monotone(Log(m) + 1, n); }
    if Log(m) > n { Monotone(n + 1, Log(m)); }
  }

  /** Slot `k` and an offset in it determine their number. */
  lemma NumberOf(k: nat, v: nat, g: nat)
    requires v < Pow2(SlotWidth(k, g))
    ensures var m := SlotStart(k, g) + v; Width(m, g) == SlotWidth(k, g) && Slot(m, g) == k && Offset(m, g) == v
  {
    hide Pow2;
    var m, p := SlotStart(k, g) + v, Pow2(g);
    if k < 2 * p {
      NarrowNumber(k, v, g);
    } else {
      var e := SlotWidth(k, g);
      MulMono(2, k / p, p);
      TwoOrMore(k, p);
      WideNumber(k, e, p, Pow2(e), v);
      Pow2Add(e, g);
      LogIs(m, e + g);
    }
  }

  lemma NarrowNumber(k: nat, v: nat, g: nat)
    requires k < 2 * Pow2(g) && v < Pow2(SlotWidth(k, g))
    ensures v == 0 && Width(k, g) == 0 && Slot(k, g) == k && Offset(k, g) == 0
  {
    hide Log;
    assert Pow2(0) == 1;
    if k >= 1 && Log(k) > g { Monotone(g + 1, Log(k)); }
  }

  lemma TwoOrMore(k: nat, p: nat)
    requires p >= 1 && k >= 2 * p
    ensures k / p >= 2
  {
    DivAtLeast(k, p, 2);
  }

  lemma WideNumber(k: nat, e: nat, p: nat, w: nat, v: nat)
    requires p >= 1 && w >= 1 && v < w && k / p == e + 1 && e >= 1
    ensures var m := (p + k % p) * w + v; w * p <= m < 2 * (w * p) && e * p + m / w == k && m % w == v
  {
    var q := p + k % p;
    DivModUnique(q * w + v, w, q, v);
    assert k == (e + 1) * p + k % p == e * p + q;
    MulMono(p, q, w);
    MulMono(q + 1, 2 * p, w);
    MulSucc(q, w);
    assert p * w == w * p && 2 * p * w == 2 * (w * p);
  }

  // ---- items -------------------------------------------------------------------------------------------

  lemma LengthWas(bits: Bitstring, symbol: nat) returns (length: nat, full: bool)
    requires 257 <= symbol <= 285 && MatchLength(bits, symbol).Some?
    ensures 3 <= length <= 258 && (full ==> length == 258) && symbol == 257 + LengthSlot(length, full)
    ensures var (l, rest) := MatchLength(bits, symbol).value; l == length && bits == LengthBits(length, full) + rest
  {
    hide Field, LsbBits, Slot, Offset, Width, SlotStart, SlotWidth, Pow2;
    var k := symbol - 257;
    LengthTable(k);
    FieldWas(bits, LENGTH_EXTRA[k]);
    var (v, rest) := Field(bits, LENGTH_EXTRA[k]).value;
    full := k == 28;
    if full {
      NoField(bits);
      length := 258;
      assert [] + rest == rest;
    } else {
      NumberOf(k, v, 2);
      length := 3 + SlotStart(k, 2) + v;
      LengthTop(k, v);
    }
  }

  lemma LengthTop(k: nat, v: nat)
    requires k < 28 && v < Pow2(SlotWidth(k, 2))
    ensures SlotStart(k, 2) + v <= 255
  {
    hide Pow2;
    PowersTo13();
    if k < 8 {
      assert SlotWidth(k, 2) == 0;
    } else {
      var j, r := k / 4, k % 4;
      StartOfFour(k, j, r);
      assert SlotWidth(k, 2) == j - 1;
      var w := Pow2(j - 1);
      assert w <= 32 && (4 + r) * w <= 7 * w;
    }
  }

  lemma DistanceWas(code: seq<nat>, bits: Bitstring) returns (distance: nat)
    requires MatchDistance(code, bits).Some?
    ensures 1 <= distance <= 32768 && Used(code, Slot(distance - 1, 1))
    ensures var (d, rest) := MatchDistance(code, bits).value;
            d == distance
            && bits == (Code(code, Slot(distance - 1, 1))
                        + LsbBits(Offset(distance - 1, 1), Width(distance - 1, 1))) + rest
  {
    hide Field, LsbBits, Slot, Offset, Width, SlotStart, SlotWidth, Pow2, Decode, Code;
    CodeWas(code, bits);
    var (k, b1) := Decode(code, bits).value;
    DistanceTable(k);
    FieldWas(b1, DISTANCE_EXTRA[k]);
    var (v, rest) := Field(b1, DISTANCE_EXTRA[k]).value;
    NumberOf(k, v, 1);
    distance := 1 + SlotStart(k, 1) + v;
    DistanceTop(k, v);
    var c, e := Code(code, k), LsbBits(v, DISTANCE_EXTRA[k]);
    assert c + (e + rest) == (c + e) + rest;
  }

  lemma DistanceTop(k: nat, v: nat)
    requires k < 30 && v < Pow2(SlotWidth(k, 1))
    ensures SlotStart(k, 1) + v < 32768
  {
    hide Pow2;
    PowersTo13();
    if k < 4 {
      assert SlotWidth(k, 1) == 0;
    } else {
      var j, r := k / 2, k % 2;
      StartOfTwo(k, j, r);
      assert SlotWidth(k, 1) == j - 1;
      Monotone(j - 1, 13);
      var w := Pow2(j - 1);
      assert (2 + r) * w <= 3 * w;
    }
  }

  lemma MatchWas(codes: Codes, bits: Bitstring, symbol: nat, out: seq<Octet>) returns (x: Item)
    requires 257 <= symbol <= 285 && Used(codes.literal, symbol) && Match(codes, bits, symbol, out).Some?
    ensures x.Repeat? && ItemOk(x) && Encodable(codes, x) && One(out, x)
    ensures var (o, rest) := Match(codes, bits, symbol, out).value;
            o == Expanded(out, x) && Code(codes.literal, symbol) + bits == EncodeItem(codes, x) + rest
  {
    hide MatchLength, MatchDistance, LsbBits, Slot, Offset, Width, Code, Used, LengthBits, LengthSlot;
    var length, full := LengthWas(bits, symbol);
    var b1 := MatchLength(bits, symbol).value.1;
    var distance := DistanceWas(codes.distance, b1);
    var rest := MatchDistance(codes.distance, b1).value.1;
    x := Repeat(length, distance, full);
    RepeatedIsCopy(out, distance, length);
    var d := Code(codes.distance, Slot(distance - 1, 1)) + LsbBits(Offset(distance - 1, 1), Width(distance - 1, 1));
    Grouped(Code(codes.literal, symbol), LengthBits(length, full), d, rest);
  }

  lemma Grouped(a: Bitstring, b: Bitstring, c: Bitstring, d: Bitstring)
    ensures a + (b + (c + d)) == (a + (b + c)) + d
  {
  }

  /** The symbols of a block are the codes of items and of the end of the block. */
  lemma {:induction false} ItemsWritten(codes: Codes, bits: Bitstring, out: seq<Octet>) returns (items: seq<Item>)
    requires CompressedBlock(codes, bits, out).Some?
    ensures Expressible(codes, items) && Grounded(out, items)
    ensures var (o, rest) := CompressedBlock(codes, bits, out).value;
            o == Expand(out, items) && bits == ItemsAndEnd(codes, items) + rest
    decreases |bits|
  {
    hide Decode, Match, Code, Used, EncodeItem, Encodable, ItemOk, One, Expanded, Repeated;
    CodeWas(codes.literal, bits);
    var (symbol, rest) := Decode(codes.literal, bits).value;
    if symbol == 256 {
      items := [];
      assert EncodeItems(codes, items) + Code(codes.literal, 256) == Code(codes.literal, 256);
    } else if symbol < 256 {
      var x := Literal(symbol);
      LiteralWas(codes, symbol, out);
      var more := ItemsWritten(codes, rest, out + [symbol]);
      items := ItemAdded(codes, x, more, out, bits, rest);
    } else {
      var x := MatchWas(codes, rest, symbol, out);
      var (out', rest') := Match(codes, rest, symbol, out).value;
      var more := ItemsWritten(codes, rest', out');
      items := ItemAdded(codes, x, more, out, bits, rest');
    }
  }

  lemma LiteralWas(codes: Codes, b: Octet, out: seq<Octet>)
    requires Used(codes.literal, b)
    ensures ItemOk(Literal(b)) && Encodable(codes, Literal(b)) && One(out, Literal(b))
    ensures EncodeItem(codes, Literal(b)) == Code(codes.literal, b) && Expanded(out, Literal(b)) == out + [b]
  {
  }

  lemma ItemAdded(codes: Codes, x: Item, more: seq<Item>, out: seq<Octet>, bits: Bitstring, rest: Bitstring)
    returns (items: seq<Item>)
    requires ItemOk(x) && Encodable(codes, x) && One(out, x)
    requires Expressible(codes, more) && Grounded(Expanded(out, x), more)
    requires bits == EncodeItem(codes, x) + rest && |rest| >= |ItemsAndEnd(codes, more)|
    requires rest[..|ItemsAndEnd(codes, more)|] == ItemsAndEnd(codes, more)
    ensures Expressible(codes, items) && Grounded(out, items)
    ensures Expand(out, items) == Expand(Expanded(out, x), more)
    ensures bits == ItemsAndEnd(codes, items) + rest[|ItemsAndEnd(codes, more)|..]
  {
    hide Encodable, ItemOk, EncodeItem, One, Expanded, Code, Used;
    items := [x] + more;
    assert items[1..] == more;
    var e, m, end := EncodeItem(codes, x), EncodeItems(codes, more), Code(codes.literal, 256);
    var tail := rest[|m + end|..];
    assert rest == (m + end) + tail;
    Grouped(e, m, end, tail);
    assert e + ((m + end) + tail) == ((e + m) + end) + tail;
  }

  // ---- the header of a dynamic block ---------------------------------------------------------------

  lemma RunWas(code: seq<nat>, bits: Bitstring, acc: seq<nat>, total: nat) returns (r: Run, rest: Bitstring)
    requires |acc| < total && CodedLengths(code, bits, acc, total).Some?
    ensures RunOk(r) && (r.Again? ==> acc != []) && Used(code, RunSymbol(r)) && |Ran(acc, r)| <= total
    ensures bits == Code(code, RunSymbol(r)) + (RunBits(r) + rest) && |rest| < |bits|
    ensures CodedLengths(code, bits, acc, total) == CodedLengths(code, rest, Ran(acc, r), total)
  {
    hide Decode, Field, LsbBits, Code, Used;
    CodeWas(code, bits);
    PowersTo13();
    var (symbol, b) := Decode(code, bits).value;
    if symbol <= 15 {
      r, rest := Single(symbol), b;
      assert [] + rest == rest;
    } else {
      var width := if symbol == 16 then 2 else if symbol == 17 then 3 else 7;
      assert symbol <= 18 && Field(b, width).Some?;
      FieldWas(b, width);
      var (v, rest') := Field(b, width).value;
      rest := rest';
      if symbol == 16 {
        r := Again(v + 3);
        RunAgain(code, bits, b, rest, acc, v + 3, total);
      } else {
        r := Zeros(if symbol == 17 then v + 3 else v + 11);
        RunZeros(code, bits, b, rest, acc, r.times, total);
      }
    }
  }

  lemma {:induction false} RunsWritten(code: seq<nat>, bits: Bitstring, acc: seq<nat>, total: nat)
    returns (runs: seq<Run>)
    requires |acc| <= total && CodedLengths(code, bits, acc, total).Some?
    ensures RunsOk(code, acc, runs)
    ensures var (lengths, rest) := CodedLengths(code, bits, acc, total).value;
            lengths == Listed(code, acc, runs) && bits == EncodeRuns(code, acc, runs) + rest
    decreases |bits|
  {
    hide CodedLengths, Code, RunBits, Ran, Used, RunSymbol;
    if |acc| == total {
      ListDone(code, acc, bits);
      runs := [];
      assert [] + bits == bits;
    } else {
      var r, b := RunWas(code, bits, acc, total);
      var more := RunsWritten(code, b, Ran(acc, r), total);
      runs := [r] + more;
      assert runs[1..] == more;
      var rest := CodedLengths(code, bits, acc, total).value.1;
      var c, e := Code(code, RunSymbol(r)), EncodeRuns(code, Ran(acc, r), more);
      Grouped(c, RunBits(r), e, rest);
    }
  }

  lemma {:induction false} FieldsWritten(bits: Bitstring, n: nat)
    requires ThreeBitFields(bits, n).Some?
    ensures var (fields, rest) := ThreeBitFields(bits, n).value;
            (forall i | 0 <= i < n :: fields[i] < 8) && bits == EncodeFields(fields) + rest
  {
    hide Field, LsbBits;
    if n == 0 {
      assert [] + bits == bits;
    } else {
      FieldsWritten(bits, n - 1);
      var (before, b) := ThreeBitFields(bits, n - 1).value;
      FieldWas(b, 3);
      PowersTo13();
      var (v, rest) := Field(b, 3).value;
      assert (before + [v])[..n - 1] == before;
      assert EncodeFields(before) + (LsbBits(v, 3) + rest) == (EncodeFields(before) + LsbBits(v, 3)) + rest;
    }
  }

  /** Each length sent lands in its place. */
  lemma {:induction false} CodeAt(fields: seq<nat>, j: nat)
    requires |fields| <= 19 && j < 19
    ensures CodeLengthCode(fields)[j] == if Place(j) < |fields| then fields[Place(j)] else 0
    decreases |fields|
  {
    hide Place, Order;
    if fields != [] {
      var n := |fields| - 1;
      CodeAt(fields[..n], j);
      OrderTable(n);
      OrderOf(n);
      PlaceOf(j);
      CodeLengthCodeStep(fields[..n], fields[n]);
      assert fields[..n] + [fields[n]] == fields;
    }
  }

  lemma {:induction false} SentBack(fields: seq<nat>, k: nat)
    requires k <= |fields| <= 19
    ensures Sent(CodeLengthCode(fields), k) == fields[..k]
  {
    hide Place, Order, CodeLengthCode;
    if k > 0 {
      SentBack(fields, k - 1);
      OrderOf(k - 1);
      CodeAt(fields, Order(k - 1));
      assert fields[..k] == fields[..k - 1] + [fields[k - 1]];
    }
  }

  lemma LengthsCodeWas(bits: Bitstring, n: nat)
    requires n <= 19 && LengthsCode(bits, n).Some?
    ensures var (code, rest) := LengthsCode(bits, n).value;
            && |code| == 19 && Enough(code, n) && Accepted(code) && (forall j | 0 <= j < 19 :: code[j] < 8)
            && bits == EncodeFields(Sent(code, n)) + rest
  {
    hide Accepted, ThreeBitFields, EncodeFields, CodeLengthCode, Place, Sent;
    FieldsWritten(bits, n);
    var (fields, rest) := ThreeBitFields(bits, n).value;
    SentBack(fields, n);
    assert fields[..n] == fields;
    forall j | 0 <= j < 19
      ensures CodeLengthCode(fields)[j] == if Place(j) < n then fields[Place(j)] else 0
    {
      CodeAt(fields, j);
    }
  }

  lemma CountsWere(bits: Bitstring)
    requires DynamicHeader(bits).Some?
    ensures var (a, b, c, rest) := DynamicHeader(bits).value;
            && 257 <= a <= 286 && 1 <= b <= 32 && 4 <= c <= 19
            && bits == LsbBits(a - 257, 5) + (LsbBits(b - 1, 5) + (LsbBits(c - 4, 4) + rest))
  {
    hide Field, LsbBits;
    FieldWas(bits, 5);
    var b1 := Field(bits, 5).value.1;
    FieldWas(b1, 5);
    FieldWas(Field(b1, 5).value.1, 4);
  }

  lemma HeaderWritten(bits: Bitstring) returns (h: Header)
    requires DynamicLengths(bits).Some?
    ensures HeaderOk(h)
    ensures var (literals, lengths, rest) := DynamicLengths(bits).value;
            h.literals == literals && LengthsOf(h) == lengths && bits == EncodeHeader(h) + rest
  {
    hide DynamicHeader, LengthsCode, CodedLengths, Accepted, Enough, RunsOk, Listed;
    hide EncodeRuns, EncodeFields, Sent, LsbBits;
    CountsWere(bits);
    var (literals, distances, sent, b1) := DynamicHeader(bits).value;
    LengthsCodeWas(b1, sent);
    var (code, b2) := LengthsCode(b1, sent).value;
    var runs := RunsWritten(code, b2, [], literals + distances);
    h := Header(code, sent, runs, literals);
    var rest := CodedLengths(code, b2, [], literals + distances).value.1;
    var x, y, z := LsbBits(literals - 257, 5), LsbBits(distances - 1, 5), LsbBits(sent - 4, 4);
    var f, r := EncodeFields(Sent(code, sent)), EncodeRuns(code, [], runs);
    assert x + (y + (z + (f + (r + rest)))) == (x + (y + (z + (f + r)))) + rest;
  }

  // ---- blocks --------------------------------------------------------------------------------------

  lemma {:induction false} BytesWere(bits: Bitstring, out: seq<Octet>, n: nat) returns (bytes: seq<Octet>)
    requires StoredBytes(bits, out, n).Some?
    ensures |bytes| == n
    ensures var (o, rest) := StoredBytes(bits, out, n).value; o == out + bytes && bits == BytesToBits(bytes) + rest
  {
    hide Field, LsbBits, BytesToBits;
    if n == 0 {
      bytes := [];
      NoBytes(bits);
    } else {
      var before := BytesWere(bits, out, n - 1);
      var b := StoredBytes(bits, out, n - 1).value.1;
      FieldWas(b, 8);
      PowersTo13();
      var (v, rest) := Field(b, 8).value;
      bytes := before + [v];
      BytesToBitsConcat(before, [v]);
      FirstByte([v]);
      NoBytes([]);
      assert LsbBits(v, 8) + [] == LsbBits(v, 8);
      assert BytesToBits(before) + (LsbBits(v, 8) + rest) == (BytesToBits(before) + LsbBits(v, 8)) + rest;
    }
  }

  lemma StoredWritten(bits: Bitstring, out: seq<Octet>) returns (bytes: seq<Octet>)
    requires StoredBlock(bits, out).Some?
    ensures |bytes| < 65536
    ensures var (o, rest) := StoredBlock(bits, out).value;
            && o == out + bytes && |rest| % 8 == 0
            && bits == StoredBits(bits[..|bits| % 8], bytes) + rest
  {
    hide Field, LsbBits, BytesToBits, StoredBytes;
    var cut := |bits| % 8;
    var b0 := bits[cut..];
    FieldWas(b0, 16);
    TwoToThe16();
    var (len, b1) := Field(b0, 16).value;
    FieldWas(b1, 16);
    var b2 := Field(b1, 16).value.1;
    bytes := BytesWere(b2, out, len);
    var rest := StoredBytes(b2, out, len).value.1;
    var x, y, d := LsbBits(len, 16), LsbBits(65535 - len, 16), BytesToBits(bytes);
    assert bits == bits[..cut] + b0;
    assert bits[..cut] + (x + (y + (d + rest))) == (bits[..cut] + (x + (y + d))) + rest;
    WholeBytes(|bits|, cut, len, |rest|);
  }

  lemma WholeBytes(total: nat, cut: nat, n: nat, rest: nat)
    requires total % 8 == cut && total == cut + 16 + 16 + 8 * n + rest
    ensures rest % 8 == 0
  {
  }

  lemma BlockWritten(kind: nat, bits: Bitstring, out: seq<Octet>, rfc: bool) returns (b: DeflateRoundTrip.Block)
    requires Deflate.Block(kind, bits, out, rfc).Some?
    ensures BlockOk(b, out, rfc) && Kind(b) == kind
    ensures var (o, rest) := Deflate.Block(kind, bits, out, rfc).value;
            && o == Meant(b, out, rfc) && bits == BlockBits(b, out, rfc) + rest
            && (b.Stored? ==> |rest| % 8 == 0)
  {
    hide StoredBlock, CompressedBlock, DynamicCodes, Grounded, Expand, AllEncodable;
    hide FixedCodes, StoredBits, ItemsAndEnd;
    if kind == 0 {
      var bytes := StoredWritten(bits, out);
      b := Stored(bits[..|bits| % 8], bytes);
    } else if kind == 1 {
      var items := ItemsWritten(FixedCodes(), bits, out);
      ItemsAreOk(FixedCodes(), items);
      b := Fixed(items);
    } else {
      var h, items := DynamicWritten(bits, out, rfc);
      b := Dynamic(h, items);
    }
  }

  lemma ItemsAreOk(codes: Codes, items: seq<Item>)
    requires AllEncodable(codes, items)
    ensures forall x <- items :: ItemOk(x)
  {
  }

  lemma DynamicWritten(bits: Bitstring, out: seq<Octet>, rfc: bool) returns (h: Header, items: seq<Item>)
    requires Deflate.Block(2, bits, out, rfc).Some?
    ensures BlockOk(Dynamic(h, items), out, rfc)
    ensures var (o, rest) := Deflate.Block(2, bits, out, rfc).value;
            o == Expand(out, items) && bits == BlockBits(Dynamic(h, items), out, rfc) + rest
  {
    hide CompressedBlock, Grounded, Expand, AllEncodable, HeaderOk, EncodeHeader, ItemsAndEnd, LengthsOf;
    hide DynamicLengths, Accepted, DistanceCodeOk;
    h := HeaderWritten(bits);
    HeaderIs(h);
    var (codes, b) := DynamicCodes(bits, rfc).value;
    assert codes == CodesOf(h);
    items := ItemsWritten(codes, b, out);
    var rest := CompressedBlock(codes, b, out).value.1;
    assert EncodeHeader(h) + (ItemsAndEnd(codes, items) + rest) == (EncodeHeader(h) + ItemsAndEnd(codes, items)) + rest;
  }

  // ---- streams -------------------------------------------------------------------------------------

  ghost predicate Written(blocks: seq<DeflateRoundTrip.Block>, bits: Bitstring, out: seq<Octet>, rfc: bool,
                          o: seq<Octet>, rest: Bitstring)
  {
    && StreamOk(blocks, out, rfc) && Aligned(blocks, out, rfc, rest)
    && StreamBits(blocks, out, rfc, rest) == bits && StreamMeans(blocks, out, rfc) == o
  }

  lemma {:induction false} StreamWritten(bits: Bitstring, out: seq<Octet>, rfc: bool)
    returns (blocks: seq<DeflateRoundTrip.Block>)
    requires Stream(bits, out, rfc).Some?
    ensures var (o, rest) := Stream(bits, out, rfc).value; Written(blocks, bits, out, rfc, o, rest)
    decreases |bits|
  {
    hide Deflate.Block, BlockOk, BlockBits, Meant, LsbBits, Field, Kind;
    FieldWas(bits, 1);
    var (final, b1) := Field(bits, 1).value;
    FieldWas(b1, 2);
    PowersTo13();
    var (kind, b2) := Field(b1, 2).value;
    var b := BlockWritten(kind, b2, out, rfc);
    var (out', b3) := Deflate.Block(kind, b2, out, rfc).value;
    if final != 0 {
      blocks := [b];
      LastBlock(b, out, rfc, b3);
    } else {
      var more := StreamWritten(b3, out', rfc);
      blocks := [b] + more;
      FirstBlock(b, more, out, rfc, Stream(b3, out', rfc).value.1);
    }
  }

  lemma LastBlock(b: DeflateRoundTrip.Block, out: seq<Octet>, rfc: bool, rest: Bitstring)
    requires BlockOk(b, out, rfc) && (b.Stored? ==> |rest| % 8 == 0)
    ensures Written([b], LsbBits(1, 1) + (LsbBits(Kind(b), 2) + (BlockBits(b, out, rfc) + rest)), out, rfc,
                    Meant(b, out, rfc), rest)
  {
    hide BlockOk, BlockBits, Meant, LsbBits, Kind;
    var blocks := [b];
    assert StreamOk(blocks, out, rfc);
    assert After(blocks, out, rfc, rest) == rest;
  }

  lemma FirstBlock(b: DeflateRoundTrip.Block, more: seq<DeflateRoundTrip.Block>, out: seq<Octet>, rfc: bool,
                   rest: Bitstring)
    requires BlockOk(b, out, rfc)
    requires StreamOk(more, Meant(b, out, rfc), rfc) && Aligned(more, Meant(b, out, rfc), rfc, rest)
    requires b.Stored? ==> |StreamBits(more, Meant(b, out, rfc), rfc, rest)| % 8 == 0
    ensures var after := StreamBits(more, Meant(b, out, rfc), rfc, rest);
            Written([b] + more, LsbBits(0, 1) + (LsbBits(Kind(b), 2) + (BlockBits(b, out, rfc) + after)), out, rfc,
                    StreamMeans(more, Meant(b, out, rfc), rfc), rest)
  {
    hide BlockOk, BlockBits, Meant, LsbBits, Kind;
    var blocks, out' := [b] + more, Meant(b, out, rfc);
    assert blocks[1..] == more && blocks[0] == b && |blocks| > 1;
    assert StreamOk(blocks, out, rfc);
    assert After(blocks, out, rfc, rest) == StreamBits(more, out', rfc, rest);
    assert StreamMeans(blocks, out, rfc) == StreamMeans(more, out', rfc);
  }

  /** A stream means `o` exactly when it is made of well-formed blocks that say so. */
  lemma StreamMeansExactly(bits: Bitstring, out: seq<Octet>, rfc: bool, o: seq<Octet>, rest: Bitstring)
    ensures Stream(bits, out, rfc) == Some((o, rest)) <==> exists blocks :: Written(blocks, bits, out, rfc, o, rest)
  {
    hide Stream, StreamOk, Aligned, StreamBits, StreamMeans;
    if Stream(bits, out, rfc) == Some((o, rest)) {
      var blocks := StreamWritten(bits, out, rfc);
    }
    forall blocks | Written(blocks, bits, out, rfc, o, rest) ensures Stream(bits, out, rfc) == Some((o, rest)) {
      StreamRead(blocks, out, rfc, rest);
    }
  }
}
