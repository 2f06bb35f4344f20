/** Whole streams written by the encoder, of stored, fixed and dynamic blocks, decode to what they mean. */
module DeflateRoundTrip {
  import opened Prelude
  import opened Arith
  import opened Bits
  import opened HuffmanCodes
  import opened Deflate
  import opened DeflateEncoder
  import opened Inflate

  // ---- the fixed codes of section 3.2.6 ----------------------------------------------------------

  function FixedLiteralCode(s: nat): Bitstring
    requires s < 288
  {
    if s < 144 then MsbBits(0x30 + s, 8)
    else if s < 256 then MsbBits(0x190 + (s - 144), 9)
    else if s < 280 then MsbBits(s - 256, 7)
    else MsbBits(0xC0 + (s - 280), 8)
  }

  lemma FixedLiteralIs(s: nat)
    requires s < 288
    ensures Used(FixedCodes().literal, s) && Code(FixedCodes().literal, s) == FixedLiteralCode(s)
  {
    hide MsbBits, FirstCode, CountBelow;
    FixedRank(s);
    FixedLiteralFirst(FixedCodes().literal[s]);
  }

  lemma FixedRank(s: nat)
    requires s < 288
    ensures var l := FixedCodes().literal;
            CountBelow(l, s, l[s])
            == if s < 144 then s else if s < 256 then s - 144 else if s < 280 then s - 256 else 144 + (s - 280)
  {
    var l := FixedCodes().literal;
    var len := l[s];
    CountRun(l, 0, if s < 144 then s else 144, 8, len);
    if s > 144 { CountRun(l, 144, if s < 256 then s else 256, 9, len); }
    if s > 256 { CountRun(l, 256, if s < 280 then s else 280, 7, len); }
    if s > 280 { CountRun(l, 280, s, 8, len); }
  }

  lemma FixedDistanceIs(d: nat)
    requires d < 32
    ensures Used(FixedCodes().distance, d) && Code(FixedCodes().distance, d) == MsbBits(d, 5)
  {
    hide MsbBits, FirstCode;
    CountRun(FixedCodes().distance, 0, d, 5, 5);
    FixedDistanceFirst(5);
  }

  // ---- the list of code lengths --------------------------------------------------------------------

  /** A code length, the last one again, or zeros. */
  datatype Run = Single(length: nat) | Again(times: nat) | Zeros(times: nat)

  predicate RunOk(r: Run) {
    match r
    case Single(n) => n <= 15
    case Again(t) => 3 <= t <= 6
    case Zeros(t) => 3 <= t <= 138
  }

  /** The symbol of a run. */
  function RunSymbol(r: Run): nat {
    match r
    case Single(n) => n
    case Again(_) => 16
    case Zeros(t) => if t <= 10 then 17 else 18
  }

  function RunBits(r: Run): Bitstring
    requires RunOk(r)
  {
    match r
    case Single(_) => []
    case Again(t) => LsbBits(t - 3, 2)
    case Zeros(t) => if t <= 10 then LsbBits(t - 3, 3) else LsbBits(t - 11, 7)
  }

  function Constant(v: nat, n: nat): (s: seq<nat>)
    ensures |s| == n
  {
    seq(n, i => v)
  }

  /** The list after one more run. */
  function Ran(acc: seq<nat>, r: Run): (s: seq<nat>)
    requires RunOk(r) && (r.Again? ==> acc != [])
    ensures |s| > |acc|
  {
    match r
    case Single(n) => acc + [n]
    case Again(t) => acc + Constant(acc[|acc| - 1], t)
    case Zeros(t) => acc + Constant(0, t)
  }

  predicate RunsOk(code: seq<nat>, acc: seq<nat>, runs: seq<Run>)
    decreases |runs|
  {
    runs == []
    || (&& RunOk(runs[0]) && (runs[0].Again? ==> acc != []) && Used(code, RunSymbol(runs[0]))
        && RunsOk(code, Ran(acc, runs[0]), runs[1..]))
  }

  function Listed(code: seq<nat>, acc: seq<nat>, runs: seq<Run>): (s: seq<nat>)
    requires RunsOk(code, acc, runs)
    ensures |s| >= |acc| + |runs|
    decreases |runs|
  {
    if runs == [] then acc else Listed(code, Ran(acc, runs[0]), runs[1..])
  }

  function EncodeRuns(code: seq<nat>, acc: seq<nat>, runs: seq<Run>): Bitstring
    requires RunsOk(code, acc, runs)
    decreases |runs|
  {
    if runs == [] then []
    else Code(code, RunSymbol(runs[0])) + (RunBits(runs[0]) + EncodeRuns(code, Ran(acc, runs[0]), runs[1..]))
  }

  lemma RunRead(code: seq<nat>, acc: seq<nat>, r: Run, rest: Bitstring, total: nat)
    requires IsPrefixCode(code) && RunOk(r) && (r.Again? ==> acc != []) && Used(code, RunSymbol(r))
    requires |Ran(acc, r)| <= total
    ensures CodedLengths(code, Code(code, RunSymbol(r)) + (RunBits(r) + rest), acc, total)
         == CodedLengths(code, rest, Ran(acc, r), total)
  {
    hide Decode, Field, LsbBits, Code, IsPrefixCode;
    DecodeCode(code, RunSymbol(r), RunBits(r) + rest);
    PowersTo13();
    match r {
      case Single(n) =>
        assert [] + rest == rest;
      case Again(t) =>
        FieldOf(t - 3, 2, rest);
        RunAgain(code, Code(code, RunSymbol(r)) + (RunBits(r) + rest), RunBits(r) + rest, rest, acc, t, total);
      case Zeros(t) =>
        FieldOf(if t <= 10 then t - 3 else t - 11, if t <= 10 then 3 else 7, rest);
        RunZeros(code, Code(code, RunSymbol(r)) + (RunBits(r) + rest), RunBits(r) + rest, rest, acc, t, total);
    }
  }

  lemma RunAgain(code: seq<nat>, bits: Bitstring, b: Bitstring, rest: Bitstring, acc: seq<nat>, t: nat, total: nat)
    requires 3 <= t && acc != [] && |acc| + t <= total
    requires Decode(code, bits) == Some((16, b)) && Field(b, 2) == Some((t - 3, rest))
    ensures CodedLengths(code, bits, acc, total)
         == CodedLengths(code, rest, acc + Constant(acc[|acc| - 1], t), total)
  {
    hide Decode, Field;
    assert Constant(acc[|acc| - 1], t) == Deflate.Repeat(acc[|acc| - 1], t);
    assert CodedLengths(code, bits, acc, total) == AfterRun(code, rest, acc, acc[|acc| - 1], t, total);
  }

  lemma RunZeros(code: seq<nat>, bits: Bitstring, b: Bitstring, rest: Bitstring, acc: seq<nat>, t: nat, total: nat)
    requires 3 <= t && |acc| + t <= total
    requires if t <= 10 then Decode(code, bits) == Some((17, b)) && Field(b, 3) == Some((t - 3, rest))
             else Decode(code, bits) == Some((18, b)) && Field(b, 7) == Some((t - 11, rest))
    ensures CodedLengths(code, bits, acc, total) == CodedLengths(code, rest, acc + Constant(0, t), total)
  {
    hide Decode, Field;
    assert Constant(0, t) == Deflate.Repeat(0, t);
    assert CodedLengths(code, bits, acc, total) == AfterRun(code, rest, acc, 0, t, total);
  }

  /** The run-length list reads back as the lengths it stands for. */
  lemma {:induction false} RunsRead(code: seq<nat>, acc: seq<nat>, runs: seq<Run>, rest: Bitstring)
    requires IsPrefixCode(code) && RunsOk(code, acc, runs)
    ensures CodedLengths(code, EncodeRuns(code, acc, runs) + rest, acc, |Listed(code, acc, runs)|)
         == Some((Listed(code, acc, runs), rest))
    decreases |runs|
  {
    hide Code, IsPrefixCode, RunBits, Ran, CodedLengths, Used;
    var total := |Listed(code, acc, runs)|;
    if runs == [] {
      assert EncodeRuns(code, acc, runs) + rest == rest;
      ListDone(code, acc, rest);
    } else {
      var acc', r := Ran(acc, runs[0]), runs[0];
      var more := EncodeRuns(code, acc', runs[1..]) + rest;
      assert EncodeRuns(code, acc, runs) + rest == Code(code, RunSymbol(r)) + (RunBits(r) + more);
      RunRead(code, acc, r, more, total);
      RunsRead(code, acc', runs[1..], rest);
    }
  }

  lemma ListDone(code: seq<nat>, acc: seq<nat>, rest: Bitstring)
    ensures CodedLengths(code, rest, acc, |acc|) == Some((acc, rest))
  {
  }

  // ---- the lengths of the code-length code ---------------------------------------------------------

  /** The first `n` lengths in the order they are sent. */
  function Sent(code: seq<nat>, n: nat): (s: seq<nat>)
    requires |code| == 19 && n <= 19
    ensures |s| == n
  {
    if n == 0 then [] else Sent(code, n - 1) + [code[Order(n - 1)]]
  }

  function EncodeFields(fields: seq<nat>): Bitstring {
    if fields == [] then [] else EncodeFields(fields[..|fields| - 1]) + LsbBits(fields[|fields| - 1], 3)
  }

  lemma {:induction false} FieldsRead(fields: seq<nat>, rest: Bitstring)
    requires forall i | 0 <= i < |fields| :: fields[i] < 8
    ensures ThreeBitFields(EncodeFields(fields) + rest, |fields|) == Some((fields, rest))
    decreases |fields|
  {
    hide Field, LsbBits;
    if fields == [] {
      assert EncodeFields(fields) + rest == rest;
    } else {
      var before, last := fields[..|fields| - 1], fields[|fields| - 1];
      assert last < Pow2(3) by { PowersTo13(); }
      assert EncodeFields(fields) + rest == EncodeFields(before) + (LsbBits(last, 3) + rest);
      FieldsRead(before, LsbBits(last, 3) + rest);
      FieldOf(last, 3, rest);
      assert before + [last] == fields;
    }
  }

  /** Where a length is sent. */
  function Place(j: nat): nat
    requires j < 19
  {
    if j >= 16 then j - 16 else if j == 0 then 3 else if j >= 8 then 4 + 2 * (j - 8) else 5 + 2 * (7 - j)
  }

  lemma PlaceOf(j: nat)
    requires j < 19
    ensures Place(j) < 19 && Order(Place(j)) == j
  {
  }

  lemma OrderOf(i: nat)
    requires i < 19
    ensures Order(i) < 19 && Place(Order(i)) == i
  {
  }

  lemma {:induction false} SentAre(code: seq<nat>, n: nat, j: nat)
    requires |code| == 19 && n <= 19 && j < 19
    ensures CodeLengthCode(Sent(code, n))[j] == if Place(j) < n then code[j] else 0
  {
    hide Place, Order;
    if n > 0 {
      SentAre(code, n - 1, j);
      OrderTable(n - 1);
      OrderOf(n - 1);
      PlaceOf(j);
      CodeLengthCodeStep(Sent(code, n - 1), code[Order(n - 1)]);
    }
  }

  /** Lengths that are not sent are zero. */
  predicate Enough(code: seq<nat>, n: nat)
    requires |code| == 19
  {
    n <= 19 && forall j | 0 <= j < 19 && Place(j) >= n :: code[j] == 0
  }

  lemma LengthCodeRead(code: seq<nat>, n: nat, rest: Bitstring)
    requires |code| == 19 && Enough(code, n) && Accepted(code) && forall j | 0 <= j < 19 :: code[j] < 8
    ensures LengthsCode(EncodeFields(Sent(code, n)) + rest, n) == Some((code, rest))
  {
    hide Accepted, ThreeBitFields, CodeLengthCode, Place;
    var fields := Sent(code, n);
    SentSmall(code, n);
    FieldsRead(fields, rest);
    forall j | 0 <= j < 19 ensures CodeLengthCode(fields)[j] == code[j] { SentAre(code, n, j); }
    assert CodeLengthCode(fields) == code;
  }

  lemma {:induction false} SentSmall(code: seq<nat>, n: nat)
    requires |code| == 19 && n <= 19 && forall j | 0 <= j < 19 :: code[j] < 8
    ensures forall i | 0 <= i < n :: Sent(code, n)[i] < 8
  {
    if n > 0 { SentSmall(code, n - 1); }
  }

  // ---- the header of a dynamic block -----------------------------------------------------------------

  /** The code-length code, how many of its lengths are sent, the runs that list the lengths of both codes,
      and how many of those belong to the literal code. */
  datatype Header = Header(code: seq<nat>, sent: nat, runs: seq<Run>, literals: nat)

  ghost predicate HeaderOk(h: Header) {
    && |h.code| == 19 && 4 <= h.sent <= 19 && Enough(h.code, h.sent) && Accepted(h.code)
    && (forall j | 0 <= j < 19 :: h.code[j] < 8)
    && RunsOk(h.code, [], h.runs) && 257 <= h.literals <= 286
    && h.literals + 1 <= |Listed(h.code, [], h.runs)| <= h.literals + 32
  }

  ghost function LengthsOf(h: Header): seq<nat>
    requires HeaderOk(h)
  {
    Listed(h.code, [], h.runs)
  }

  ghost function CodesOf(h: Header): Codes
    requires HeaderOk(h)
  {
    Codes(LengthsOf(h)[..h.literals], LengthsOf(h)[h.literals..])
  }

  ghost function EncodeHeader(h: Header): Bitstring
    requires HeaderOk(h)
  {
    LsbBits(h.literals - 257, 5) + (LsbBits(|LengthsOf(h)| - h.literals - 1, 5) + (LsbBits(h.sent - 4, 4)
    + (EncodeFields(Sent(h.code, h.sent)) + EncodeRuns(h.code, [], h.runs))))
  }

  lemma CountsRead(a: nat, b: nat, c: nat, rest: Bitstring)
    requires 257 <= a <= 286 && 1 <= b <= 32 && 4 <= c <= 19
    ensures DynamicHeader(LsbBits(a - 257, 5) + (LsbBits(b - 1, 5) + (LsbBits(c - 4, 4) + rest)))
         == Some((a, b, c, rest))
  {
    hide Field, LsbBits;
    PowersTo13();
    var b2 := LsbBits(c - 4, 4) + rest;
    FieldOf(c - 4, 4, rest);
    FieldOf(b - 1, 5, b2);
    FieldOf(a - 257, 5, LsbBits(b - 1, 5) + b2);
  }

  lemma HeaderRead(h: Header, rest: Bitstring)
    requires HeaderOk(h)
    ensures DynamicLengths(EncodeHeader(h) + rest) == Some((h.literals, LengthsOf(h), rest))
  {
    hide Accepted, EncodeFields, Sent, EncodeRuns, RunsOk, Listed, Enough, LsbBits;
    hide DynamicHeader, LengthsCode, CodedLengths;
    var fields, runs := EncodeFields(Sent(h.code, h.sent)), EncodeRuns(h.code, [], h.runs);
    var n := |LengthsOf(h)| - h.literals;
    var x, y, z := LsbBits(h.literals - 257, 5), LsbBits(n - 1, 5), LsbBits(h.sent - 4, 4);
    assert EncodeHeader(h) + rest == x + (y + (z + (fields + (runs + rest))));
    CountsRead(h.literals, n, h.sent, fields + (runs + rest));
    LengthCodeRead(h.code, h.sent, runs + rest);
    AcceptedIs(h.code);
    RunsRead(h.code, [], h.runs, rest);
  }

  lemma AcceptedIs(code: seq<nat>)
    requires Accepted(code)
    ensures IsPrefixCode(code)
  {
  }

  // ---- blocks ---------------------------------------------------------------------------------------------

  /** Stored bytes after `pad`, which fills up a byte; or items in the fixed codes or in codes of their own. */
  datatype Block =
    | Stored(pad: Bitstring, bytes: seq<Octet>)
    | Fixed(items: seq<Item>)
    | Dynamic(header: Header, items: seq<Item>)

  /** The codes can express the items and the end of the block. */
  predicate Expressible(codes: Codes, items: seq<Item>) {
    AllEncodable(codes, items) && Used(codes.literal, 256)
  }

  /** A block that may follow the output `out`. */
  ghost predicate BlockOk(b: Block, out: seq<Octet>, rfc: bool) {
    match b
    case Stored(pad, bytes) => |pad| < 8 && |bytes| < 65536
    case Fixed(items) => (forall x <- items :: ItemOk(x)) && Grounded(out, items)
    case Dynamic(h, items) =>
      && HeaderOk(h) && Expressible(CodesOf(h), items) && Grounded(out, items)
      && Accepted(CodesOf(h).literal) && DistanceCodeOk(CodesOf(h).distance, rfc)
  }

  function Kind(b: Block): nat { if b.Stored? then 0 else if b.Fixed? then 1 else 2 }

  function ItemsAndEnd(codes: Codes, items: seq<Item>): Bitstring
    requires Expressible(codes, items)
  {
    EncodeItems(codes, items) + Code(codes.literal, 256)
  }

  ghost function BlockBits(b: Block, out: seq<Octet>, rfc: bool): Bitstring
    requires BlockOk(b, out, rfc)
  {
    match b
    case Stored(pad, bytes) => StoredBits(pad, bytes)
    case Fixed(items) => FixedExpresses(items); ItemsAndEnd(FixedCodes(), items)
    case Dynamic(h, items) => EncodeHeader(h) + ItemsAndEnd(CodesOf(h), items)
  }

  /** The output after a block. */
  ghost function Meant(b: Block, out: seq<Octet>, rfc: bool): seq<Octet>
    requires BlockOk(b, out, rfc)
  {
    match b
    case Stored(_, bytes) => out + bytes
    case Fixed(items) => Expand(out, items)
    case Dynamic(_, items) => Expand(out, items)
  }

  /** Every literal, length and distance has a fixed code. */
  lemma FixedExpresses(items: seq<Item>)
    requires forall x <- items :: ItemOk(x)
    ensures Expressible(FixedCodes(), items)
  {
    hide FixedCodes, Used, ItemOk, Encodable;
    FixedLiteralIs(256);
    forall x <- items ensures Encodable(FixedCodes(), x) { FixedEncodes(x); }
  }

  lemma FixedEncodes(x: Item)
    requires ItemOk(x)
    ensures Encodable(FixedCodes(), x)
  {
    hide FixedCodes, Used, LengthSlot, Slot, FixedLiteralCode, Code;
    match x {
      case Literal(b) => FixedLiteralIs(b);
      case Repeat(l, d, full) =>
        LengthSlotBound(l, full);
        DistanceSlotBound(d);
        FixedLiteralIs(257 + LengthSlot(l, full));
        FixedDistanceIs(Slot(d - 1, 1));
    }
  }

  lemma CompressedRead(codes: Codes, items: seq<Item>, out: seq<Octet>, rest: Bitstring)
    requires IsPrefixCode(codes.literal) && IsPrefixCode(codes.distance)
    requires Expressible(codes, items) && Grounded(out, items)
    ensures CompressedBlock(codes, ItemsAndEnd(codes, items) + rest, out) == Some((Expand(out, items), rest))
  {
    hide IsPrefixCode, EncodeItems, Expand, Grounded, Decode, Code, Used, AllEncodable;
    var end := Code(codes.literal, 256);
    assert ItemsAndEnd(codes, items) + rest == EncodeItems(codes, items) + (end + rest);
    ItemsRead(codes, items, out, end + rest);
    DecodeCode(codes.literal, 256, rest);
  }

  lemma {:induction false} BytesRead(s: seq<Octet>, out: seq<Octet>, rest: Bitstring, k: nat)
    requires k <= |s|
    ensures StoredBytes(BytesToBits(s) + rest, out, k) == Some((out + s[..k], BytesToBits(s[k..]) + rest))
  {
    hide Field, LsbBits, BytesToBits;
    if k == 0 {
      assert s[0..] == s && out + s[..0] == out;
    } else {
      BytesRead(s, out, rest, k - 1);
      FirstByte(s[k - 1..]);
      assert s[k - 1..][1..] == s[k..];
      var more := BytesToBits(s[k..]) + rest;
      assert BytesToBits(s[k - 1..]) + rest == LsbBits(s[k - 1], 8) + more;
      PowersTo13();
      FieldOf(s[k - 1], 8, more);
      assert (out + s[..k - 1]) + [s[k - 1]] == out + s[..k];
    }
  }

  lemma FirstByte(s: seq<Octet>)
    requires s != []
    ensures BytesToBits(s) == LsbBits(s[0], 8) + BytesToBits(s[1..])
  {
  }

  function StoredBits(pad: Bitstring, bytes: seq<Octet>): Bitstring
    requires |bytes| < 65536
  {
    pad + (LsbBits(|bytes|, 16) + (LsbBits(65535 - |bytes|, 16) + BytesToBits(bytes)))
  }

  lemma StoredRead(pad: Bitstring, bytes: seq<Octet>, out: seq<Octet>, rest: Bitstring)
    requires |pad| < 8 && |bytes| < 65536 && |rest| % 8 == 0
    ensures StoredBlock(StoredBits(pad, bytes) + rest, out) == Some((out + bytes, rest))
  {
    hide Field, LsbBits, BytesToBits, StoredBytes, StoredBlock, StoredBits;
    var data := BytesToBits(bytes);
    LengthFields(|bytes|, data + rest);
    PadDropped(pad, bytes, rest);
    AllBytesRead(bytes, out, rest);
    var m := LsbBits(65535 - |bytes|, 16) + (data + rest);
    LengthsAgree(StoredBits(pad, bytes) + rest, |pad|, LsbBits(|bytes|, 16) + m, m, data + rest, |bytes|, out);
  }

  lemma LengthFields(len: nat, rest: Bitstring)
    requires len < 65536
    ensures var n, m := LsbBits(len, 16), LsbBits(65535 - len, 16);
            && Field(n + (m + rest), 16) == Some((len, m + rest))
            && Field(m + rest, 16) == Some((65535 - len, rest))
  {
    hide Field, LsbBits, Pow2;
    TwoToThe16();
    FieldOf(len, 16, LsbBits(65535 - len, 16) + rest);
    FieldOf(65535 - len, 16, rest);
  }

  lemma AllBytesRead(bytes: seq<Octet>, out: seq<Octet>, rest: Bitstring)
    ensures StoredBytes(BytesToBits(bytes) + rest, out, |bytes|) == Some((out + bytes, rest))
  {
    hide BytesToBits, StoredBytes;
    BytesRead(bytes, out, rest, |bytes|);
    assert bytes[..|bytes|] == bytes && bytes[|bytes|..] == [];
    NoBytes(rest);
  }

  lemma TwoToThe16()
    ensures Pow2(16) == 65536
  {
    Pow2Values();
    Pow2Add(8, 8);
  }

  lemma LengthsAgree(bits: Bitstring, cut: nat, b0: Bitstring, b1: Bitstring, b2: Bitstring, len: nat, out: seq<Octet>)
    requires |bits| % 8 == cut <= |bits| && bits[cut..] == b0 && len < 65536
    requires Field(b0, 16) == Some((len, b1)) && Field(b1, 16) == Some((65535 - len, b2))
    ensures StoredBlock(bits, out) == StoredBytes(b2, out, len)
  {
    hide Field, StoredBytes;
  }

  lemma PadDropped(pad: Bitstring, bytes: seq<Octet>, rest: Bitstring)
    requires |pad| < 8 && |bytes| < 65536 && |rest| % 8 == 0
    ensures var bits := StoredBits(pad, bytes) + rest;
            && |bits| % 8 == |pad| <= |bits|
            && bits[|pad|..] == LsbBits(|bytes|, 16) + (LsbBits(65535 - |bytes|, 16) + (BytesToBits(bytes) + rest))
  {
    hide LsbBits, BytesToBits;
    var bits := StoredBits(pad, bytes) + rest;
    assert bits == pad + (LsbBits(|bytes|, 16) + (LsbBits(65535 - |bytes|, 16) + (BytesToBits(bytes) + rest)));
    assert |bits| == |pad| + 8 * (4 + |bytes|) + |rest|;
  }

  lemma NoBytes(rest: Bitstring)
    ensures BytesToBits([]) + rest == rest
  {
  }

  lemma BlockRead(b: Block, out: seq<Octet>, rfc: bool, rest: Bitstring)
    requires BlockOk(b, out, rfc) && (b.Stored? ==> |rest| % 8 == 0)
    ensures Deflate.Block(Kind(b), BlockBits(b, out, rfc) + rest, out, rfc) == Some((Meant(b, out, rfc), rest))
  {
    hide StoredBlock, CompressedBlock, Grounded, Expand, Expressible, LsbBits, BytesToBits, FixedCodes;
    hide IsPrefixCode, HeaderOk, EncodeHeader, ItemsAndEnd, LengthsOf;
    match b {
      case Stored(pad, bytes) =>
        StoredRead(pad, bytes, out, rest);
      case Fixed(items) =>
        FixedExpresses(items);
        FixedCodesAccepted();
        CompressedRead(FixedCodes(), items, out, rest);
      case Dynamic(h, items) =>
        DynamicRead(h, items, out, rfc, rest);
    }
  }

  lemma DynamicRead(h: Header, items: seq<Item>, out: seq<Octet>, rfc: bool, rest: Bitstring)
    requires BlockOk(Dynamic(h, items), out, rfc)
    ensures Deflate.Block(2, BlockBits(Dynamic(h, items), out, rfc) + rest, out, rfc)
         == Some((Expand(out, items), rest))
  {
    hide CompressedBlock, Grounded, Expand, AllEncodable, HeaderOk, EncodeHeader, ItemsAndEnd, LengthsOf;
    hide DynamicLengths, IsPrefixCode;
    var body := ItemsAndEnd(CodesOf(h), items) + rest;
    assert BlockBits(Dynamic(h, items), out, rfc) + rest == EncodeHeader(h) + body;
    HeaderRead(h, body);
    HeaderIs(h);
    CompressedRead(CodesOf(h), items, out, rest);
  }

  lemma HeaderIs(h: Header)
    requires HeaderOk(h)
    ensures 257 <= h.literals < |LengthsOf(h)|
  {
  }

  // ---- streams ----------------------------------------------------------------------------------------------

  /** Blocks that make up a stream from the output `out` on. */
  ghost predicate StreamOk(blocks: seq<Block>, out: seq<Octet>, rfc: bool)
    decreases |blocks|
  {
    && blocks != [] && BlockOk(blocks[0], out, rfc)
    && (|blocks| > 1 ==> StreamOk(blocks[1..], Meant(blocks[0], out, rfc), rfc))
  }

  /** The bits of the stream and `rest`. */
  ghost function StreamBits(blocks: seq<Block>, out: seq<Octet>, rfc: bool, rest: Bitstring): Bitstring
    requires StreamOk(blocks, out, rfc)
    decreases |blocks|, 1
  {
    LsbBits(if |blocks| == 1 then 1 else 0, 1) + (LsbBits(Kind(blocks[0]), 2) + (BlockBits(blocks[0], out, rfc)
    + After(blocks, out, rfc, rest)))
  }

  /** What follows the first block. */
  ghost function After(blocks: seq<Block>, out: seq<Octet>, rfc: bool, rest: Bitstring): Bitstring
    requires StreamOk(blocks, out, rfc)
    decreases |blocks|, 0
  {
    if |blocks| == 1 then rest else StreamBits(blocks[1..], Meant(blocks[0], out, rfc), rfc, rest)
  }

  /** Stored bytes end on a byte boundary, counted from the end. */
  ghost predicate Aligned(blocks: seq<Block>, out: seq<Octet>, rfc: bool, rest: Bitstring)
    requires StreamOk(blocks, out, rfc)
    decreases |blocks|
  {
    && (blocks[0].Stored? ==> |After(blocks, out, rfc, rest)| % 8 == 0)
    && (|blocks| > 1 ==> Aligned(blocks[1..], Meant(blocks[0], out, rfc), rfc, rest))
  }

  ghost function StreamMeans(blocks: seq<Block>, out: seq<Octet>, rfc: bool): seq<Octet>
    requires StreamOk(blocks, out, rfc)
    decreases |blocks|
  {
    var out' := Meant(blocks[0], out, rfc);
    if |blocks| == 1 then out' else StreamMeans(blocks[1..], out', rfc)
  }

  /** The round trip: a stream of any blocks decodes to the bytes they mean. */
  lemma {:induction false} StreamRead(blocks: seq<Block>, out: seq<Octet>, rfc: bool, rest: Bitstring)
    requires StreamOk(blocks, out, rfc) && Aligned(blocks, out, rfc, rest)
    ensures Stream(StreamBits(blocks, out, rfc, rest), out, rfc) == Some((StreamMeans(blocks, out, rfc), rest))
    decreases |blocks|
  {
    hide Deflate.Block, BlockOk, BlockBits, Meant, LsbBits, Field;
    var b, after := blocks[0], After(blocks, out, rfc, rest);
    var b2 := BlockBits(b, out, rfc) + after;
    PowersTo13();
    FieldOf(if |blocks| == 1 then 1 else 0, 1, LsbBits(Kind(b), 2) + b2);
    FieldOf(Kind(b), 2, b2);
    BlockRead(b, out, rfc, after);
    if |blocks| > 1 { StreamRead(blocks[1..], Meant(b, out, rfc), rfc, rest); }
  }

  /** So the decoder turns the bytes of such a stream into what it means, if that fits. */
  method InflateEncoded(input: seq<Octet>, output: array<Octet>, ghost blocks: seq<Block>, ghost rest: Bitstring)
    returns (written: Option<nat>)
    requires StreamOk(blocks, [], false) && Aligned(blocks, [], false, rest)
    requires BytesToBits(input) == StreamBits(blocks, [], false, rest)
    modifies output
    ensures written == if |StreamMeans(blocks, [], false)| <= output.Length
                       then Some(|StreamMeans(blocks, [], false)|) else None
    ensures written.Some? ==> output[..written.value] == StreamMeans(blocks, [], false)
  {
    hide Stream, StreamOk, Aligned, StreamBits, StreamMeans, BytesToBits;
    StreamRead(blocks, [], false, rest);
    written := InflateData(input, output);
  }
}
