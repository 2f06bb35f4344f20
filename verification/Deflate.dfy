/** The meaning of a DEFLATE stream (sections 3.2.3 to 3.2.7 of RFC 1951), one byte at a time and
    with no buffer, capacity or table in sight. */
module Deflate {
  import opened Prelude
  import Arith
  import opened Bits
  import opened HuffmanCodes

  const LENGTH_BASE: seq<nat> :=
    [3, 4, 5, 6, 7, 8, 9, 10, 11, 13, 15, 17, 19, 23, 27, 31, 35, 43, 51, 59, 67, 83, 99, 115, 131, 163, 195, 227, 258]
  const LENGTH_EXTRA: seq<nat> :=
    [0, 0, 0, 0, 0, 0, 0, 0, 1, 1, 1, 1, 2, 2, 2, 2, 3, 3, 3, 3, 4, 4, 4, 4, 5, 5, 5, 5, 0]
  const DISTANCE_BASE: seq<nat> :=
    [1, 2, 3, 4, 5, 7, 9, 13, 17, 25, 33, 49, 65, 97, 129, 193, 257, 385, 513, 769, 1025, 1537, 2049, 3073, 4097, 6145,
     8193, 12289, 16385, 24577]
  const DISTANCE_EXTRA: seq<nat> :=
    [0, 0, 0, 0, 1, 1, 2, 2, 3, 3, 4, 4, 5, 5, 6, 6, 7, 7, 8, 8, 9, 9, 10, 10, 11, 11, 12, 12, 13, 13]
  const CODE_ORDER: seq<nat> := [16, 17, 18, 0, 8, 7, 9, 6, 10, 5, 11, 4, 12, 3, 13, 2, 14, 1, 15]

  type Bitstring = seq<bool>

  /** The code lengths of a block's two alphabets. */
  datatype Codes = Codes(literal: seq<nat>, distance: seq<nat>)

  /** An unsigned field of `n` bits, and what follows it. */
  function Field(bits: Bitstring, n: nat): (r: Option<(nat, Bitstring)>)
    ensures r.Some? <==> n <= |bits|
    ensures r.Some? ==> |r.value.1| == |bits| - n
  {
    if |bits| < n then None else Some((LsbValue(bits[..n]), bits[n..]))
  }

  // ---- the code tables of a block ----------------------------------------

  function FixedCodes(): Codes {
    Codes(seq(288, i => if i <= 143 then 8 else if i <= 255 then 9 else if i <= 279 then 7 else 8),
          seq(32, i => 5))
  }

  /** `n` three-bit fields. */
  function ThreeBitFields(bits: Bitstring, n: nat): (r: Option<(seq<nat>, Bitstring)>)
    ensures r.Some? ==> |r.value.0| == n && |r.value.1| <= |bits|
  {
    if n == 0 then Some(([], bits))
    else
      var (before, rest) :- ThreeBitFields(bits, n - 1);
      var (v, rest') :- Field(rest, 3);
      Some((before + [v], rest'))
  }

  /** The code-length code's own lengths, which are sent in a permuted order. */
  function CodeLengthCode(fields: seq<nat>): (lengths: seq<nat>)
    requires |fields| <= 19
    ensures |lengths| == 19
  {
    if fields == [] then seq(19, i => 0)
    else
      CodeOrderBound(|fields| - 1);
      CodeLengthCode(fields[..|fields| - 1])[CODE_ORDER[|fields| - 1] := fields[|fields| - 1]]
  }

  lemma CodeOrderBound(i: nat)
    requires i < 19
    ensures CODE_ORDER[i] < 19
  {
  }

  lemma CodeLengthCodeStep(fields: seq<nat>, v: nat)
    requires |fields| < 19
    ensures CODE_ORDER[|fields|] < 19
    ensures CodeLengthCode(fields + [v]) == CodeLengthCode(fields)[CODE_ORDER[|fields|] := v]
  {
    CodeOrderBound(|fields|);
    assert (fields + [v])[..|fields|] == fields;
  }

  function Repeat(v: nat, n: nat): (s: seq<nat>)
    ensures |s| == n
  {
    seq(n, i => v)
  }

  /** The run-length-coded list of `total` code lengths, after `acc`. */
  ghost function CodedLengths(code: seq<nat>, bits: Bitstring, acc: seq<nat>, total: nat)
    : (r: Option<(seq<nat>, Bitstring)>)
    ensures r.Some? ==> |r.value.1| <= |bits|
    ensures r.Some? && |acc| <= total ==> |r.value.0| == total
    decreases |bits|, 0
  {
    if |acc| >= total then Some((acc, bits))
    else
      var (symbol, rest) :- Decode(code, bits);
      if symbol <= 15 then
        CodedLengths(code, rest, acc + [symbol], total)
      else if symbol == 16 then
        if acc == [] then None
        else
          var (v, rest') :- Field(rest, 2);
          AfterRun(code, rest', acc, acc[|acc| - 1], v + 3, total)
      else if symbol == 17 then
        var (v, rest') :- Field(rest, 3);
        AfterRun(code, rest', acc, 0, v + 3, total)
      else if symbol == 18 then
        var (v, rest') :- Field(rest, 7);
        AfterRun(code, rest', acc, 0, v + 11, total)
      else None
  }

  ghost function AfterRun(code: seq<nat>, bits: Bitstring, acc: seq<nat>, length: nat, n: nat, total: nat)
    : (r: Option<(seq<nat>, Bitstring)>)
    ensures r.Some? ==> |r.value.1| <= |bits| && |r.value.0| == total
    decreases |bits|, 1
  {
    if |acc| + n > total then None else CodedLengths(code, bits, acc + Repeat(length, n), total)
  }

  /** Whether a distance code may be used.  The RFC lets a block of literals declare a distance
      code with no symbols in it; the decoder does not (`rfc` false). */
  ghost predicate DistanceCodeOk(lengths: seq<nat>, rfc: bool) {
    if rfc then IsPrefixCode(lengths) else Accepted(lengths)
  }

  /** The numbers of literal, distance and code-length codes that a dynamic block announces. */
  function DynamicHeader(bits: Bitstring): (r: Option<(nat, nat, nat, Bitstring)>)
    ensures r.Some? ==> 257 <= r.value.0 <= 286 && 1 <= r.value.1 <= 32 && r.value.2 <= 19
    ensures r.Some? ==> |r.value.3| <= |bits|
  {
    var (hlit, b1) :- Field(bits, 5);
    var (hdist, b2) :- Field(b1, 5);
    var (hclen, b3) :- Field(b2, 4);
    if hlit + 257 > 286 || hdist + 1 > 32 || hclen + 4 > 19 then None
    else Some((hlit + 257, hdist + 1, hclen + 4, b3))
  }

  /** The two codes given by one list of lengths, if they may be used; the end-of-block symbol
      must have a code. */
  ghost function CodesFrom(lengths: seq<nat>, literals: nat, rfc: bool): (r: Option<Codes>)
    requires 257 <= literals <= |lengths|
    ensures r.Some? ==> Accepted(r.value.literal) && DistanceCodeOk(r.value.distance, rfc)
  {
    var codes := Codes(lengths[..literals], lengths[literals..]);
    if lengths[256] != 0 && Accepted(codes.literal) && DistanceCodeOk(codes.distance, rfc) then Some(codes) else None
  }

  /** The code-length code of a dynamic block. */
  ghost function LengthsCode(bits: Bitstring, n: nat): (r: Option<(seq<nat>, Bitstring)>)
    requires n <= 19
    ensures r.Some? ==> Accepted(r.value.0) && |r.value.1| <= |bits|
  {
    var (fields, rest) :- ThreeBitFields(bits, n);
    if Accepted(CodeLengthCode(fields)) then Some((CodeLengthCode(fields), rest)) else None
  }

  /** The literal count and the list of all code lengths of a dynamic block. */
  ghost function DynamicLengths(bits: Bitstring): (r: Option<(nat, seq<nat>, Bitstring)>)
    ensures r.Some? ==> |r.value.2| <= |bits|
    ensures r.Some? ==> 257 <= r.value.0 <= 286 && r.value.0 <= |r.value.1| <= r.value.0 + 32
  {
    var (literals, distances, codeLengths, b1) :- DynamicHeader(bits);
    var (code, b2) :- LengthsCode(b1, codeLengths);
    var (lengths, b3) :- CodedLengths(code, b2, [], literals + distances);
    Some((literals, lengths, b3))
  }

  ghost function DynamicCodes(bits: Bitstring, rfc: bool): (r: Option<(Codes, Bitstring)>)
    ensures r.Some? ==> |r.value.1| <= |bits|
    ensures r.Some? ==> Accepted(r.value.0.literal) && DistanceCodeOk(r.value.0.distance, rfc)
  {
    var (literals, lengths, rest) :- DynamicLengths(bits);
    var codes :- CodesFrom(lengths, literals, rfc);
    Some((codes, rest))
  }

  // ---- blocks --------------------------------------------------------------

  /** The output so far extended by `length` bytes, each equal to the byte `distance` before it. */
  function Copy(out: seq<Octet>, distance: nat, length: nat): (r: seq<Octet>)
    requires 1 <= distance <= |out|
    ensures |r| == |out| + length
    ensures out <= r
  {
    if length == 0 then out
    else
      var before := Copy(out, distance, length - 1);
      before + [before[|before| - distance]]
  }

  /** The match length given by length symbol `symbol` and its extra bits. */
  function MatchLength(bits: Bitstring, symbol: nat): (r: Option<(nat, Bitstring)>)
    requires 257 <= symbol <= 285
    ensures r.Some? ==> |r.value.1| <= |bits|
  {
    var (extra, rest) :- Field(bits, LENGTH_EXTRA[symbol - 257]);
    Some((LENGTH_BASE[symbol - 257] + extra, rest))
  }

  /** The match distance: a distance symbol and its extra bits. */
  ghost function MatchDistance(code: seq<nat>, bits: Bitstring): (r: Option<(nat, Bitstring)>)
    ensures r.Some? ==> |r.value.1| <= |bits| && r.value.0 >= 1
  {
    var (d, rest) :- Decode(code, bits);
    DistanceExtended(rest, d)
  }

  function DistanceExtended(bits: Bitstring, d: nat): (r: Option<(nat, Bitstring)>)
    ensures r.Some? ==> |r.value.1| <= |bits| && r.value.0 >= 1
  {
    if d >= 30 then None
    else
      var (extra, rest) :- Field(bits, DISTANCE_EXTRA[d]);
      DistancePositive(d);
      Some((DISTANCE_BASE[d] + extra, rest))
  }

  lemma DistancePositive(d: nat)
    requires d < 30
    ensures DISTANCE_BASE[d] >= 1
  {
  }

  /** The output after the match introduced by length symbol `symbol`. */
  ghost function Match(codes: Codes, bits: Bitstring, symbol: nat, out: seq<Octet>)
    : (r: Option<(seq<Octet>, Bitstring)>)
    requires 257 <= symbol <= 285
    ensures r.Some? ==> |r.value.1| <= |bits| && |out| <= |r.value.0|
  {
    var (length, b1) :- MatchLength(bits, symbol);
    var (distance, b2) :- MatchDistance(codes.distance, b1);
    if distance > |out| then None else Some((Copy(out, distance, length), b2))
  }

  /** The symbols of a compressed block up to its end marker. */
  ghost function CompressedBlock(codes: Codes, bits: Bitstring, out: seq<Octet>)
    : (r: Option<(seq<Octet>, Bitstring)>)
    ensures r.Some? ==> |r.value.1| < |bits| && |out| <= |r.value.0|
    decreases |bits|
  {
    var (symbol, rest) :- Decode(codes.literal, bits);
    if symbol < 256 then
      CompressedBlock(codes, rest, out + [symbol])
    else if symbol == 256 then
      Some((out, rest))
    else if symbol > 285 then
      None
    else
      var (out', rest') :- Match(codes, rest, symbol, out);
      CompressedBlock(codes, rest', out')
  }

  function StoredBytes(bits: Bitstring, out: seq<Octet>, n: nat): (r: Option<(seq<Octet>, Bitstring)>)
    ensures r.Some? ==> |r.value.1| <= |bits| && |r.value.0| == |out| + n
  {
    if n == 0 then Some((out, bits))
    else
      var (before, rest) :- StoredBytes(bits, out, n - 1);
      var (v, rest') :- Field(rest, 8);
      FieldBound(rest, 8);
      Some((before + [v], rest'))
  }

  lemma FieldBound(bits: Bitstring, n: nat)
    requires n <= |bits|
    ensures LsbValue(bits[..n]) < Pow2(n)
    ensures n == 8 ==> LsbValue(bits[..n]) < 256
  {
    LsbValueBound(bits[..n]);
    Pow2Values();
  }

  function StoredBlock(bits: Bitstring, out: seq<Octet>): (r: Option<(seq<Octet>, Bitstring)>)
    ensures r.Some? ==> |r.value.1| <= |bits| && |out| <= |r.value.0|
  {
    var (len, b1) :- Field(bits[|bits| % 8..], 16);
    var (nlen, b2) :- Field(b1, 16);
    if nlen != 65535 - len then None else StoredBytes(b2, out, len)
  }

  /** The body of a block of the given type. */
  ghost function Block(kind: nat, bits: Bitstring, out: seq<Octet>, rfc: bool): (r: Option<(seq<Octet>, Bitstring)>)
    ensures r.Some? ==> |r.value.1| <= |bits| && |out| <= |r.value.0|
  {
    if kind == 0 then
      StoredBlock(bits, out)
    else if kind == 1 then
      CompressedBlock(FixedCodes(), bits, out)
    else if kind == 2 then
      var (codes, rest) :- DynamicCodes(bits, rfc);
      CompressedBlock(codes, rest, out)
    else None
  }

  /** A whole stream: blocks until one is marked final. */
  ghost function Stream(bits: Bitstring, out: seq<Octet>, rfc: bool): (r: Option<(seq<Octet>, Bitstring)>)
    ensures r.Some? ==> |out| <= |r.value.0|
    decreases |bits|
  {
    var (final, b1) :- Field(bits, 1);
    var (kind, b2) :- Field(b1, 2);
    var (out', b3) :- Block(kind, b2, out, rfc);
    if final != 0 then Some((out', b3)) else Stream(b3, out', rfc)
  }

  // ---- the fixed codes are prefix codes --------------------------------------

  /** Counting over a stretch of equal lengths. */
  lemma {:induction false} CountRun(lengths: seq<nat>, lo: nat, hi: nat, v: nat, len: nat)
    requires lo <= hi <= |lengths|
    requires forall i | lo <= i < hi :: lengths[i] == v
    ensures CountBelow(lengths, hi, len) == CountBelow(lengths, lo, len) + (if v == len then hi - lo else 0)
    decreases hi
  {
    if lo < hi { CountRun(lengths, lo, hi - 1, v, len); }
  }

  lemma FixedLiteralCount(len: nat)
    ensures Count(FixedCodes().literal, len)
         == if len == 7 then 24 else if len == 8 then 152 else if len == 9 then 112 else 0
  {
    var l := FixedCodes().literal;
    CountRun(l, 0, 144, 8, len);
    CountRun(l, 144, 256, 9, len);
    CountRun(l, 256, 280, 7, len);
    CountRun(l, 280, 288, 8, len);
  }

  lemma {:induction false} FixedLiteralFirst(len: nat)
    ensures FirstCode(FixedCodes().literal, len)
         == if len <= 7 then 0 else if len == 8 then 48 else if len == 9 then 400 else Pow2(len)
  {
    if len > 1 {
      FixedLiteralFirst(len - 1);
      FixedLiteralCount(len - 1);
      Pow2Values();
    }
  }

  lemma FixedDistanceCount(len: nat)
    ensures Count(FixedCodes().distance, len) == if len == 5 then 32 else 0
  {
    CountRun(FixedCodes().distance, 0, 32, 5, len);
  }

  lemma {:induction false} FixedDistanceFirst(len: nat)
    ensures FirstCode(FixedCodes().distance, len) == if len <= 5 then 0 else Pow2(len)
  {
    if len > 1 {
      FixedDistanceFirst(len - 1);
      FixedDistanceCount(len - 1);
      Pow2Values();
    }
  }

  lemma FixedFits(len: nat)
    requires 1 <= len <= MAX_BITS
    ensures EndCode(FixedCodes().literal, len) <= Pow2(len)
    ensures EndCode(FixedCodes().distance, len) <= Pow2(len)
  {
    hide FixedCodes;
    FixedLiteralFirst(len);
    FixedLiteralCount(len);
    FixedDistanceFirst(len);
    FixedDistanceCount(len);
    Pow2Values();
  }

  /** The fixed codes of section 3.2.6 are complete prefix codes. */
  lemma FixedCodesAccepted()
    ensures Accepted(FixedCodes().literal) && Accepted(FixedCodes().distance)
  {
    FixedLiteralCount(0);
    FixedDistanceCount(0);
    forall len | 1 <= len <= MAX_BITS
      ensures EndCode(FixedCodes().literal, len) <= Pow2(len)
      ensures EndCode(FixedCodes().distance, len) <= Pow2(len)
    {
      FixedFits(len);
    }
  }

  // ---- facts ---------------------------------------------------------------

  /** A match that does not reach into its own output is one slice of the existing output. */
  lemma {:induction false} CopyIsSlice(out: seq<Octet>, distance: nat, length: nat)
    requires 1 <= distance <= |out| && length <= distance
    ensures Copy(out, distance, length) == out + out[|out| - distance..|out| - distance + length]
  {
    if length != 0 {
      CopyIsSlice(out, distance, length - 1);
      var src := |out| - distance;
      assert out[src..src + length] == out[src..src + length - 1] + [out[src + length - 1]];
    }
  }

  /** A match of distance `d` repeats the last `d` bytes of the output with period `d`. */
  lemma CopyStep(out: seq<Octet>, distance: nat, length: nat)
    requires 1 <= distance <= |out| && length > 0
    ensures var before, after := Copy(out, distance, length - 1), Copy(out, distance, length);
            && (forall i | 0 <= i < |before| :: after[i] == before[i])
            && after[|before|] == before[|before| - distance]
            && forall i | 0 <= i < |out| :: before[i] == out[i]
  {
  }

  lemma {:induction false} CopyIsPeriodic(out: seq<Octet>, distance: nat, length: nat, k: nat)
    requires 1 <= distance <= |out| && k < length
    ensures Copy(out, distance, length)[|out| + k] == out[|out| - distance + k % distance]
  {
    hide Copy;
    CopyStep(out, distance, length);
    if k < length - 1 {
      CopyIsPeriodic(out, distance, length - 1, k);
    } else if k >= distance {
      CopyIsPeriodic(out, distance, length - 1, k - distance);
      assert (k - distance) % distance == k % distance by {
        Arith.DivModUnique(k - distance, distance, k / distance - 1, k % distance);
      }
    } else {
      Arith.SmallDivMod(k, distance);
    }
  }

  /** Whatever the decoder's stricter rule accepts has the same meaning under the RFC. */
  lemma {:induction false} StrictIsRfc(bits: Bitstring, out: seq<Octet>)
    requires Stream(bits, out, false).Some?
    ensures Stream(bits, out, true) == Stream(bits, out, false)
    decreases |bits|
  {
    var (final, b1) := Field(bits, 1).value;
    var (kind, b2) := Field(b1, 2).value;
    assert Block(kind, b2, out, true) == Block(kind, b2, out, false);
    var (out', b3) := Block(kind, b2, out, false).value;
    if final == 0 {
      StrictIsRfc(b3, out');
    }
  }

  // ---- exactly where the decoder is stricter than the RFC --------------------

  /** A dynamic block whose distance code has no symbols. */
  ghost predicate HasEmptyDistanceCode(kind: nat, bits: Bitstring) {
    && kind == 2
    && var codes := DynamicCodes(bits, true);
       codes.Some? && Count(codes.value.0.distance, 0) == |codes.value.0.distance|
  }

  /** Some block of the stream, read by the RFC's rules, has an empty distance code. */
  ghost predicate MeetsEmptyDistanceCode(bits: Bitstring, out: seq<Octet>)
    requires Stream(bits, out, true).Some?
    decreases |bits|
  {
    var (final, b1) := Field(bits, 1).value;
    var (kind, b2) := Field(b1, 2).value;
    var (out', b3) := Block(kind, b2, out, true).value;
    HasEmptyDistanceCode(kind, b2) || (final == 0 && MeetsEmptyDistanceCode(b3, out'))
  }

  lemma StrictBlock(kind: nat, bits: Bitstring, out: seq<Octet>)
    requires Block(kind, bits, out, true).Some?
    ensures Block(kind, bits, out, false)
         == if HasEmptyDistanceCode(kind, bits) then None else Block(kind, bits, out, true)
  {
  }

  /** Of the streams that mean something under the RFC, the decoder refuses exactly those with an
      empty distance code. */
  lemma {:induction false} StricterExactlyOnEmptyDistance(bits: Bitstring, out: seq<Octet>)
    requires Stream(bits, out, true).Some?
    ensures Stream(bits, out, false).Some? <==> !MeetsEmptyDistanceCode(bits, out)
    decreases |bits|
  {
    hide Block, HasEmptyDistanceCode;
    var (final, b1) := Field(bits, 1).value;
    var (kind, b2) := Field(b1, 2).value;
    var (out', b3) := Block(kind, b2, out, true).value;
    StrictBlock(kind, b2, out);
    if !HasEmptyDistanceCode(kind, b2) && final == 0 {
      StricterExactlyOnEmptyDistance(b3, out');
    }
  }

  /** The refused case exists: only the end-of-block symbol is used, and no distance. */
  lemma EmptyDistanceCodeRefused(lengths: seq<nat>)
    requires lengths == seq(256, i => 0) + [1] + [0]
    ensures CodesFrom(lengths, 257, true).Some?
    ensures CodesFrom(lengths, 257, false).None?
  {
    OneSymbolCode(lengths[..257]);
    NoSymbolCode(lengths[257..]);
  }

  lemma OneSymbolCode(lengths: seq<nat>)
    requires |lengths| == 257 && lengths[256] == 1 && forall i | 0 <= i < 256 :: lengths[i] == 0
    ensures Accepted(lengths)
  {
    forall len | 1 <= len <= MAX_BITS ensures EndCode(lengths, len) <= Pow2(len) {
      OneSymbolEnd(lengths, len);
    }
    CountRun(lengths, 0, 256, 0, 0);
  }

  lemma {:induction false} OneSymbolEnd(lengths: seq<nat>, len: nat)
    requires |lengths| == 257 && lengths[256] == 1 && forall i | 0 <= i < 256 :: lengths[i] == 0
    requires 1 <= len
    ensures EndCode(lengths, len) <= Pow2(len)
  {
    CountRun(lengths, 0, 256, 0, len);
    if len > 1 { OneSymbolEnd(lengths, len - 1); }
  }

  lemma NoSymbolCode(lengths: seq<nat>)
    requires lengths == [0]
    ensures IsPrefixCode(lengths) && !Accepted(lengths)
  {
    forall len | 1 <= len <= MAX_BITS ensures EndCode(lengths, len) <= Pow2(len) {
      NoSymbolEnd(lengths, len);
    }
    CountRun(lengths, 0, 1, 0, 0);
  }

  lemma {:induction false} NoSymbolEnd(lengths: seq<nat>, len: nat)
    requires lengths == [0] && 1 <= len
    ensures EndCode(lengths, len) == 0
  {
    CountRun(lengths, 0, 1, 0, len);
    if len > 1 { NoSymbolEnd(lengths, len - 1); }
  }
}
