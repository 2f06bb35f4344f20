/** Twelve bytes that RFC 1951 gives a meaning and the decoder refuses: one empty dynamic block whose
    codes, the complete code of the code lengths and the literal code, are legal, and that has no distance
    code because it has no distance. */
module RefusedStream {
  import opened Prelude
  import Arith
  import opened Bits
  import opened HuffmanCodes
  import opened Deflate
  import DeflateEncoder
  import opened Inflate

  // ---- a byte string as one number ------------------------------------------------------------

  function LittleEndian(s: seq<Octet>): nat { if s == [] then 0 else s[0] + 256 * LittleEndian(s[1..]) }

  lemma {:induction false} BitsOfBytes(s: seq<Octet>)
    ensures BytesToBits(s) == LsbBits(LittleEndian(s), 8 * |s|)
  {
    if s != [] {
      BitsOfBytes(s[1..]);
      Pow2Values();
      LsbBitsConcat(s[0], 8, LittleEndian(s[1..]), 8 * |s[1..]|);
    }
  }

  /** Reading a field from a number's bits. */
  lemma FieldOfNumber(x: nat, n: nat, k: nat, p: nat)
    requires k <= n && p == Pow2(k)
    ensures Field(LsbBits(x, n), k) == Some((x % p, LsbBits(x / p, n - k)))
  {
    LsbBitsSplit(x, n, k);
  }

  /** Three-bit fields below a number, the first in the lowest bits. */
  function Pack(fields: seq<nat>, x: nat): nat { if fields == [] then x else fields[0] + 8 * Pack(fields[1..], x) }

  lemma {:induction false} FieldsOfNumber(fields: seq<nat>, x: nat, n: nat, m: nat)
    requires m <= |fields| && 3 * m <= n && forall i | 0 <= i < |fields| :: fields[i] < 8
    ensures ThreeBitFields(LsbBits(Pack(fields, x), n), m)
         == Some((fields[..m], LsbBits(Pack(fields[m..], x), n - 3 * m)))
  {
    hide Field, LsbBits;
    if m == 0 {
      assert fields[..0] == [] && fields[0..] == fields;
    } else {
      FieldsOfNumber(fields, x, n, m - 1);
      var y := Pack(fields[m - 1..], x);
      assert fields[m - 1..][1..] == fields[m..];
      assert y % 8 == fields[m - 1] && y / 8 == Pack(fields[m..], x);
      assert Pow2(3) == 8;
      FieldOfNumber(y, n - 3 * (m - 1), 3, 8);
      assert fields[..m - 1] + [fields[m - 1]] == fields[..m];
    }
  }

  // ---- the code of the code lengths ---------------------------------------------------------------

  /** One bit for 18, a run of zeros; two bits each for 0 and 1. */
  function LengthCode(): (code: seq<nat>)
    ensures |code| == 19
  {
    [2, 2, 0, 0, 0, 0, 0, 0, 0, 0, 0, 0, 0, 0, 0, 0, 0, 0, 1]
  }

  const FIELDS: seq<nat> := [0, 0, 1, 2, 0, 0, 0, 0, 0, 0, 0, 0, 0, 0, 0, 0, 0, 2, 0]

  lemma {:induction false} PartialCode(n: nat)
    requires n <= 19
    ensures forall j | 0 <= j < 19 ::
              CodeLengthCode(FIELDS[..n])[j] == if (j == 18 && n > 2) || (j == 0 && n > 3) || (j == 1 && n > 17)
                                                then LengthCode()[j] else 0
  {
    if n > 0 {
      PartialCode(n - 1);
      assert FIELDS[..n] == FIELDS[..n - 1] + [FIELDS[n - 1]];
      CodeLengthCodeStep(FIELDS[..n - 1], FIELDS[n - 1]);
      Placed(n - 1);
    }
  }

  lemma Placed(i: nat)
    requires i < 19
    ensures CODE_ORDER[i] == 18 <==> i == 2
    ensures CODE_ORDER[i] == 0 <==> i == 3
    ensures CODE_ORDER[i] == 1 <==> i == 17
    ensures FIELDS[i] == if i == 2 then 1 else if i == 3 || i == 17 then 2 else 0
  {
  }

  lemma CodeIs()
    ensures CodeLengthCode(FIELDS) == LengthCode()
  {
    PartialCode(19);
    assert FIELDS[..19] == FIELDS;
  }

  lemma LengthCounts(len: nat)
    ensures Count(LengthCode(), len) == if len == 0 then 16 else if len == 1 then 1 else if len == 2 then 2 else 0
  {
    var code := LengthCode();
    CountRun(code, 0, 2, 2, len);
    CountRun(code, 2, 18, 0, len);
    CountRun(code, 18, 19, 1, len);
  }

  lemma {:induction false} EndOfLength(len: nat)
    requires 1 <= len
    ensures EndCode(LengthCode(), len) == if len == 1 then 1 else Pow2(len)
  {
    hide LengthCode, Count;
    LengthCounts(len);
    if len > 1 {
      LengthCounts(len - 1);
      EndOfLength(len - 1);
    }
  }

  lemma LengthCodeFits()
    ensures Accepted(LengthCode())
    ensures Used(LengthCode(), 18) && Code(LengthCode(), 18) == [false]
    ensures Used(LengthCode(), 0) && Code(LengthCode(), 0) == [true, false]
    ensures Used(LengthCode(), 1) && Code(LengthCode(), 1) == [true, true]
  {
    var code := LengthCode();
    forall len | 1 <= len <= MAX_BITS ensures EndCode(code, len) <= Pow2(len) { EndOfLength(len); }
    LengthCounts(0);
    LengthCounts(1);
    CountRun(code, 0, 2, 2, 1);
    CountRun(code, 2, 18, 0, 1);
    assert CodeNumber(code, 18) == 0 && CodeNumber(code, 0) == 2 && CodeNumber(code, 1) == 3;
  }

  /** The next code of a code length in a number's bits. */
  lemma NextLength(x: nat, n: nat)
    requires n >= 2
    ensures Decode(LengthCode(), LsbBits(x, n))
         == if x % 2 == 0 then Some((18, LsbBits(x / 2, n - 1)))
            else if x % 4 == 1 then Some((0, LsbBits(x / 4, n - 2))) else Some((1, LsbBits(x / 4, n - 2)))
  {
    hide Decode, LengthCode, Code;
    LengthCodeFits();
    var b := LsbBits(x, n);
    if x % 2 == 0 {
      assert b == [false] + LsbBits(x / 2, n - 1);
      DeflateEncoder.DecodeCode(LengthCode(), 18, LsbBits(x / 2, n - 1));
    } else {
      assert x / 2 / 2 == x / 4;
      assert b == [true, x / 2 % 2 == 1] + LsbBits(x / 4, n - 2);
      DeflateEncoder.DecodeCode(LengthCode(), if x % 4 == 1 then 0 else 1, LsbBits(x / 4, n - 2));
    }
  }

  // ---- the block -------------------------------------------------------------------------------

  /** The lengths of the block's codes: only the end-of-block symbol has one. */
  function Lengths(): (s: seq<nat>)
    ensures |s| == 258
  {
    Repeat(0, 256) + [1] + [0]
  }

  /** A run of zeros, its length in the next seven bits. */
  lemma ZeroRun(x: nat, n: nat, acc: seq<nat>)
    requires n >= 8 && x % 2 == 0 && |acc| + x / 2 % 128 + 11 <= 258
    ensures CodedLengths(LengthCode(), LsbBits(x, n), acc, 258)
         == CodedLengths(LengthCode(), LsbBits(x / 2 / 128, n - 8), acc + Repeat(0, x / 2 % 128 + 11), 258)
  {
    hide LengthCode, Decode, Field, LsbBits;
    NextLength(x, n);
    Pow2Values();
    FieldOfNumber(x / 2, n - 1, 7, 128);
    RunOfZeros(LengthCode(), LsbBits(x, n), LsbBits(x / 2, n - 1), LsbBits(x / 2 / 128, n - 8), x / 2 % 128, acc);
  }

  lemma RunOfZeros(code: seq<nat>, bits: Bitstring, after: Bitstring, rest: Bitstring, v: nat, acc: seq<nat>)
    requires |acc| + v + 11 <= 258
    requires Decode(code, bits) == Some((18, after)) && Field(after, 7) == Some((v, rest))
    ensures CodedLengths(code, bits, acc, 258) == CodedLengths(code, rest, acc + Repeat(0, v + 11), 258)
  {
    hide Decode, Field, Repeat;
    assert CodedLengths(code, bits, acc, 258) == AfterRun(code, rest, acc, 0, v + 11, 258);
  }

  lemma OneLength(x: nat, n: nat, acc: seq<nat>)
    requires n >= 2 && x % 2 == 1 && |acc| < 258
    ensures CodedLengths(LengthCode(), LsbBits(x, n), acc, 258)
         == CodedLengths(LengthCode(), LsbBits(x / 4, n - 2), acc + [if x % 4 == 1 then 0 else 1], 258)
  {
    hide LengthCode, Decode, Field, LsbBits;
    NextLength(x, n);
  }

  /** Runs of 138 and 118 zeros, a one and a zero. */
  lemma LengthsRead()
    ensures CodedLengths(LengthCode(), LsbBits(0x7d6fe, 22), [], 258) == Some((Lengths(), LsbBits(0, 2)))
  {
    hide LengthCode, Decode, Field, LsbBits;
    ZeroRun(0x7d6fe, 22, []);
    ZeroRun(0x7d6, 14, Repeat(0, 138));
    assert [] + Repeat(0, 138) == Repeat(0, 138) && Repeat(0, 138) + Repeat(0, 118) == Repeat(0, 256);
    OneLength(7, 6, Repeat(0, 256));
    OneLength(1, 4, Repeat(0, 256) + [1]);
  }

  lemma HeaderRead()
    ensures DynamicHeader(LsbBits(0x3eb7f040000000001103c00, 93))
         == Some((257, 1, 19, LsbBits(0xfadfc10000000000440, 79)))
  {
    hide Field, LsbBits;
    Pow2Values();
    FieldOfNumber(0x3eb7f040000000001103c00, 93, 5, 32);
    FieldOfNumber(0x1f5bf820000000000881e0, 88, 5, 32);
    FieldOfNumber(0xfadfc10000000000440f, 83, 4, 16);
  }

  lemma {:induction false} PackConcat(a: seq<nat>, b: seq<nat>, x: nat)
    ensures Pack(a + b, x) == Pack(a, Pack(b, x))
  {
    if a == [] {
      assert a + b == b;
    } else {
      assert (a + b)[1..] == a[1..] + b;
      PackConcat(a[1..], b, x);
    }
  }

  lemma PackTwo(a: nat, b: nat, x: nat)
    ensures Pack([a, b], x) == a + 8 * b + 64 * x
  {
    assert [a, b][1..] == [b];
    assert Pack([b], x) == b + 8 * x by { NothingPacked(x); }
  }

  lemma PackFour(a: nat, b: nat, c: nat, d: nat, x: nat)
    ensures Pack([a, b, c, d], x) == a + 8 * b + 64 * c + 512 * d + 4096 * x
  {
    assert [a, b, c, d][1..] == [b, c, d] && [b, c, d][1..] == [c, d];
    PackTwo(c, d, x);
  }

  lemma FieldsAre()
    ensures |FIELDS| == 19 && Pack(FIELDS, 0x7d6fe) == 0xfadfc10000000000440
    ensures FIELDS[..19] == FIELDS && FIELDS[19..] == []
    ensures forall i | 0 <= i < 19 :: FIELDS[i] < 8
  {
    hide Pack;
    var zeros: seq<nat>, end: seq<nat> := [0, 0, 0, 0], [0, 2, 0];
    assert FIELDS == [0, 0, 1, 2] + (zeros + (zeros + (zeros + end)));
    EndIs(0x7d6fe);
    PackConcat(zeros, end, 0x7d6fe);
    PackConcat(zeros, zeros + end, 0x7d6fe);
    PackConcat(zeros, zeros + (zeros + end), 0x7d6fe);
    PackConcat([0, 0, 1, 2], zeros + (zeros + (zeros + end)), 0x7d6fe);
    PackFour(0, 0, 0, 0, 0xfadfc10);
    PackFour(0, 0, 0, 0, 0xfadfc10000);
    PackFour(0, 0, 0, 0, 0xfadfc10000000);
    PackFour(0, 0, 1, 2, 0xfadfc10000000000);
  }

  lemma EndIs(x: nat)
    ensures Pack([0, 2, 0], x) == 16 + 512 * x
  {
    assert [0, 2, 0][1..] == [2, 0];
    PackTwo(2, 0, x);
  }

  lemma LengthCodeOf(bits: Bitstring, fields: seq<nat>, code: seq<nat>, rest: Bitstring)
    requires |fields| == 19 && ThreeBitFields(bits, 19) == Some((fields, rest))
    requires CodeLengthCode(fields) == code && Accepted(code)
    ensures LengthsCode(bits, 19) == Some((code, rest))
  {
    hide ThreeBitFields, CodeLengthCode, Accepted;
  }

  lemma LengthCodeRead()
    ensures LengthsCode(LsbBits(0xfadfc10000000000440, 79), 19) == Some((LengthCode(), LsbBits(0x7d6fe, 22)))
  {
    hide ThreeBitFields, CodeLengthCode, Accepted, LengthCode, LsbBits, Pack;
    FieldsAre();
    FieldsOfNumber(FIELDS, 0x7d6fe, 79, 19);
    NothingPacked(0x7d6fe);
    LengthCodeFits();
    CodeIs();
    LengthCodeOf(LsbBits(0xfadfc10000000000440, 79), FIELDS, LengthCode(), LsbBits(0x7d6fe, 22));
  }

  lemma NothingPacked(x: nat)
    ensures Pack([], x) == x
  {
  }

  lemma BlockRead()
    ensures DynamicLengths(LsbBits(0x3eb7f040000000001103c00, 93)) == Some((257, Lengths(), LsbBits(0, 2)))
  {
    hide Lengths, CodedLengths, DynamicHeader, LengthsCode, LengthCode, LsbBits;
    HeaderRead();
    LengthCodeRead();
    LengthsRead();
  }

  // ---- the stream -----------------------------------------------------------------------------------

  lemma LengthsAreOk()
    ensures var l := Lengths();
            && CodesFrom(l, 257, true) == Some(Codes(l[..257], [0])) && Used(l[..257], 256)
            && IsPrefixCode(l[..257]) && CodesFrom(l, 257, false).None? && Code(l[..257], 256) == [false]
  {
    var l := Lengths();
    assert l == seq(256, i => 0) + [1] + [0];
    EmptyDistanceCodeRefused(l);
    assert l[257..] == [0] && l[..257][256] == 1;
    CountRun(l[..257], 0, 256, 0, 1);
  }

  /** The stream as bytes. */
  const BYTES: seq<Octet> := [0x05, 0xe0, 0x81, 0x08, 0x00, 0x00, 0x00, 0x00, 0x20, 0xf8, 0x5b, 0x1f]

  lemma BytesAre()
    ensures BytesToBits(BYTES) == LsbBits(0x1f5bf820000000000881e005, 96)
  {
    hide LsbBits, BytesToBits;
    BitsOfBytes(BYTES);
    assert LittleEndian(BYTES) == 0x1f5bf820000000000881e005;
  }

  lemma NothingInBlock()
    ensures var b := LsbBits(0x3eb7f040000000001103c00, 93);
            Block(2, b, [], true) == Some(([], [false])) && Block(2, b, [], false).None?
  {
    hide Lengths, DynamicLengths, Decode, CodesFrom, IsPrefixCode, LsbBits, Code;
    LengthsAreOk();
    BlockRead();
    var b, lit := LsbBits(0x3eb7f040000000001103c00, 93), Lengths()[..257];
    TwoZeros();
    DeflateEncoder.DecodeCode(lit, 256, [false]);
    assert CompressedBlock(Codes(lit, [0]), [false, false], []) == Some(([], [false]));
    assert DynamicCodes(b, true) == Some((Codes(lit, [0]), [false, false]));
    assert DynamicCodes(b, false).None?;
  }

  lemma TwoZeros()
    ensures LsbBits(0, 2) == [false, false] == [false] + [false]
  {
  }

  /** The bytes decode to nothing under the RFC, one padding bit being left, and have no meaning for the
      decoder. */
  lemma RefusedThoughValid()
    ensures Stream(BytesToBits(BYTES), [], true) == Some(([], [false]))
    ensures Stream(BytesToBits(BYTES), [], false).None?
  {
    hide Field, Block, LsbBits, BytesToBits;
    BytesAre();
    NothingInBlock();
    assert Pow2(1) == 2 && Pow2(2) == 4;
    FieldOfNumber(0x1f5bf820000000000881e005, 96, 1, 2);
    FieldOfNumber(0xfadfc10000000000440f002, 95, 2, 4);
  }

  /** So the decoder refuses them, however large the buffer. */
  method RefusedByDecoder(output: array<Octet>) returns (written: Option<nat>)
    modifies output
    ensures written == None
  {
    hide Stream, BytesToBits;
    RefusedThoughValid();
    written := InflateData(BYTES, output);
  }
}
