/** The DEFLATE decoder of src/lib/gzip.c, proved against the stream meaning of module Deflate.
    Every routine succeeds exactly when that meaning exists and fits the output buffer. */
module Inflate {
  import opened Prelude
  import opened Bits
  import opened BitStreams
  import opened HuffmanCodes
  import opened HuffmanTables
  import opened Deflate

  /** A meaning exists and its output fits `capacity` bytes. */
  ghost predicate Fits(meaning: Option<(seq<Octet>, Bitstring)>, capacity: nat) {
    meaning.Some? && |meaning.value.0| <= capacity
  }

  method BuildFixedTables() returns (literal: HuffmanTable, distance: HuffmanTable)
    ensures literal.Represents(FixedCodes().literal) && distance.Represents(FixedCodes().distance)
    ensures fresh(literal) && fresh(literal.counts) && fresh(literal.symbols)
    ensures fresh(distance) && fresh(distance.counts) && fresh(distance.symbols)
  {
    literal := new HuffmanTable();
    distance := new HuffmanTable();
    var literalLengths := seq(288, i => if i <= 143 then 8 else if i <= 255 then 9 else if i <= 279 then 7 else 8);
    var distanceLengths := seq(32, i => 5);
    FixedCodesAccepted();
    assert literalLengths == FixedCodes().literal && distanceLengths == FixedCodes().distance;
    var ok := literal.Build(literalLengths);
    ok := distance.Build(distanceLengths);
  }

  /** Copies a match within the output: in bulk when source and target are disjoint, byte by byte
      otherwise. */
  method CopyMatch(output: array<Octet>, written: nat, distance: nat, length: nat)
    requires 1 <= distance <= written && written + length <= output.Length
    modifies output
    ensures output[..written + length] == Copy(old(output[..written]), distance, length)
  {
    ghost var before := output[..written];
    var src := written - distance;
    if distance >= length {
      CopyBulk(output, written, src, length);
      CopyIsSlice(before, distance, length);
    } else {
      for i := 0 to length
        invariant output[..written + i] == Copy(before, distance, i)
      {
        output[written + i] := output[src + i];
        assert output[..written + i + 1] == output[..written + i] + [output[src + i]];
      }
    }
  }

  method CopyBulk(output: array<Octet>, written: nat, src: nat, length: nat)
    requires src + length <= written && written + length <= output.Length
    modifies output
    ensures output[..written + length] == old(output[..written]) + old(output[src..src + length])
  {
    forall i | 0 <= i < length {
      output[written + i] := output[src + i];
    }
  }

  // ---- dynamic tables -------------------------------------------------------

  method ReadCodeLengthCode(stream: BitStream, count: nat) returns (lengths: Option<seq<nat>>)
    requires stream.Valid() && count <= 19
    modifies stream
    ensures stream.Valid()
    ensures lengths.Some? <==> ThreeBitFields(old(stream.Rest()), count).Some?
    ensures lengths.Some? ==>
              var fields := ThreeBitFields(old(stream.Rest()), count).value;
              lengths.value == CodeLengthCode(fields.0) && stream.Rest() == fields.1
  {
    ghost var all := stream.Rest();
    var acc := seq(19, i => 0);
    for i := 0 to count
      invariant stream.Valid()
      invariant ThreeBitFields(all, i).Some?
      invariant stream.Rest() == ThreeBitFields(all, i).value.1
      invariant acc == CodeLengthCode(ThreeBitFields(all, i).value.0)
    {
      var value := stream.ReadBits(3);
      if value.None? {
        ThreeBitFieldsFail(all, i + 1, count);
        return None;
      }
      CodeLengthCodeStep(ThreeBitFields(all, i).value.0, value.value);
      acc := acc[CODE_ORDER[i] := value.value];
    }
    return Some(acc);
  }

  lemma {:induction false} ThreeBitFieldsFail(bits: Bitstring, i: nat, n: nat)
    requires i <= n && ThreeBitFields(bits, i).None?
    ensures ThreeBitFields(bits, n).None?
  {
    if i < n { ThreeBitFieldsFail(bits, i, n - 1); }
  }

  /** Reads the run-length-coded code lengths of both alphabets. */
  method ReadCodedLengths(stream: BitStream, table: HuffmanTable, ghost code: seq<nat>, total: nat)
    returns (lengths: Option<seq<nat>>)
    requires stream.Valid() && table.Represents(code)
    modifies stream
    ensures stream.Valid()
    ensures lengths.Some? <==> CodedLengths(code, old(stream.Rest()), [], total).Some?
    ensures lengths.Some? ==> CodedLengths(code, old(stream.Rest()), [], total) == Some((lengths.value, stream.Rest()))
  {
    hide BitStream.Rest, BitStream.Valid, HuffmanTable.Represents;
    ghost var all := stream.Rest();
    var acc: seq<nat> := [];
    while |acc| < total
      invariant stream.Valid() && |acc| <= total
      invariant CodedLengths(code, all, [], total) == CodedLengths(code, stream.Rest(), acc, total)
      decreases |stream.Rest()|
    {
      var symbol := DecodeSymbol(stream, table, code);
      if symbol.None? {
        return None;
      }
      if symbol.value <= 15 {
        acc := acc + [symbol.value];
        continue;
      }
      var run := ReadRun(stream, symbol.value, acc);
      if run.None? || run.value.1 > total - |acc| {
        return None;
      }
      acc := acc + Repeat(run.value.0, run.value.1);
    }
    return Some(acc);
  }

  /** The repeated length and the repeat count that code-length symbol `symbol` stands for. */
  ghost function Run(bits: Bitstring, symbol: nat, acc: seq<nat>): (r: Option<(nat, nat, Bitstring)>) {
    if symbol == 16 then
      if acc == [] then None
      else
        var (v, rest) :- Field(bits, 2);
        Some((acc[|acc| - 1], v + 3, rest))
    else if symbol == 17 then
      var (v, rest) :- Field(bits, 3);
      Some((0, v + 3, rest))
    else if symbol == 18 then
      var (v, rest) :- Field(bits, 7);
      Some((0, v + 11, rest))
    else None
  }

  method ReadRun(stream: BitStream, symbol: nat, acc: seq<nat>) returns (run: Option<(nat, nat)>)
    requires stream.Valid()
    modifies stream
    ensures stream.Valid()
    ensures run.Some? <==> Run(old(stream.Rest()), symbol, acc).Some?
    ensures run.Some? ==> Run(old(stream.Rest()), symbol, acc) == Some((run.value.0, run.value.1, stream.Rest()))
    ensures |stream.Rest()| <= |old(stream.Rest())|
  {
    hide LsbValue, Pow2;
    var value: Option<nat>;
    if symbol == 16 {
      if acc == [] {
        return None;
      }
      value := stream.ReadBits(2);
      if value.None? {
        return None;
      }
      return Some((acc[|acc| - 1], value.value + 3));
    } else if symbol == 17 {
      value := stream.ReadBits(3);
      if value.None? {
        return None;
      }
      return Some((0, value.value + 3));
    } else if symbol == 18 {
      value := stream.ReadBits(7);
      if value.None? {
        return None;
      }
      return Some((0, value.value + 11));
    }
    return None;
  }

  method ReadDynamicHeader(stream: BitStream) returns (header: Option<(nat, nat, nat)>)
    requires stream.Valid()
    modifies stream
    ensures stream.Valid()
    ensures header.Some? <==> DynamicHeader(old(stream.Rest())).Some?
    ensures header.Some? ==>
              var (literals, distances, codeLengths) := header.value;
              DynamicHeader(old(stream.Rest())) == Some((literals, distances, codeLengths, stream.Rest()))
  {
    var value := stream.ReadBits(5);
    if value.None? {
      return None;
    }
    var literalCount := value.value + 257;
    value := stream.ReadBits(5);
    if value.None? {
      return None;
    }
    var distanceCount := value.value + 1;
    value := stream.ReadBits(4);
    if value.None? {
      return None;
    }
    Pow2Values();
    if literalCount > 286 || distanceCount > 32 {
      return None;
    }
    return Some((literalCount, distanceCount, value.value + 4));
  }

  method BuildFromLengths(lengths: seq<nat>, literals: nat, literal: HuffmanTable, distance: HuffmanTable)
    returns (ok: bool)
    requires 257 <= literals <= 286 && literals <= |lengths| <= literals + 32
    requires literal.Shaped() && distance.Shaped()
    requires {literal.counts, literal.symbols} !! {distance.counts, distance.symbols}
    modifies literal.counts, literal.symbols, distance.counts, distance.symbols
    ensures ok <==> CodesFrom(lengths, literals, false).Some?
    ensures ok ==> literal.Represents(lengths[..literals]) && distance.Represents(lengths[literals..])
  {
    if lengths[256] == 0 {
      return false;
    }
    ok := literal.Build(lengths[..literals]);
    if !ok {
      return false;
    }
    ok := distance.Build(lengths[literals..]);
  }

  method ReadLengthsCode(stream: BitStream, n: nat, table: HuffmanTable) returns (ok: bool, ghost code: seq<nat>)
    requires stream.Valid() && n <= 19 && table.Shaped()
    modifies stream, table.counts, table.symbols
    ensures stream.Valid()
    ensures ok <==> LengthsCode(old(stream.Rest()), n).Some?
    ensures ok ==> LengthsCode(old(stream.Rest()), n) == Some((code, stream.Rest())) && table.Represents(code)
  {
    var lengths := ReadCodeLengthCode(stream, n);
    if lengths.None? {
      return false, [];
    }
    code := lengths.value;
    ok := table.Build(lengths.value);
  }

  method ReadDynamicLengths(stream: BitStream) returns (r: Option<(nat, seq<nat>)>)
    requires stream.Valid()
    modifies stream
    ensures stream.Valid()
    ensures r.Some? <==> DynamicLengths(old(stream.Rest())).Some?
    ensures r.Some? ==> DynamicLengths(old(stream.Rest())) == Some((r.value.0, r.value.1, stream.Rest()))
  {
    hide BitStream.Rest, BitStream.Valid, HuffmanTable.Represents, DynamicHeader, LengthsCode, CodedLengths;
    var header := ReadDynamicHeader(stream);
    if header.None? {
      return None;
    }
    var (literals, distances, codeLengths) := header.value;
    var table := new HuffmanTable();
    var ok, code := ReadLengthsCode(stream, codeLengths, table);
    if !ok {
      return None;
    }
    var lengths := ReadCodedLengths(stream, table, code, literals + distances);
    if lengths.None? {
      return None;
    }
    return Some((literals, lengths.value));
  }

  method BuildDynamicTables(stream: BitStream, literal: HuffmanTable, distance: HuffmanTable)
    returns (ok: bool, ghost codes: Codes)
    requires stream.Valid() && literal.Shaped() && distance.Shaped()
    requires {literal.counts, literal.symbols} !! {distance.counts, distance.symbols}
    modifies stream, literal.counts, literal.symbols, distance.counts, distance.symbols
    ensures stream.Valid()
    ensures ok <==> DynamicCodes(old(stream.Rest()), false).Some?
    ensures ok ==> DynamicCodes(old(stream.Rest()), false) == Some((codes, stream.Rest()))
    ensures ok ==> literal.Represents(codes.literal) && distance.Represents(codes.distance)
  {
    var dynamic := ReadDynamicLengths(stream);
    if dynamic.None? {
      return false, Codes([], []);
    }
    var (literals, lengths) := dynamic.value;
    codes := Codes(lengths[..literals], lengths[literals..]);
    ok := BuildFromLengths(lengths, literals, literal, distance);
  }

  // ---- blocks ---------------------------------------------------------------

  method ReadLength(stream: BitStream, symbol: nat) returns (length: Option<nat>)
    requires stream.Valid() && 257 <= symbol <= 285
    modifies stream
    ensures stream.Valid()
    ensures length.Some? <==> MatchLength(old(stream.Rest()), symbol).Some?
    ensures length.Some? ==> MatchLength(old(stream.Rest()), symbol) == Some((length.value, stream.Rest()))
  {
    hide BitStream.Rest, BitStream.Valid;
    ExtraBounds(symbol - 257, 0);
    var extra := stream.ReadBits(LENGTH_EXTRA[symbol - 257]);
    if extra.None? {
      return None;
    }
    return Some(LENGTH_BASE[symbol - 257] + extra.value);
  }

  method ExtendDistance(stream: BitStream, d: nat) returns (distance: Option<nat>)
    requires stream.Valid()
    modifies stream
    ensures stream.Valid()
    ensures distance.Some? <==> DistanceExtended(old(stream.Rest()), d).Some?
    ensures distance.Some? ==> DistanceExtended(old(stream.Rest()), d) == Some((distance.value, stream.Rest()))
  {
    hide BitStream.Rest, BitStream.Valid;
    if d >= 30 {
      return None;
    }
    ExtraBounds(0, d);
    var extra := stream.ReadBits(DISTANCE_EXTRA[d]);
    if extra.None? {
      return None;
    }
    return Some(DISTANCE_BASE[d] + extra.value);
  }

  lemma ExtraBounds(l: nat, d: nat)
    requires l < 29 && d < 30
    ensures LENGTH_EXTRA[l] <= MAX_READ && DISTANCE_EXTRA[d] <= MAX_READ
  {
  }

  method ReadDistance(stream: BitStream, table: HuffmanTable, ghost code: seq<nat>) returns (distance: Option<nat>)
    requires stream.Valid() && table.Represents(code)
    modifies stream
    ensures stream.Valid()
    ensures distance.Some? <==> MatchDistance(code, old(stream.Rest())).Some?
    ensures distance.Some? ==> MatchDistance(code, old(stream.Rest())) == Some((distance.value, stream.Rest()))
  {
    var d := DecodeSymbol(stream, table, code);
    if d.None? {
      return None;
    }
    distance := ExtendDistance(stream, d.value);
  }

  /** Appends the buffered literals to the output. */
  method Flush(output: array<Octet>, written: nat, literals: seq<Octet>)
    requires written + |literals| <= output.Length
    modifies output
    ensures output[..written + |literals|] == old(output[..written]) + literals
  {
    forall i | 0 <= i < |literals| {
      output[written + i] := literals[i];
    }
  }

  /** Reads a match, flushes the literals buffered before it and copies it. */
  method InflateMatch(stream: BitStream, output: array<Octet>, start: nat, literals: seq<Octet>,
                      table: HuffmanTable, ghost codes: Codes, symbol: nat)
    returns (ok: bool, written: nat)
    requires stream.Valid() && start + |literals| <= output.Length
    requires table.Represents(codes.distance)
    requires {table.counts, table.symbols} !! {output as object}
    requires 257 <= symbol <= 285
    modifies stream, output
    ensures stream.Valid() && written <= output.Length
    ensures ok <==> Fits(Match(codes, old(stream.Rest()), symbol, old(output[..start]) + literals), output.Length)
    ensures ok ==> Match(codes, old(stream.Rest()), symbol, old(output[..start]) + literals)
                   == Some((output[..written], stream.Rest()))
  {
    hide BitStream.Rest, BitStream.Valid, HuffmanTable.Represents, MatchLength, MatchDistance, Copy;
    written := start;
    var length := ReadLength(stream, symbol);
    if length.None? {
      return false, written;
    }
    var distance := ReadDistance(stream, table, codes.distance);
    if distance.None? {
      return false, written;
    }
    Flush(output, written, literals);
    written := written + |literals|;
    if distance.value > written || length.value > output.Length - written {
      return false, written;
    }
    CopyMatch(output, written, distance.value, length.value);
    ok, written := true, written + length.value;
  }

  /** Decodes one block with the given tables.  Literals are collected sixteen at a time. */
  method InflateCompressedBlock(stream: BitStream, output: array<Octet>, start: nat,
                                literal: HuffmanTable, distance: HuffmanTable, ghost codes: Codes)
    returns (ok: bool, written: nat)
    requires stream.Valid() && start <= output.Length
    requires literal.Represents(codes.literal) && distance.Represents(codes.distance)
    requires {literal.counts, literal.symbols, distance.counts, distance.symbols} !! {output as object}
    modifies stream, output
    ensures stream.Valid() && written <= output.Length
    ensures ok <==> Fits(CompressedBlock(codes, old(stream.Rest()), old(output[..start])), output.Length)
    ensures ok ==> CompressedBlock(codes, old(stream.Rest()), old(output[..start]))
                   == Some((output[..written], stream.Rest()))
  {
    hide BitStream.Rest, BitStream.Valid, HuffmanTable.Represents, Match;
    ghost var meaning := CompressedBlock(codes, stream.Rest(), output[..start]);
    var literals: seq<Octet> := [];
    written := start;
    assert output[..written] + [] == output[..written];
    while true
      invariant stream.Valid() && written + |literals| <= output.Length && |literals| < 16
      invariant literal.Represents(codes.literal) && distance.Represents(codes.distance)
      invariant meaning == CompressedBlock(codes, stream.Rest(), output[..written] + literals)
      decreases |stream.Rest()|
    {
      var symbol := DecodeSymbol(stream, literal, codes.literal);
      if symbol.None? {
        return false, written;
      }
      if symbol.value < 256 {
        if written + |literals| + 1 > output.Length {
          return false, written;
        }
        assert output[..written] + literals + [symbol.value] == output[..written] + (literals + [symbol.value]);
        literals := literals + [symbol.value];
        if |literals| == 16 {
          Flush(output, written, literals);
          written := written + 16;
          literals := [];
          assert output[..written] + [] == output[..written];
        }
        continue;
      }
      if symbol.value == 256 {
        Flush(output, written, literals);
        return true, written + |literals|;
      }
      if symbol.value > 285 {
        return false, written;
      }
      ok, written := InflateMatch(stream, output, written, literals, distance, codes, symbol.value);
      if !ok {
        return false, written;
      }
      literals := [];
      assert output[..written] + [] == output[..written];
    }
  }

  /** Copies a stored block, whose length field must be followed by its complement. */
  method InflateStoredBlock(stream: BitStream, output: array<Octet>, start: nat) returns (ok: bool, written: nat)
    requires stream.Valid() && start <= output.Length
    modifies stream, output
    ensures stream.Valid() && written <= output.Length
    ensures ok <==> Fits(StoredBlock(old(stream.Rest()), old(output[..start])), output.Length)
    ensures ok ==> StoredBlock(old(stream.Rest()), old(output[..start])) == Some((output[..written], stream.Rest()))
  {
    hide BitStream.Rest, BitStream.Valid, StoredBytes;
    written := start;
    stream.AlignToByte();
    var length := stream.ReadBits(16);
    if length.None? {
      return false, written;
    }
    var inverted := stream.ReadBits(16);
    if inverted.None? {
      return false, written;
    }
    if 65535 - length.value != inverted.value || length.value > output.Length - written {
      return false, written;
    }
    ok, written := CopyStored(stream, output, written, length.value);
  }

  method CopyStored(stream: BitStream, output: array<Octet>, start: nat, length: nat) returns (ok: bool, written: nat)
    requires stream.Valid() && start + length <= output.Length
    modifies stream, output
    ensures stream.Valid() && written <= output.Length
    ensures ok <==> StoredBytes(old(stream.Rest()), old(output[..start]), length).Some?
    ensures ok ==> StoredBytes(old(stream.Rest()), old(output[..start]), length)
                   == Some((output[..written], stream.Rest()))
  {
    hide BitStream.Rest, BitStream.Valid;
    ghost var all, before := stream.Rest(), output[..start];
    written := start;
    for i := 0 to length
      invariant stream.Valid() && written == start + i
      invariant StoredBytes(all, before, i) == Some((output[..written], stream.Rest()))
    {
      var byte := stream.ReadBits(8);
      if byte.None? {
        StoredBytesFail(all, before, i + 1, length);
        return false, written;
      }
      Pow2Values();
      output[written] := byte.value;
      written := written + 1;
      assert output[..written] == output[..written - 1] + [byte.value];
    }
    return true, written;
  }

  lemma {:induction false} StoredBytesFail(bits: Bitstring, out: seq<Octet>, i: nat, n: nat)
    requires i <= n && StoredBytes(bits, out, i).None?
    ensures StoredBytes(bits, out, n).None?
  {
    if i < n { StoredBytesFail(bits, out, i, n - 1); }
  }

  /** Decodes the body of one block of type `kind`. */
  method InflateBlock(stream: BitStream, output: array<Octet>, start: nat, kind: nat) returns (ok: bool, written: nat)
    requires stream.Valid() && start <= output.Length
    modifies stream, output
    ensures stream.Valid() && written <= output.Length
    ensures ok <==> Fits(Block(kind, old(stream.Rest()), old(output[..start]), false), output.Length)
    ensures ok ==> Block(kind, old(stream.Rest()), old(output[..start]), false)
                   == Some((output[..written], stream.Rest()))
  {
    hide BitStream.Rest, BitStream.Valid, HuffmanTable.Represents, StoredBlock, CompressedBlock, DynamicCodes;
    if kind == 0 {
      ok, written := InflateStoredBlock(stream, output, start);
    } else if kind == 1 {
      var literal, distance := BuildFixedTables();
      ok, written := InflateCompressedBlock(stream, output, start, literal, distance, FixedCodes());
    } else if kind == 2 {
      var literal := new HuffmanTable();
      var distance := new HuffmanTable();
      var built, codes := BuildDynamicTables(stream, literal, distance);
      if !built {
        return false, start;
      }
      ok, written := InflateCompressedBlock(stream, output, start, literal, distance, codes);
    } else {
      return false, start;
    }
  }

  /** Inflates a raw DEFLATE stream into `output`.  It succeeds exactly when the stream has a
      meaning that fits the buffer, and then the bytes written are that meaning. */
  method InflateData(input: seq<Octet>, output: array<Octet>) returns (written: Option<nat>)
    modifies output
    ensures written.Some? <==> Fits(Stream(BytesToBits(input), [], false), output.Length)
    ensures written.Some? ==>
              && written.value <= output.Length
              && Stream(BytesToBits(input), [], false).value.0 == output[..written.value]
  {
    hide BitStream.Rest, BitStream.Valid, Block;
    ghost var meaning := Stream(BytesToBits(input), [], false);
    var stream := new BitStream(input);
    var offset: nat := 0;
    assert output[..0] == [];
    while true
      invariant stream.Valid() && offset <= output.Length && fresh(stream)
      invariant meaning == Stream(stream.Rest(), output[..offset], false)
      decreases |stream.Rest()|
    {
      var final := stream.ReadBits(1);
      if final.None? {
        return None;
      }
      var kind := stream.ReadBits(2);
      if kind.None? {
        return None;
      }
      var ok;
      ok, offset := InflateBlock(stream, output, offset, kind.value);
      if !ok {
        return None;
      }
      if final.value != 0 {
        return Some(offset);
      }
    }
  }
}
