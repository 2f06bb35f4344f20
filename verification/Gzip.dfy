/** The gzip container of src/lib/gzip.c (sections 2.3 and 2.3.1 of RFC 1952) around the DEFLATE
    decoder: header fields, then the compressed data, then the CRC-32 and size of the result. */
module Gzip {
  import opened Prelude
  import opened Bits
  import opened Deflate
  import opened Inflate
  import Crc32

  datatype Outcome = Data(bytes: seq<Octet>) | Invalid | NoMemory

  // ---- what a member means ---------------------------------------------------------

  predicate Flag(flags: Octet, bit: nat)
    requires bit < 8
  {
    flags / Pow2(bit) % 2 == 1
  }

  /** Where the field that ends with a zero byte ends, if it does before `limit`. */
  function AfterZero(input: seq<Octet>, limit: nat, offset: nat): (r: Option<nat>)
    requires limit <= |input|
    ensures r.Some? ==> offset < r.value <= limit
    decreases limit - offset
  {
    if offset >= limit then None
    else if input[offset] == 0 then Some(offset + 1)
    else AfterZero(input, limit, offset + 1)
  }

  function Le16(low: Octet, high: Octet): nat { low + 0x100 * (high as int) }

  function AfterExtra(input: seq<Octet>, limit: nat, offset: nat): (r: Option<nat>)
    requires limit <= |input|
    ensures r.Some? ==> offset <= r.value <= limit
  {
    if offset + 2 > limit then None
    else
      var size := Le16(input[offset], input[offset + 1]);
      if offset + 2 + size > limit then None else Some(offset + 2 + size)
  }

  function AfterHeaderCrc(limit: nat, offset: nat): (r: Option<nat>)
    ensures r.Some? ==> offset <= r.value <= limit
  {
    if offset + 2 > limit then None else Some(offset + 2)
  }

  /** The offset of the compressed data. */
  function HeaderEnd(input: seq<Octet>): (r: Option<nat>)
    requires |input| >= 18
    ensures r.Some? ==> 10 <= r.value < |input| - 8
  {
    var flags, limit := input[3], |input| - 8;
    if input[0] != 0x1f || input[1] != 0x8b || input[2] != 8 || flags >= 0x20 then None
    else
      var o1 :- if Flag(flags, 2) then AfterExtra(input, limit, 10) else Some(10);
      var o2 :- if Flag(flags, 3) then AfterZero(input, limit, o1) else Some(o1);
      var o3 :- if Flag(flags, 4) then AfterZero(input, limit, o2) else Some(o2);
      var o4 :- if Flag(flags, 1) then AfterHeaderCrc(limit, o3) else Some(o3);
      if o4 >= limit then None else Some(o4)
  }

  function LoadLe32(s: seq<Octet>): nat
    requires |s| == 4
  {
    Le16(s[0], s[1]) + 0x10000 * Le16(s[2], s[3])
  }

  function Bytes(s: seq<Octet>): seq<bv8> {
    seq(|s|, i requires 0 <= i < |s| => s[i] as bv8)
  }

  function CrcOf(s: seq<Octet>): nat { Crc32.Crc(Bytes(s)) as nat }

  /** The contents of a gzip member, if it is well formed and its two checks hold. */
  ghost function Contents(input: seq<Octet>): Option<seq<Octet>> {
    if |input| < 18 then None
    else
      var offset :- HeaderEnd(input);
      var trailer := |input| - 8;
      var (out, rest) :- Stream(BytesToBits(input[offset..trailer]), [], false);
      if |out| == LoadLe32(input[trailer + 4..]) && CrcOf(out) == LoadLe32(input[trailer..trailer + 4])
      then Some(out)
      else None
  }

  // ---- the decoder -------------------------------------------------------------------

  method SkipZeroTerminatedField(input: seq<Octet>, limit: nat, offset: nat) returns (r: Option<nat>)
    requires limit <= |input|
    ensures r == AfterZero(input, limit, offset)
  {
    var o := offset;
    while o < limit && input[o] != 0
      invariant AfterZero(input, limit, offset) == AfterZero(input, limit, o)
    {
      o := o + 1;
    }
    if o >= limit {
      return None;
    }
    return Some(o + 1);
  }

  method SkipExtraField(input: seq<Octet>, limit: nat, offset: nat) returns (r: Option<nat>)
    requires limit <= |input|
    ensures r == AfterExtra(input, limit, offset)
  {
    if offset + 2 > limit {
      return None;
    }
    var size := Le16(input[offset], input[offset + 1]);
    if size > limit - (offset + 2) {
      return None;
    }
    return Some(offset + 2 + size);
  }

  method ParseHeader(input: seq<Octet>) returns (r: Option<nat>)
    requires |input| >= 18
    ensures r == HeaderEnd(input)
  {
    hide Flag, AfterZero, AfterExtra;
    var flags := input[3];
    if input[0] != 0x1f || input[1] != 0x8b || input[2] != 8 || flags >= 0x20 {
      return None;
    }
    var offset, trailer := 10, |input| - 8;
    if Flag(flags, 2) {
      var next := SkipExtraField(input, trailer, offset);
      if next.None? {
        return None;
      }
      offset := next.value;
    }
    if Flag(flags, 3) {
      var next := SkipZeroTerminatedField(input, trailer, offset);
      if next.None? {
        return None;
      }
      offset := next.value;
    }
    if Flag(flags, 4) {
      var next := SkipZeroTerminatedField(input, trailer, offset);
      if next.None? {
        return None;
      }
      offset := next.value;
    }
    if Flag(flags, 1) {
      if offset + 2 > trailer {
        return None;
      }
      offset := offset + 2;
    }
    if offset >= trailer {
      return None;
    }
    return Some(offset);
  }

  /** Decompresses one member into a buffer of the size its trailer announces; `memory` says whether
      such a buffer could be allocated. */
  method Decompress(input: seq<Octet>, memory: bool) returns (r: Outcome)
    ensures r.Data? ==> Contents(input) == Some(r.bytes)
    ensures r.Invalid? ==> Contents(input) == None
    ensures r.NoMemory? ==> !memory
    ensures memory && Contents(input).Some? ==> r == Data(Contents(input).value)
  {
    hide HeaderEnd, Stream, CrcOf;
    if |input| < 18 {
      return Invalid;
    }
    var header := ParseHeader(input);
    if header.None? {
      return Invalid;
    }
    var offset, trailer := header.value, |input| - 8;
    var expected := LoadLe32(input[trailer + 4..]);
    if !memory {
      return NoMemory;
    }
    var result := new Octet[expected](i => 0);
    var written := InflateData(input[offset..trailer], result);
    if written.None? || written.value != expected {
      return Invalid;
    }
    var crc := ChecksumOf(result[..expected]);
    if crc != LoadLe32(input[trailer..trailer + 4]) {
      return Invalid;
    }
    return Data(result[..expected]);
  }

  method ChecksumOf(s: seq<Octet>) returns (crc: nat)
    ensures crc == CrcOf(s)
  {
    var c := Crc32.BitwiseCrc(Bytes(s));
    crc := c as nat;
  }

  // ---- every member the RFC's grammar produces decompresses to its contents ---------------

  datatype Header = Header(fixed: seq<Octet>, extra: Option<seq<Octet>>, name: Option<seq<Octet>>,
                           comment: Option<seq<Octet>>, crc: Option<seq<Octet>>)

  predicate WellFormed(h: Header) {
    && |h.fixed| == 6
    && (h.extra.Some? ==> |h.extra.value| < 65536)
    && (h.name.Some? ==> 0 !in h.name.value)
    && (h.comment.Some? ==> 0 !in h.comment.value)
    && (h.crc.Some? ==> |h.crc.value| == 2)
  }

  function Flags(h: Header): Octet {
    Bit(h.crc.Some?) * 2 + Bit(h.extra.Some?) * 4 + Bit(h.name.Some?) * 8 + Bit(h.comment.Some?) * 16
  }

  function ExtraField(h: Header): seq<Octet>
    requires WellFormed(h)
  {
    if h.extra.None? then [] else [|h.extra.value| % 256, |h.extra.value| / 256] + h.extra.value
  }

  function ZeroEnded(field: Option<seq<Octet>>): seq<Octet> {
    if field.None? then [] else field.value + [0]
  }

  function CrcField(h: Header): seq<Octet> { if h.crc.None? then [] else h.crc.value }

  function HeaderBytes(h: Header): seq<Octet>
    requires WellFormed(h)
  {
    [0x1f, 0x8b, 8, Flags(h)] + h.fixed + ExtraField(h) + ZeroEnded(h.name) + ZeroEnded(h.comment) + CrcField(h)
  }

  function StoreLe32(v: nat): (s: seq<Octet>)
    ensures |s| == 4
  {
    var low, high := v % 65536, v / 65536 % 65536;
    [low % 256, low / 256, high % 256, high / 256]
  }

  function Member(h: Header, body: seq<Octet>, out: seq<Octet>): seq<Octet>
    requires WellFormed(h)
  {
    HeaderBytes(h) + body + (StoreLe32(CrcOf(out)) + StoreLe32(|out|))
  }

  lemma Le32RoundTrip(v: nat)
    requires v < 0x1_0000_0000
    ensures LoadLe32(StoreLe32(v)) == v
  {
    assert v / 65536 < 65536;
    Le16RoundTrip(v % 65536);
    Le16RoundTrip(v / 65536);
  }

  lemma Le16RoundTrip(x: nat)
    requires x < 65536
    ensures x / 256 < 256 && Le16(x % 256, x / 256) == x
  {
  }

  lemma FlagsRead(h: Header)
    ensures Flags(h) < 0x20
    ensures Flag(Flags(h), 1) == h.crc.Some? && Flag(Flags(h), 2) == h.extra.Some?
    ensures Flag(Flags(h), 3) == h.name.Some? && Flag(Flags(h), 4) == h.comment.Some?
  {
    assert Pow2(1) == 2 && Pow2(2) == 4 && Pow2(3) == 8 && Pow2(4) == 16;
  }

  lemma {:induction false} AfterZeroSkips(input: seq<Octet>, limit: nat, offset: nat, field: seq<Octet>)
    requires offset + |field| < limit <= |input|
    requires input[offset..offset + |field|] == field && 0 !in field && input[offset + |field|] == 0
    ensures AfterZero(input, limit, offset) == Some(offset + |field| + 1)
    decreases |field|
  {
    if field != [] {
      assert input[offset] == field[0];
      AfterZeroSkips(input, limit, offset + 1, field[1..]);
    }
  }

  lemma ZeroEndedRead(input: seq<Octet>, limit: nat, offset: nat, field: Option<seq<Octet>>)
    requires offset + |ZeroEnded(field)| <= limit <= |input|
    requires input[offset..offset + |ZeroEnded(field)|] == ZeroEnded(field)
    requires field.Some? ==> 0 !in field.value
    ensures (if field.Some? then AfterZero(input, limit, offset) else Some(offset))
         == Some(offset + |ZeroEnded(field)|)
  {
    if field.Some? {
      var n := |field.value|;
      var window := input[offset..offset + n + 1];
      assert input[offset..offset + n] == window[..n] == field.value;
      assert input[offset + n] == window[n] == 0;
      AfterZeroSkips(input, limit, offset, field.value);
    }
  }

  lemma ExtraRead(input: seq<Octet>, limit: nat, h: Header)
    requires WellFormed(h) && 10 + |ExtraField(h)| <= limit <= |input|
    requires input[10..10 + |ExtraField(h)|] == ExtraField(h)
    ensures (if h.extra.Some? then AfterExtra(input, limit, 10) else Some(10)) == Some(10 + |ExtraField(h)|)
  {
    if h.extra.Some? {
      var window := input[10..10 + |ExtraField(h)|];
      assert input[10] == window[0] == |h.extra.value| % 256;
      assert input[11] == window[1] == |h.extra.value| / 256;
    }
  }

  lemma HeaderSlices(h: Header, tail: seq<Octet>)
    requires WellFormed(h)
    ensures var input := HeaderBytes(h) + tail;
            var o1 := 10 + |ExtraField(h)|;
            var o2 := o1 + |ZeroEnded(h.name)|;
            var o3 := o2 + |ZeroEnded(h.comment)|;
            && |HeaderBytes(h)| == o3 + |CrcField(h)|
            && input[0] == 0x1f && input[1] == 0x8b && input[2] == 8 && input[3] == Flags(h)
            && input[10..o1] == ExtraField(h)
            && input[o1..o2] == ZeroEnded(h.name)
            && input[o2..o3] == ZeroEnded(h.comment)
  {
    hide Flags, ExtraField, ZeroEnded, CrcField;
  }

  /** The header parser stops exactly at the end of any header the grammar produces. */
  lemma HeaderRead(h: Header, tail: seq<Octet>)
    requires WellFormed(h) && |tail| > 8
    ensures var input := HeaderBytes(h) + tail;
            |input| >= 18 && HeaderEnd(input) == Some(|HeaderBytes(h)|)
  {
    hide Flag, Flags, AfterZero, AfterExtra, HeaderBytes, ExtraField, ZeroEnded;
    var input := HeaderBytes(h) + tail;
    var limit := |input| - 8;
    FlagsRead(h);
    var o1 := 10 + |ExtraField(h)|;
    var o2 := o1 + |ZeroEnded(h.name)|;
    var o3 := o2 + |ZeroEnded(h.comment)|;
    HeaderSlices(h, tail);
    ExtraRead(input, limit, h);
    ZeroEndedRead(input, limit, o1, h.name);
    ZeroEndedRead(input, limit, o2, h.comment);
  }

  /** Every well-formed member means the contents it was made from. */
  lemma MemberMeansContents(h: Header, body: seq<Octet>, out: seq<Octet>, rest: Bitstring)
    requires WellFormed(h) && body != [] && |out| < 0x1_0000_0000
    requires Stream(BytesToBits(body), [], false) == Some((out, rest))
    ensures Contents(Member(h, body, out)) == Some(out)
  {
    hide HeaderEnd, HeaderBytes, Stream, CrcOf, LoadLe32, StoreLe32;
    var head, crc, size := HeaderBytes(h), StoreLe32(CrcOf(out)), StoreLe32(|out|);
    var input := Member(h, body, out);
    var trailer := |input| - 8;
    assert input == head + (body + (crc + size));
    HeaderRead(h, body + (crc + size));
    assert input[|head|..trailer] == body;
    assert input[trailer..trailer + 4] == crc;
    assert input[trailer + 4..] == size;
    CrcBound(out);
    Le32RoundTrip(CrcOf(out));
    Le32RoundTrip(|out|);
  }

  lemma CrcBound(s: seq<Octet>)
    ensures CrcOf(s) < 0x1_0000_0000
  {
  }
}
