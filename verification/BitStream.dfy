/** The DEFLATE bit reader of src/lib/gzip.c: an input buffer, an offset into it, and a small
    accumulator of bits already taken from the buffer but not yet delivered. */
module BitStreams {
  import opened Prelude
  import opened Arith
  import opened Bits

  /** The widest field any caller reads at once. */
  const MAX_READ: nat := 16

  class BitStream {
    const data: seq<Octet>
    var offset: nat
    var bits: nat
    var bitCount: nat

    ghost predicate Valid()
      reads this
    {
      && offset <= |data|
      && bits < Pow2(bitCount)
      && bitCount < MAX_READ
    }

    /** The bits not yet delivered: the accumulator, then the untouched bytes. */
    ghost function Rest(): (bs: seq<bool>)
      requires Valid()
      reads this
    {
      LsbBits(bits, bitCount) + BytesToBits(data[offset..])
    }

    constructor (input: seq<Octet>)
      ensures Valid() && data == input
      ensures Rest() == BytesToBits(input)
    {
      data := input;
      offset, bits, bitCount := 0, 0, 0;
      new;
      assert data[0..] == data;
    }

    /** Delivers the next `count` bits as a number, or fails when fewer are left; a failure
        delivers nothing, although bytes may have moved into the accumulator.  Or-ing a byte in
        above the accumulated bits is written as an addition: `bits < Pow2(bitCount)` is what makes
        the two agree, and `bitCount < 24` what keeps the sum inside 32 bits. */
    method ReadBits(count: nat) returns (value: Option<nat>)
      requires Valid() && count <= MAX_READ
      modifies this
      ensures Valid()
      ensures value.Some? <==> count <= |old(Rest())|
      ensures value.Some? ==> value.value == LsbValue(old(Rest())[..count]) && Rest() == old(Rest())[count..]
      ensures value.Some? ==> value.value < Pow2(count)
      ensures value.None? ==> Rest() == old(Rest())
    {
      hide Pow2, LsbBits, BytesToBits, LsbValue;
      ghost var all := Rest();
      while bitCount < count
        invariant offset <= |data| && bits < Pow2(bitCount) && bitCount < 24
        invariant bitCount >= MAX_READ ==> bitCount < count + 8
        invariant LsbBits(bits, bitCount) + BytesToBits(data[offset..]) == all
        decreases |data| - offset
      {
        if offset >= |data| {
          return None;
        }
        RefillStep(bits, bitCount, data[offset..]);
        bits := bits + data[offset] * Pow2(bitCount);
        offset := offset + 1;
        bitCount := bitCount + 8;
      }
      TakeStep(bits, bitCount, count, BytesToBits(data[offset..]));
      value := Some(bits % Pow2(count));
      bits := bits / Pow2(count);
      bitCount := bitCount - count;
    }

    /** Drops the bits up to the next byte boundary of the input. */
    method AlignToByte()
      requires Valid()
      modifies this
      ensures Valid()
      ensures Rest() == old(Rest())[|old(Rest())| % 8..]
    {
      hide Pow2, LsbBits, BytesToBits, LsbValue;
      var discard := bitCount % 8;
      TakeStep(bits, bitCount, discard, BytesToBits(data[offset..]));
      PartialByte(bitCount, |data| - offset);
      bits := bits / Pow2(discard);
      bitCount := bitCount - discard;
    }
  }

  lemma RefillStep(bits: nat, bitCount: nat, rest: seq<Octet>)
    requires bits < Pow2(bitCount) && rest != []
    ensures 0 <= bits + rest[0] * Pow2(bitCount) < Pow2(bitCount + 8)
    ensures LsbBits(bits + rest[0] * Pow2(bitCount), bitCount + 8) + BytesToBits(rest[1..])
         == LsbBits(bits, bitCount) + BytesToBits(rest)
  {
    ByteAbove(bits, rest[0], bitCount);
    LsbBitsConcat(bits, bitCount, rest[0], 8);
  }

  lemma ByteAbove(bits: nat, byte: Octet, bitCount: nat)
    requires bits < Pow2(bitCount)
    ensures 0 <= bits + byte * Pow2(bitCount) < Pow2(bitCount + 8)
  {
    Pow2Add(8, bitCount);
    assert Pow2(8) == 256;
    MulMono(byte + 1, 256, Pow2(bitCount));
    MulSucc(byte, Pow2(bitCount));
  }

  lemma PartialByte(bitCount: nat, bytes: nat)
    ensures (bitCount + 8 * bytes) % 8 == bitCount % 8
  {
  }

  lemma DropBound(bits: nat, bitCount: nat, count: nat)
    requires bits < Pow2(bitCount) && count <= bitCount
    ensures 0 <= bits % Pow2(count) < Pow2(count)
    ensures 0 <= bits / Pow2(count) < Pow2(bitCount - count)
  {
    Pow2Add(bitCount - count, count);
    DivModBound(bits, Pow2(count), Pow2(bitCount - count));
  }

  /** What taking `count` bits off the accumulator does to the bits still to be delivered. */
  lemma TakeStep(bits: nat, bitCount: nat, count: nat, tail: seq<bool>)
    requires bits < Pow2(bitCount) && count <= bitCount
    ensures 0 <= bits % Pow2(count) < Pow2(count)
    ensures 0 <= bits / Pow2(count) < Pow2(bitCount - count)
    ensures LsbValue((LsbBits(bits, bitCount) + tail)[..count]) == bits % Pow2(count)
    ensures (LsbBits(bits, bitCount) + tail)[count..] == LsbBits(bits / Pow2(count), bitCount - count) + tail
  {
    DropBound(bits, bitCount, count);
    LsbBitsSplit(bits, bitCount, count);
    var all := LsbBits(bits, bitCount) + tail;
    assert all[..count] == LsbBits(bits, bitCount)[..count];
    assert all[count..] == LsbBits(bits, bitCount)[count..] + tail;
  }
}
