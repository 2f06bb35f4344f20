/** Streaming SHA-256 of src/crypto/crypto.c (sections 5.1.1 and 6.2.2 of FIPS 180-4): however a
    message is cut into chunks, the digest is the compression function folded over the padded
    message. */
module Sha256 {
  import opened Arith
  import opened Octets
  import Words

  const K: seq<bv32> :=
    [0x428a2f98, 0x71374491, 0xb5c0fbcf, 0xe9b5dba5, 0x3956c25b, 0x59f111f1, 0x923f82a4, 0xab1c5ed5]
    + [0xd807aa98, 0x12835b01, 0x243185be, 0x550c7dc3, 0x72be5d74, 0x80deb1fe, 0x9bdc06a7, 0xc19bf174]
    + [0xe49b69c1, 0xefbe4786, 0x0fc19dc6, 0x240ca1cc, 0x2de92c6f, 0x4a7484aa, 0x5cb0a9dc, 0x76f988da]
    + [0x983e5152, 0xa831c66d, 0xb00327c8, 0xbf597fc7, 0xc6e00bf3, 0xd5a79147, 0x06ca6351, 0x14292967]
    + [0x27b70a85, 0x2e1b2138, 0x4d2c6dfc, 0x53380d13, 0x650a7354, 0x766a0abb, 0x81c2c92e, 0x92722c85]
    + [0xa2bfe8a1, 0xa81a664b, 0xc24b8b70, 0xc76c51a3, 0xd192e819, 0xd6990624, 0xf40e3585, 0x106aa070]
    + [0x19a4c116, 0x1e376c08, 0x2748774c, 0x34b0bcb5, 0x391c0cb3, 0x4ed8aa4a, 0x5b9cca4f, 0x682e6ff3]
    + [0x748f82ee, 0x78a5636f, 0x84c87814, 0x8cc70208, 0x90befffa, 0xa4506ceb, 0xbef9a3f7, 0xc67178f2]

  const TWO64: nat := 0x1_0000_0000_0000_0000

  type Bytes = seq<bv8>

  /** A hash value, and the eight working variables of a compression. */
  datatype Hash = Hash(a: bv32, b: bv32, c: bv32, d: bv32, e: bv32, f: bv32, g: bv32, h: bv32)

  const H0: Hash :=
    Hash(0x6a09e667, 0xbb67ae85, 0x3c6ef372, 0xa54ff53a, 0x510e527f, 0x9b05688c, 0x1f83d9ab, 0x5be0cd19)

  // ---- the compression function -------------------------------------------------

  function Plus(x: bv32, y: bv32): bv32 { x + y }
  function Sum5(x: bv32, y: bv32, z: bv32, k: bv32, w: bv32): bv32 { x + y + z + k + w }

  function Rotr(x: bv32, n: bv6): bv32
    requires n <= 32
  {
    (x >> n) | (x << (32 - n))
  }

  function SmallSigma0(x: bv32): bv32 { Rotr(x, 7) ^ Rotr(x, 18) ^ (x >> 3) }
  function SmallSigma1(x: bv32): bv32 { Rotr(x, 17) ^ Rotr(x, 19) ^ (x >> 10) }
  function BigSigma0(x: bv32): bv32 { Rotr(x, 2) ^ Rotr(x, 13) ^ Rotr(x, 22) }
  function BigSigma1(x: bv32): bv32 { Rotr(x, 6) ^ Rotr(x, 11) ^ Rotr(x, 25) }
  function Ch(x: bv32, y: bv32, z: bv32): bv32 { (x & y) ^ (!x & z) }
  function Maj(x: bv32, y: bv32, z: bv32): bv32 { (x & y) ^ (x & z) ^ (y & z) }

  function WordAt(block: Bytes, i: nat): bv32
    requires |block| == 64 && i < 16
  {
    ((block[4 * i] as bv32) << 24) | ((block[4 * i + 1] as bv32) << 16)
    | ((block[4 * i + 2] as bv32) << 8) | (block[4 * i + 3] as bv32)
  }

  /** Word `t` of the message schedule. */
  function Schedule(block: Bytes, t: nat): bv32
    requires |block| == 64
  {
    if t < 16 then WordAt(block, t)
    else NextWord(Schedule(block, t - 16), Schedule(block, t - 15), Schedule(block, t - 7), Schedule(block, t - 2))
  }

  function NextWord(w16: bv32, w15: bv32, w7: bv32, w2: bv32): bv32 {
    w16 + SmallSigma0(w15) + w7 + SmallSigma1(w2)
  }

  function Round(v: Hash, k: bv32, w: bv32): Hash {
    var t1 := Sum5(v.h, BigSigma1(v.e), Ch(v.e, v.f, v.g), k, w);
    var t2 := Plus(BigSigma0(v.a), Maj(v.a, v.b, v.c));
    Hash(Plus(t1, t2), v.a, v.b, v.c, Plus(v.d, t1), v.e, v.f, v.g)
  }

  /** The working variables after `t` rounds. */
  function Rounds(v: Hash, block: Bytes, t: nat): Hash
    requires |block| == 64 && t <= 64
  {
    if t == 0 then v else Round(Rounds(v, block, t - 1), K[t - 1], Schedule(block, t - 1))
  }

  function AddHash(u: Hash, v: Hash): Hash {
    Hash(Plus(u.a, v.a), Plus(u.b, v.b), Plus(u.c, v.c), Plus(u.d, v.d),
         Plus(u.e, v.e), Plus(u.f, v.f), Plus(u.g, v.g), Plus(u.h, v.h))
  }

  function Compress(h: Hash, block: Bytes): Hash
    requires |block| == 64
  {
    AddHash(h, Rounds(h, block, 64))
  }

  /** Ch chooses: where `x` has ones it is `y`, elsewhere `z`. */
  lemma ChChooses(x: bv32, y: bv32, z: bv32)
    ensures Ch(x, y, z) & x == y & x && Ch(x, y, z) & !x == z & !x
  {
  }

  /** Maj is the majority: both of the first two, or the third and one of them. */
  lemma MajAgrees(x: bv32, y: bv32, z: bv32)
    ensures Maj(x, y, z) == (x & y) | (z & (x | y))
  {
  }

  /** A rotation undoes the opposite one, and moves bit 0 to bit 32 - n. */
  lemma RotrIs(x: bv32, n: bv6)
    requires 0 < n < 32
    ensures Rotr(Rotr(x, n), 32 - n) == x && Rotr(1, n) == 1 << (32 - n)
  {
  }

  // ---- padding and folding --------------------------------------------------------

  /** The blocks of `m`, compressed one after the other; a partial last block is ignored. */
  function Fold(h: Hash, m: Bytes): Hash
    decreases |m|
  {
    if |m| < 64 then h else Fold(Compress(h, m[..64]), m[64..])
  }

  /** `v` modulo 256^n, most significant byte first. */
  function BigEndian(v: nat, n: nat): (s: Bytes)
    ensures |s| == n
  {
    if n == 0 then [] else BigEndian(v / 256, n - 1) + [Byte(v % 256)]
  }

  function Zeros(n: nat): Bytes { seq(n, i => 0) }

  /** The smallest number of zero bytes that leaves room for exactly the length in the last block. */
  function ZeroCount(n: nat): nat { (119 - n % 64) % 64 }

  function PadWithoutLength(m: Bytes): Bytes { m + [0x80] + Zeros(ZeroCount(|m|)) }

  function Pad(m: Bytes): Bytes { PadWithoutLength(m) + BigEndian(8 * |m| % TWO64, 8) }

  function HashBytes(h: Hash): Bytes {
    BigEndianWord(h.a) + BigEndianWord(h.b) + BigEndianWord(h.c) + BigEndianWord(h.d)
    + BigEndianWord(h.e) + BigEndianWord(h.f) + BigEndianWord(h.g) + BigEndianWord(h.h)
  }

  function BigEndianWord(w: bv32): Bytes {
    [((w >> 24) & 0xFF) as bv8, ((w >> 16) & 0xFF) as bv8, ((w >> 8) & 0xFF) as bv8, (w & 0xFF) as bv8]
  }

  function Digest(m: Bytes): Bytes { HashBytes(Fold(H0, Pad(m))) }

  function Concat(chunks: seq<Bytes>): Bytes {
    if chunks == [] then [] else Concat(chunks[..|chunks| - 1]) + chunks[|chunks| - 1]
  }

  // ---- facts about padding ----------------------------------------------------------

  /** The number of zero bytes is the least that leaves room for exactly the length field. */
  lemma ZeroCountLeast(n: nat, k: nat)
    ensures (n + 1 + ZeroCount(n)) % 64 == 56
    ensures (n + 1 + k) % 64 == 56 ==> ZeroCount(n) <= k
  {
    var q, r := n / 64, n % 64;
    assert n == 64 * q + r;
    if r <= 55 {
      assert ZeroCount(n) == 55 - r;
      DivModUnique(n + 1 + (55 - r), 64, q, 56);
    } else {
      assert ZeroCount(n) == 119 - r;
      DivModUnique(n + 1 + (119 - r), 64, q + 1, 56);
    }
  }

  lemma PadFillsBlocks(m: Bytes)
    ensures |PadWithoutLength(m)| % 64 == 56 && |Pad(m)| % 64 == 0
  {
    var n := |m| + 1 + ZeroCount(|m|);
    ZeroCountLeast(|m|, 0);
    DivModUnique(n + 8, 64, n / 64 + 1, 0);
  }

  function FromBigEndian(s: Bytes): nat {
    if s == [] then 0 else 256 * FromBigEndian(s[..|s| - 1]) + s[|s| - 1] as int
  }

  lemma {:induction false} BigEndianRoundTrip(v: nat, n: nat)
    requires v < Words.Power256(n)
    ensures FromBigEndian(BigEndian(v, n)) == v
  {
    hide Byte;
    if n != 0 {
      BigEndianRoundTrip(v / 256, n - 1);
      assert BigEndian(v, n)[..n - 1] == BigEndian(v / 256, n - 1);
      OctetValue(v % 256);
    }
  }

  /** For messages within the standard's limit the padding ends with the exact bit length. */
  lemma PadEndsWithLength(m: Bytes)
    requires 8 * |m| < TWO64
    ensures FromBigEndian(Pad(m)[|Pad(m)| - 8..]) == 8 * |m|
  {
    hide BigEndian, PadWithoutLength;
    SmallDivMod(8 * |m|, TWO64);
    assert Pad(m)[|Pad(m)| - 8..] == BigEndian(8 * |m|, 8);
    Words.WordSize();
    BigEndianRoundTrip(8 * |m|, 8);
  }

  lemma {:induction false} FoldConcat(h: Hash, a: Bytes, b: Bytes)
    requires |a| % 64 == 0
    ensures Fold(h, a + b) == Fold(Fold(h, a), b)
    decreases |a|
  {
    hide Compress;
    if a == [] {
      assert a + b == b;
    } else {
      assert (a + b)[..64] == a[..64] && (a + b)[64..] == a[64..] + b;
      FoldConcat(Compress(h, a[..64]), a[64..], b);
    }
  }

  lemma FoldOne(h: Hash, block: Bytes)
    requires |block| == 64
    ensures Fold(h, block) == Compress(h, block)
  {
    hide Compress;
    assert block[..64] == block && block[64..] == [];
  }

  // ---- the streaming context -----------------------------------------------------------

  class Context {
    var h: Hash
    var total: nat
    const buf: array<bv8>
    var buflen: nat

    /** The context has been fed exactly the bytes `m`. */
    ghost predicate Holds(m: Bytes)
      reads this, buf
    {
      && buf.Length == 64
      && total == |m| % TWO64
      && Buffered(h, buf[..], buflen, m)
    }

    constructor ()
      ensures Holds([]) && fresh(buf)
    {
      h := H0;
      total, buflen := 0, 0;
      buf := new bv8[64];
    }

    /** `sha256_block`: one compression, with the schedule laid out in an array. */
    method CompressBlock()
      requires buf.Length == 64
      modifies this
      ensures h == Compress(old(h), buf[..]) && buflen == old(buflen) && total == old(total)
    {
      var w := ExpandSchedule();
      var v := RunRounds(h, w[..], buf[..]);
      h := AddHash(h, v);
    }

    method ExpandSchedule() returns (w: array<bv32>)
      requires buf.Length == 64
      ensures fresh(w) && w.Length == 64
      ensures forall t | 0 <= t < 64 :: w[t] == Schedule(buf[..], t)
    {
      hide NextWord, WordAt;
      w := new bv32[64];
      for i := 0 to 16
        invariant forall t | 0 <= t < i :: w[t] == Schedule(buf[..], t)
      {
        w[i] := WordAt(buf[..], i);
      }
      for i := 16 to 64
        invariant forall t | 0 <= t < i :: w[t] == Schedule(buf[..], t)
      {
        w[i] := NextWord(w[i - 16], w[i - 15], w[i - 7], w[i - 2]);
      }
    }

    /** Feeds `data`: the context holds the longer message. */
    method Update(data: Bytes, ghost m: Bytes)
      requires Holds(m)
      modifies this, buf
      ensures Holds(m + data)
    {
      hide Buffered;
      TotalStep(|m|, |data|);
      total := (total + |data|) % TWO64;
      var p := 0;
      assert m + data[..0] == m;
      while p < |data|
        invariant p <= |data| && buf.Length == 64
        invariant total == |m + data| % TWO64
        invariant Buffered(h, buf[..], buflen, m + data[..p])
      {
        var take := Absorb(data[p..], m + data[..p]);
        PrefixGrows(m, data, p, take);
        p := p + take;
      }
      assert data[..p] == data;
    }

    /** One turn of the update loop: tops the buffer up and compresses it when full. */
    method Absorb(data: Bytes, ghost m: Bytes) returns (take: nat)
      requires buf.Length == 64 && Buffered(h, buf[..], buflen, m) && data != []
      modifies this, buf
      ensures 0 < take <= |data| && total == old(total)
      ensures Buffered(h, buf[..], buflen, m + data[..take])
    {
      hide Compress, Fold;
      take := if 64 - buflen > |data| then |data| else 64 - buflen;
      ghost var before := buf[..buflen];
      forall i | 0 <= i < take {
        buf[buflen + i] := data[i];
      }
      ghost var after := before + data[..take];
      assert buf[..buflen + take] == after;
      buflen := buflen + take;
      if buflen == 64 {
        assert buf[..] == after;
        BufferFull(h, before, m, data[..take]);
        CompressBlock();
        buflen := 0;
      } else {
        BufferPartial(h, before, m, data[..take]);
        BufferedPrefix(h, after, buf[..], buflen, m + data[..take]);
      }
    }

    /** Feeds zero bytes until the last block has exactly the length field left. */
    method FeedZeros(ghost m: Bytes)
      requires Holds(m + [0x80])
      modifies this, buf
      ensures Holds(PadWithoutLength(m)) && buflen == 56
    {
      hide Fold;
      ghost var zeros: nat := 0;
      assert m + [0x80] + Zeros(0) == m + [0x80];
      ZeroCountLeast(|m|, 0);
      while buflen != 56
        invariant Holds(m + [0x80] + Zeros(zeros))
        invariant zeros <= ZeroCount(|m|)
        decreases ZeroCount(|m|) - zeros
      {
        PadNotDone(|m|, zeros, buflen);
        Update([0], m + [0x80] + Zeros(zeros));
        assert m + [0x80] + Zeros(zeros) + [0] == m + [0x80] + Zeros(zeros + 1);
        zeros := zeros + 1;
      }
      PadDone(|m|, zeros);
    }

    /** Pads, appends the bit length and emits the digest of everything fed so far. */
    method Final(ghost m: Bytes) returns (out: Bytes)
      requires Holds(m)
      modifies this, buf
      ensures out == Digest(m)
    {
      hide Fold, Compress, HashBytes, BigEndian, PadWithoutLength;
      var bits := total * 8 % TWO64;
      BitLength(|m|);
      Update([0x80], m);
      FeedZeros(m);
      var lenb := BigEndian(bits, 8);
      ghost var front := buf[..56];
      BufferedPrefix(h, buf[..], front, 56, PadWithoutLength(m));
      LastBlock(h, front, m);
      forall i | 0 <= i < 8 {
        buf[56 + i] := lenb[i];
      }
      assert buf[..] == front + lenb;
      CompressBlock();
      out := HashBytes(h);
    }
  }

  method RunRounds(h: Hash, w: seq<bv32>, ghost block: Bytes) returns (v: Hash)
    requires |block| == 64 && |w| == 64
    requires forall t | 0 <= t < 64 :: w[t] == Schedule(block, t)
    ensures v == Rounds(h, block, 64)
  {
    hide Round, Schedule;
    v := h;
    for i := 0 to 64
      invariant v == Rounds(h, block, i)
    {
      v := RoundStep(v, K[i], w[i]);
    }
  }

  /** One round, as the source's sequence of assignments. */
  method RoundStep(v: Hash, k: bv32, w: bv32) returns (r: Hash)
    ensures r == Round(v, k, w)
  {
    hide BigSigma0, BigSigma1, Ch, Maj, Plus, Sum5;
    var Hash(a, b, c, d, e, f, g, hh) := v;
    var t1 := Sum5(hh, BigSigma1(e), Ch(e, f, g), k, w);
    var t2 := Plus(BigSigma0(a), Maj(a, b, c));
    hh := g;
    g := f;
    f := e;
    e := Plus(d, t1);
    d := c;
    c := b;
    b := a;
    a := Plus(t1, t2);
    r := Hash(a, b, c, d, e, f, g, hh);
  }

  /** The hash covers the whole blocks of `m` and the buffer holds the rest. */
  ghost predicate Buffered(h: Hash, buf: Bytes, buflen: nat, m: Bytes) {
    && buflen < 64 && buflen <= |buf| && buflen <= |m|
    && (|m| - buflen) % 64 == 0
    && buf[..buflen] == m[|m| - buflen..]
    && h == Fold(H0, m[..|m| - buflen])
  }

  lemma PrefixGrows(m: Bytes, data: Bytes, p: nat, take: nat)
    requires p + take <= |data|
    ensures m + data[..p] + data[p..][..take] == m + data[..p + take]
  {
    assert data[..p] + data[p..][..take] == data[..p + take];
  }

  lemma TotalStep(n: nat, k: nat)
    ensures (n % TWO64 + k) % TWO64 == (n + k) % TWO64
  {
    var q, s := n / TWO64, n % TWO64 + k;
    DivModUnique(n + k, TWO64, q + s / TWO64, s % TWO64);
  }

  lemma BitLength(n: nat)
    ensures (n % TWO64) * 8 % TWO64 == 8 * n % TWO64
  {
    var q, s := n / TWO64, (n % TWO64) * 8;
    DivModUnique(8 * n, TWO64, 8 * q + s / TWO64, s % TWO64);
  }

  lemma BufferFull(h: Hash, before: Bytes, m: Bytes, data: Bytes)
    requires |before| < 64 && |before| <= |m| && (|m| - |before|) % 64 == 0
    requires before == m[|m| - |before|..] && h == Fold(H0, m[..|m| - |before|])
    requires |before + data| == 64
    ensures Buffered(Compress(h, before + data), before + data, 0, m + data)
  {
    hide Compress;
    var whole := m[..|m| - |before|];
    assert m + data == whole + (before + data);
    FoldConcat(H0, whole, before + data);
    FoldOne(h, before + data);
    assert (m + data)[..|m + data|] == m + data;
  }

  lemma BufferPartial(h: Hash, before: Bytes, m: Bytes, data: Bytes)
    requires |before| <= |m| && (|m| - |before|) % 64 == 0
    requires before == m[|m| - |before|..] && h == Fold(H0, m[..|m| - |before|])
    requires |before + data| < 64
    ensures Buffered(h, before + data, |before + data|, m + data)
  {
    var m', n := m + data, |before + data|;
    assert m'[..|m'| - n] == m[..|m| - |before|];
    assert m'[|m'| - n..] == before + data;
    assert (before + data)[..n] == before + data;
  }

  lemma BufferedPrefix(h: Hash, buf: Bytes, buf': Bytes, buflen: nat, m: Bytes)
    requires Buffered(h, buf, buflen, m) && buflen <= |buf'| && buf[..buflen] == buf'[..buflen]
    ensures Buffered(h, buf', buflen, m)
  {
  }

  lemma PadNotDone(n: nat, zeros: nat, buflen: nat)
    requires zeros <= ZeroCount(n) && buflen < 64 && buflen != 56
    requires buflen <= n + 1 + zeros && (n + 1 + zeros - buflen) % 64 == 0
    ensures zeros < ZeroCount(n)
  {
    ZeroCountLeast(n, zeros);
  }

  lemma PadDone(n: nat, zeros: nat)
    requires zeros <= ZeroCount(n) && 56 <= n + 1 + zeros && (n + 1 + zeros - 56) % 64 == 0
    ensures zeros == ZeroCount(n)
  {
    ZeroCountLeast(n, zeros);
  }

  lemma LastBlock(h: Hash, front: Bytes, m: Bytes)
    requires |front| == 56 && Buffered(h, front, 56, PadWithoutLength(m))
    ensures Compress(h, front + BigEndian(8 * |m| % TWO64, 8)) == Fold(H0, Pad(m))
  {
    hide BigEndian, Compress, PadWithoutLength, Fold;
    var lenb := BigEndian(8 * |m| % TWO64, 8);
    var m' := PadWithoutLength(m);
    assert front[..56] == front;
    BufferFull(h, front, m', lenb);
    assert (m' + lenb)[..|m' + lenb|] == m' + lenb;
  }

  // ---- the digest of a message does not depend on its chunks ---------------------------------

  /** Init, one update per chunk, final. */
  method DigestOfChunks(chunks: seq<Bytes>) returns (out: Bytes)
    ensures out == Digest(Concat(chunks))
  {
    hide Digest;
    var ctx := new Context();
    assert chunks[..0] == [];
    for i := 0 to |chunks|
      invariant fresh(ctx) && fresh(ctx.buf)
      invariant ctx.Holds(Concat(chunks[..i]))
    {
      assert chunks[..i + 1][..i] == chunks[..i];
      ctx.Update(chunks[i], Concat(chunks[..i]));
    }
    assert chunks[..|chunks|] == chunks;
    out := ctx.Final(Concat(chunks));
  }
}
