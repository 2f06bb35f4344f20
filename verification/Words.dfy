/** 64-bit words in little-endian byte memory. */
module Words {
  import opened Prelude

  const WORD_LIMIT: nat := 0x1_0000_0000_0000_0000

  type Word = x: nat | x < WORD_LIMIT

  function Power256(n: nat): (p: nat)
    ensures p > 0
  {
    if n == 0 then 1 else 256 * Power256(n - 1)
  }

  /** The `n` bytes of `w`, least significant first. */
  function Bytes(w: nat, n: nat): (bs: seq<Octet>)
    ensures |bs| == n
  {
    if n == 0 then [] else [w % 256] + Bytes(w / 256, n - 1)
  }

  function Value(bs: seq<Octet>): (v: nat)
    ensures v < Power256(|bs|)
  {
    if bs == [] then 0 else bs[0] + 256 * Value(bs[1..])
  }

  lemma {:induction false} ValueOfBytes(w: nat, n: nat)
    requires w < Power256(n)
    ensures Value(Bytes(w, n)) == w
  {
    if n > 0 {
      assert w / 256 < Power256(n - 1);
      ValueOfBytes(w / 256, n - 1);
      assert Bytes(w, n)[1..] == Bytes(w / 256, n - 1);
    }
  }

  lemma WordSize()
    ensures Power256(8) == WORD_LIMIT
  {
    assert Power256(4) == 0x1_0000_0000;
  }

  function Encode(ws: seq<Word>): (bs: seq<Octet>)
    ensures |bs| == 8 * |ws|
  {
    if ws == [] then [] else Bytes(ws[0], 8) + Encode(ws[1..])
  }

  function Decode(bs: seq<Octet>): (ws: seq<Word>)
    requires |bs| % 8 == 0
    ensures |ws| == |bs| / 8
  {
    if bs == [] then [] else WordSize(); [Value(bs[..8])] + Decode(bs[8..])
  }

  /** Reading back what was written. */
  lemma {:induction false} DecodeEncode(ws: seq<Word>)
    ensures Decode(Encode(ws)) == ws
  {
    if ws != [] {
      WordSize();
      ValueOfBytes(ws[0], 8);
      assert Encode(ws)[..8] == Bytes(ws[0], 8) && Encode(ws)[8..] == Encode(ws[1..]);
      DecodeEncode(ws[1..]);
    }
  }

  lemma EncodeConcat(a: seq<Word>, b: seq<Word>)
    ensures Encode(a + b) == Encode(a) + Encode(b)
  {
    if a == [] {
      assert a + b == b;
    } else {
      assert (a + b)[1..] == a[1..] + b;
      EncodeConcat(a[1..], b);
    }
  }

  // ---- a region of memory ----------------------------------------------------------------

  type Memory = seq<Octet>

  function Store(m: Memory, i: nat, bs: seq<Octet>): (m': Memory)
    requires i + |bs| <= |m|
    ensures |m'| == |m|
  {
    m[..i] + bs + m[i + |bs|..]
  }

  function Load(m: Memory, i: nat, n: nat): (bs: seq<Octet>)
    requires i + n <= |m|
    ensures |bs| == n
  {
    m[i..i + n]
  }

  lemma LoadStored(m: Memory, i: nat, bs: seq<Octet>)
    requires i + |bs| <= |m|
    ensures Load(Store(m, i, bs), i, |bs|) == bs
  {
  }

  /** A store leaves every disjoint region alone. */
  lemma LoadElsewhere(m: Memory, i: nat, bs: seq<Octet>, j: nat, n: nat)
    requires i + |bs| <= |m| && j + n <= |m| && (j + n <= i || i + |bs| <= j)
    ensures Load(Store(m, i, bs), j, n) == Load(m, j, n)
  {
  }

  lemma StoreSame(m: Memory, i: nat, bs: seq<Octet>)
    requires i + |bs| <= |m| && Load(m, i, |bs|) == bs
    ensures Store(m, i, bs) == m
  {
    assert m == m[..i] + m[i..i + |bs|] + m[i + |bs|..];
  }
}
