/** Numbers as bit strings, in the two orders that DEFLATE uses: data elements are packed least
    significant bit first, Huffman codes most significant bit first (section 3.1.1 of RFC 1951). */
module Bits {
  import opened Prelude
  import opened Arith

  function Pow2(n: nat): (r: nat)
    ensures r >= 1
  {
    if n == 0 then 1 else 2 * Pow2(n - 1)
  }

  lemma Pow2Values()
    ensures Pow2(4) == 16 && Pow2(5) == 32 && Pow2(7) == 128 && Pow2(8) == 256 && Pow2(9) == 512
  {
  }

  function Bit(b: bool): nat { if b then 1 else 0 }

  /** The number whose bits, least significant first, are `bs`. */
  function LsbValue(bs: seq<bool>): nat {
    if bs == [] then 0 else Bit(bs[0]) + 2 * LsbValue(bs[1..])
  }

  /** The number whose bits, most significant first, are `bs`. */
  function MsbValue(bs: seq<bool>): nat {
    if bs == [] then 0 else 2 * MsbValue(bs[..|bs| - 1]) + Bit(bs[|bs| - 1])
  }

  function LsbBits(v: nat, n: nat): (bs: seq<bool>)
    ensures |bs| == n
  {
    if n == 0 then [] else [v % 2 == 1] + LsbBits(v / 2, n - 1)
  }

  function MsbBits(v: nat, n: nat): (bs: seq<bool>)
    ensures |bs| == n
  {
    if n == 0 then [] else MsbBits(v / 2, n - 1) + [v % 2 == 1]
  }

  /** A byte string as the bit string a DEFLATE reader sees. */
  function BytesToBits(s: seq<Octet>): (bs: seq<bool>)
    ensures |bs| == 8 * |s|
  {
    if s == [] then [] else LsbBits(s[0], 8) + BytesToBits(s[1..])
  }

  lemma {:induction false} Pow2Add(a: nat, b: nat)
    ensures Pow2(a + b) == Pow2(a) * Pow2(b)
  {
    if a != 0 {
      Pow2Add(a - 1, b);
      assert Pow2(a + b) == 2 * Pow2(a - 1 + b);
    }
  }

  /** Packing `b` above the `n` bits of `v`. */
  lemma {:induction false} LsbBitsConcat(v: nat, n: nat, b: nat, m: nat)
    requires v < Pow2(n)
    ensures LsbBits(v + b * Pow2(n), n + m) == LsbBits(v, n) + LsbBits(b, m)
  {
    if n != 0 {
      var p := Pow2(n - 1);
      var w := v + b * Pow2(n);
      assert b * Pow2(n) == 2 * (b * p);
      assert w % 2 == v % 2 && w / 2 == v / 2 + b * p;
      LsbBitsConcat(v / 2, n - 1, b, m);
    }
  }

  /** Reading and dropping the low `k` bits of an `n`-bit number. */
  lemma {:induction false} LsbBitsSplit(v: nat, n: nat, k: nat)
    requires k <= n
    ensures LsbValue(LsbBits(v, n)[..k]) == v % Pow2(k)
    ensures LsbBits(v, n)[k..] == LsbBits(v / Pow2(k), n - k)
  {
    if k != 0 {
      LsbBitsSplit(v / 2, n - 1, k - 1);
      var bs := LsbBits(v, n);
      assert bs[..k][1..] == LsbBits(v / 2, n - 1)[..k - 1];
      assert bs[k..] == LsbBits(v / 2, n - 1)[k - 1..];
      HalfModDiv(v, Pow2(k - 1));
    }
  }

  lemma {:induction false} MsbValueBound(bs: seq<bool>)
    ensures MsbValue(bs) < Pow2(|bs|)
  {
    if bs != [] { MsbValueBound(bs[..|bs| - 1]); }
  }

  lemma {:induction false} LsbValueBound(bs: seq<bool>)
    ensures LsbValue(bs) < Pow2(|bs|)
  {
    if bs != [] { LsbValueBound(bs[1..]); }
  }

  /** A bit string is the printed form of its own value, and of no other number of that width. */
  lemma {:induction false} MsbRoundTrip(bs: seq<bool>)
    ensures MsbBits(MsbValue(bs), |bs|) == bs
  {
    if bs != [] {
      var n := |bs| - 1;
      MsbRoundTrip(bs[..n]);
      assert MsbValue(bs) / 2 == MsbValue(bs[..n]);
      assert bs == bs[..n] + [bs[n]];
    }
  }

  lemma {:induction false} MsbValueOfBits(v: nat, n: nat)
    requires v < Pow2(n)
    ensures MsbValue(MsbBits(v, n)) == v
  {
    if n != 0 {
      MsbValueOfBits(v / 2, n - 1);
      assert MsbBits(v, n)[..n - 1] == MsbBits(v / 2, n - 1);
    }
  }

  /** The value of a prefix of a most-significant-first string is the value shifted right. */
  lemma {:induction false} MsbPrefix(bs: seq<bool>, k: nat)
    requires k <= |bs|
    ensures MsbValue(bs) / Pow2(|bs| - k) == MsbValue(bs[..k])
    decreases |bs|
  {
    if k == |bs| {
      assert bs[..k] == bs;
    } else {
      var short := bs[..|bs| - 1];
      MsbPrefix(short, k);
      assert short[..k] == bs[..k];
      HalfModDiv(MsbValue(bs), Pow2(|short| - k));
    }
  }

  lemma {:induction false} BytesToBitsConcat(a: seq<Octet>, b: seq<Octet>)
    ensures BytesToBits(a + b) == BytesToBits(a) + BytesToBits(b)
  {
    if a == [] {
      assert a + b == b;
    } else {
      assert (a + b)[1..] == a[1..] + b;
      BytesToBitsConcat(a[1..], b);
    }
  }
}
