/** Canonical Huffman codes (section 3.2.2 of RFC 1951): what a table of code lengths means, and
    the properties of that meaning.  Nothing here mentions the decoder. */
module HuffmanCodes {
  import opened Prelude
  import opened Arith
  import opened Bits

  const MAX_BITS: nat := 15

  /** How many of the first `n` symbols have code length `len`. */
  function CountBelow(lengths: seq<nat>, n: nat, len: nat): (c: nat)
    requires n <= |lengths|
    ensures c <= n
  {
    if n == 0 then 0
    else CountBelow(lengths, n - 1, len) + (if lengths[n - 1] == len then 1 else 0)
  }

  function Count(lengths: seq<nat>, len: nat): (c: nat)
    ensures c <= |lengths|
  {
    CountBelow(lengths, |lengths|, len)
  }

  /** The smallest code of length `len`: `next_code[len]` of the RFC's second step. */
  function FirstCode(lengths: seq<nat>, len: nat): nat {
    if len <= 1 then 0 else 2 * (FirstCode(lengths, len - 1) + Count(lengths, len - 1))
  }

  /** One past the largest code of length `len`. */
  function EndCode(lengths: seq<nat>, len: nat): nat {
    FirstCode(lengths, len) + Count(lengths, len)
  }

  predicate Used(lengths: seq<nat>, s: nat) {
    s < |lengths| && 0 < lengths[s] <= MAX_BITS
  }

  /** The RFC's third step: codes of one length are consecutive, in symbol order. */
  function CodeNumber(lengths: seq<nat>, s: nat): nat
    requires Used(lengths, s)
  {
    FirstCode(lengths, lengths[s]) + CountBelow(lengths, s, lengths[s])
  }

  /** The code of symbol `s`, as it appears in the stream. */
  function Code(lengths: seq<nat>, s: nat): (code: seq<bool>)
    requires Used(lengths, s)
    ensures |code| == lengths[s]
  {
    MsbBits(CodeNumber(lengths, s), lengths[s])
  }

  /** No length has more codes than fit: the Kraft inequality, length by length. */
  ghost predicate NotOversubscribed(lengths: seq<nat>) {
    forall len | 1 <= len <= MAX_BITS :: EndCode(lengths, len) <= Pow2(len)
  }

  ghost predicate IsPrefixCode(lengths: seq<nat>) {
    && (forall s | 0 <= s < |lengths| :: lengths[s] <= MAX_BITS)
    && NotOversubscribed(lengths)
  }

  /** A prefix code that has some symbol. */
  ghost predicate Accepted(lengths: seq<nat>) {
    && IsPrefixCode(lengths)
    && Count(lengths, 0) != |lengths|
  }

  /** Symbol `s` is the one whose code comes next in `bits`. */
  ghost predicate IsNext(lengths: seq<nat>, bits: seq<bool>, s: nat) {
    Used(lengths, s) && Code(lengths, s) <= bits
  }

  /** The meaning of the next code in `bits`: its symbol and what follows it. */
  ghost function Decode(lengths: seq<nat>, bits: seq<bool>): (r: Option<(nat, seq<bool>)>)
    ensures r.Some? ==> |r.value.1| < |bits|
  {
    if exists s: nat :: IsNext(lengths, bits, s)
    then var s: nat :| IsNext(lengths, bits, s); Some((s, bits[lengths[s]..]))
    else None
  }

  function Encode(lengths: seq<nat>, symbols: seq<nat>): seq<bool>
    requires forall s <- symbols :: Used(lengths, s)
  {
    if symbols == [] then [] else Code(lengths, symbols[0]) + Encode(lengths, symbols[1..])
  }

  ghost function DecodeMany(lengths: seq<nat>, bits: seq<bool>, n: nat): Option<(seq<nat>, seq<bool>)> {
    if n == 0 then Some(([], bits))
    else
      var (s, rest) :- Decode(lengths, bits);
      var (more, left) :- DecodeMany(lengths, rest, n - 1);
      Some(([s] + more, left))
  }

  // ---- ranks --------------------------------------------------------------

  lemma {:induction false} CountBelowMono(lengths: seq<nat>, m: nat, n: nat, len: nat)
    requires m <= n <= |lengths|
    ensures CountBelow(lengths, m, len) <= CountBelow(lengths, n, len)
    ensures m < n && lengths[m] == len ==> CountBelow(lengths, m, len) < CountBelow(lengths, n, len)
    decreases n
  {
    if m < n { CountBelowMono(lengths, m, n - 1, len); }
  }

  /** The `k`-th symbol of a length exists. */
  lemma {:induction false} SymbolOfRank(lengths: seq<nat>, n: nat, len: nat, k: nat) returns (s: nat)
    requires n <= |lengths| && k < CountBelow(lengths, n, len)
    ensures s < n && lengths[s] == len && CountBelow(lengths, s, len) == k
  {
    if k < CountBelow(lengths, n - 1, len) {
      s := SymbolOfRank(lengths, n - 1, len, k);
    } else {
      s := n - 1;
    }
  }

  lemma CodeNumberRange(lengths: seq<nat>, s: nat)
    requires Used(lengths, s)
    ensures FirstCode(lengths, lengths[s]) <= CodeNumber(lengths, s) < EndCode(lengths, lengths[s])
  {
    CountBelowMono(lengths, s, |lengths|, lengths[s]);
  }

  lemma CodeValue(lengths: seq<nat>, s: nat)
    requires IsPrefixCode(lengths) && Used(lengths, s)
    ensures MsbValue(Code(lengths, s)) == CodeNumber(lengths, s)
  {
    CodeNumberRange(lengths, s);
    MsbValueOfBits(CodeNumber(lengths, s), lengths[s]);
  }

  /** Longer codes start where the shorter ones, extended with zeros, have ended. */
  lemma {:induction false} FirstCodeAfter(lengths: seq<nat>, a: nat, b: nat)
    requires 1 <= a < b
    ensures FirstCode(lengths, b) >= EndCode(lengths, a) * Pow2(b - a)
    decreases b
  {
    if a + 1 == b {
      assert Pow2(1) == 2;
    } else {
      FirstCodeAfter(lengths, a, b - 1);
      var e, p := EndCode(lengths, a), Pow2(b - 1 - a);
      assert e * (2 * p) == 2 * (e * p);
    }
  }

  // ---- prefix freedom and unique decoding ---------------------------------

  lemma ShorterIsNoPrefix(lengths: seq<nat>, s: nat, t: nat)
    requires IsPrefixCode(lengths) && Used(lengths, s) && Used(lengths, t)
    requires lengths[s] < lengths[t]
    ensures !(Code(lengths, s) <= Code(lengths, t))
  {
    var a, b := lengths[s], lengths[t];
    if Code(lengths, s) <= Code(lengths, t) {
      var code := Code(lengths, t);
      assert code[..a] == Code(lengths, s);
      MsbPrefix(code, a);
      CodeValue(lengths, s);
      CodeValue(lengths, t);
      CodeNumberRange(lengths, s);
      CodeNumberRange(lengths, t);
      FirstCodeAfter(lengths, a, b);
      DivAtLeast(CodeNumber(lengths, t), Pow2(b - a), EndCode(lengths, a));
    }
  }

  /** The codes of every accepted table are prefix-free. */
  lemma PrefixFree(lengths: seq<nat>, s: nat, t: nat)
    requires IsPrefixCode(lengths) && Used(lengths, s) && Used(lengths, t)
    requires Code(lengths, s) <= Code(lengths, t)
    ensures s == t
  {
    if lengths[s] < lengths[t] {
      ShorterIsNoPrefix(lengths, s, t);
    } else {
      assert Code(lengths, s) == Code(lengths, t);
      CodeValue(lengths, s);
      CodeValue(lengths, t);
      if s < t {
        CountBelowMono(lengths, s, t, lengths[s]);
      } else if t < s {
        CountBelowMono(lengths, t, s, lengths[s]);
      }
    }
  }

  lemma NextIsUnique(lengths: seq<nat>, bits: seq<bool>, s: nat, t: nat)
    requires IsPrefixCode(lengths) && IsNext(lengths, bits, s) && IsNext(lengths, bits, t)
    ensures s == t
  {
    if lengths[s] <= lengths[t] {
      assert Code(lengths, s) == bits[..lengths[s]] == Code(lengths, t)[..lengths[s]];
      PrefixFree(lengths, s, t);
    } else {
      assert Code(lengths, t) == bits[..lengths[t]] == Code(lengths, s)[..lengths[t]];
      PrefixFree(lengths, t, s);
    }
  }

  lemma DecodeIs(lengths: seq<nat>, bits: seq<bool>, s: nat)
    requires IsPrefixCode(lengths) && IsNext(lengths, bits, s)
    ensures Decode(lengths, bits) == Some((s, bits[lengths[s]..]))
  {
    forall t | IsNext(lengths, bits, t) ensures t == s {
      NextIsUnique(lengths, bits, s, t);
    }
  }

  /** Decoding the concatenated codes of any symbol sequence gives that sequence back, and
      stops exactly where the codes stop. */
  lemma {:induction false} DecodeEncode(lengths: seq<nat>, symbols: seq<nat>, tail: seq<bool>)
    requires IsPrefixCode(lengths)
    requires forall s <- symbols :: Used(lengths, s)
    ensures DecodeMany(lengths, Encode(lengths, symbols) + tail, |symbols|) == Some((symbols, tail))
  {
    if symbols == [] {
      assert Encode(lengths, symbols) + tail == tail;
    } else {
      var s, more := symbols[0], symbols[1..];
      var rest := Encode(lengths, more) + tail;
      var bits := Encode(lengths, symbols) + tail;
      assert bits == Code(lengths, s) + rest;
      DecodeIs(lengths, bits, s);
      assert bits[lengths[s]..] == rest;
      DecodeEncode(lengths, more, tail);
      assert [s] + more == symbols;
    }
  }
}
