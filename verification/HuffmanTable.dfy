/** `build_huffman` and `decode_symbol` of src/lib/gzip.c, proved against the codes of
    HuffmanCodes. */
module HuffmanTables {
  import opened Prelude
  import opened Arith
  import opened Bits
  import opened BitStreams
  import opened HuffmanCodes

  const MAX_SYMBOLS: nat := 288

  /** How many used symbols have codes shorter than `len`. */
  function Shorter(lengths: seq<nat>, len: nat): nat {
    if len <= 1 then 0 else Shorter(lengths, len - 1) + Count(lengths, len - 1)
  }

  /** Where symbol `s` stands in the sorted symbol table. */
  function Position(lengths: seq<nat>, s: nat): nat
    requires Used(lengths, s)
  {
    Shorter(lengths, lengths[s]) + CountBelow(lengths, s, lengths[s])
  }

  /** Each of the first `n` symbols stands at its position. */
  ghost predicate Placed(lengths: seq<nat>, n: nat, table: seq<nat>) {
    forall s: nat | s < n && Used(lengths, s) ::
      Position(lengths, s) < |table| && table[Position(lengths, s)] == s
  }

  class HuffmanTable {
    const counts: array<nat>
    const symbols: array<nat>

    constructor ()
      ensures fresh(counts) && fresh(symbols)
      ensures counts.Length == MAX_BITS + 1 && symbols.Length == MAX_SYMBOLS
    {
      counts := new nat[MAX_BITS + 1];
      symbols := new nat[MAX_SYMBOLS];
    }

    ghost predicate Shaped() {
      counts.Length == MAX_BITS + 1 && symbols.Length == MAX_SYMBOLS && counts != symbols
    }

    /** The table holds the canonical code given by `lengths`. */
    ghost predicate Represents(lengths: seq<nat>)
      reads counts, symbols
    {
      && Shaped()
      && Accepted(lengths)
      && |lengths| <= MAX_SYMBOLS
      && (forall len | 1 <= len <= MAX_BITS :: counts[len] == Count(lengths, len))
      && Placed(lengths, |lengths|, symbols[..])
    }

    method CountLengths(lengths: seq<nat>) returns (ok: bool)
      requires Shaped()
      modifies counts
      ensures ok <==> forall s | 0 <= s < |lengths| :: lengths[s] <= MAX_BITS
      ensures ok ==> forall len | 0 <= len <= MAX_BITS :: counts[len] == Count(lengths, len)
    {
      for i := 0 to counts.Length
        invariant forall len | 0 <= len < i :: counts[len] == 0
      {
        counts[i] := 0;
      }
      for i := 0 to |lengths|
        invariant forall s | 0 <= s < i :: lengths[s] <= MAX_BITS
        invariant forall len | 0 <= len <= MAX_BITS :: counts[len] == CountBelow(lengths, i, len)
      {
        if lengths[i] > MAX_BITS {
          return false;
        }
        counts[lengths[i]] := counts[lengths[i]] + 1;
      }
      return true;
    }

    /** `remaining` is the number of codes of the current length that are still free. */
    method CheckSubscription(lengths: seq<nat>) returns (ok: bool)
      requires Shaped()
      requires forall len | 0 <= len <= MAX_BITS :: counts[len] == Count(lengths, len)
      ensures ok <==> NotOversubscribed(lengths)
    {
      hide FirstCode, EndCode, Count, Pow2;
      var remaining: int := 1;
      for len := 1 to MAX_BITS + 1
        invariant remaining == if len == 1 then 1 else Pow2(len - 1) - EndCode(lengths, len - 1)
        invariant forall k | 1 <= k < len :: EndCode(lengths, k) <= Pow2(k)
      {
        FreeCodes(lengths, len);
        remaining := 2 * remaining - counts[len];
        if remaining < 0 {
          return false;
        }
      }
      return true;
    }

    /** The first table position of each length. */
    method SymbolOffsets(ghost lengths: seq<nat>) returns (offsets: array<nat>)
      requires Shaped()
      requires forall len | 0 <= len <= MAX_BITS :: counts[len] == Count(lengths, len)
      ensures fresh(offsets) && offsets.Length == MAX_BITS + 1
      ensures forall len | 1 <= len <= MAX_BITS :: offsets[len] == Shorter(lengths, len)
    {
      hide Shorter, Count;
      offsets := new nat[MAX_BITS + 1];
      offsets[1] := 0;
      LengthSteps(lengths, 0);
      for len := 1 to MAX_BITS
        invariant forall k | 1 <= k <= len :: offsets[k] == Shorter(lengths, k)
      {
        LengthSteps(lengths, len);
        offsets[len + 1] := offsets[len] + counts[len];
      }
    }

    method FillSymbols(lengths: seq<nat>)
      requires Shaped() && |lengths| <= MAX_SYMBOLS
      requires forall s | 0 <= s < |lengths| :: lengths[s] <= MAX_BITS
      requires forall len | 0 <= len <= MAX_BITS :: counts[len] == Count(lengths, len)
      modifies symbols
      ensures Placed(lengths, |lengths|, symbols[..])
    {
      hide Shorter, CountBelow, Count, Placed;
      var offsets := SymbolOffsets(lengths);
      PlaceNone(lengths, symbols[..]);
      for symbol := 0 to |lengths|
        invariant forall len | 1 <= len <= MAX_BITS ::
                    offsets[len] == Shorter(lengths, len) + CountBelow(lengths, symbol, len)
        invariant Placed(lengths, symbol, symbols[..])
      {
        var length := lengths[symbol];
        CountNext(lengths, symbol);
        if length != 0 {
          PlaceStep(lengths, symbol, symbols[..]);
          symbols[offsets[length]] := symbol;
          offsets[length] := offsets[length] + 1;
        } else {
          PlaceSkip(lengths, symbol, symbols[..]);
        }
      }
    }

    /** Accepts exactly the non-empty prefix codes, and then represents the given one. */
    method Build(lengths: seq<nat>) returns (ok: bool)
      requires Shaped() && |lengths| <= MAX_SYMBOLS
      modifies counts, symbols
      ensures ok <==> Accepted(lengths)
      ensures ok ==> Represents(lengths)
    {
      ok := CountLengths(lengths);
      if !ok {
        return;
      }
      if counts[0] == |lengths| {
        return false;
      }
      ok := CheckSubscription(lengths);
      if !ok {
        return;
      }
      FillSymbols(lengths);
    }
  }

  lemma LengthSteps(lengths: seq<nat>, len: nat)
    ensures Shorter(lengths, len + 1) == if len == 0 then 0 else Shorter(lengths, len) + Count(lengths, len)
    ensures FirstCode(lengths, len + 1) == if len == 0 then 0 else 2 * (FirstCode(lengths, len) + Count(lengths, len))
    ensures EndCode(lengths, len) == FirstCode(lengths, len) + Count(lengths, len)
  {
  }

  lemma FreeCodes(lengths: seq<nat>, len: nat)
    requires 1 <= len
    ensures Pow2(len) - EndCode(lengths, len)
         == 2 * (if len == 1 then 1 else Pow2(len - 1) - EndCode(lengths, len - 1)) - Count(lengths, len)
  {
  }

  lemma {:induction false} ShorterMono(lengths: seq<nat>, a: nat, b: nat)
    requires 1 <= a < b
    ensures Shorter(lengths, a) + Count(lengths, a) <= Shorter(lengths, b)
    decreases b
  {
    if a + 1 < b { ShorterMono(lengths, a, b - 1); }
  }

  /** Symbols of different lengths up to `len` are counted at most once each. */
  lemma {:induction false} ShorterBound(lengths: seq<nat>, n: nat, len: nat)
    requires 1 <= len && n <= |lengths|
    ensures ShorterBelow(lengths, n, len) <= n
    decreases n
  {
    if n == 0 {
      ShorterBelowZero(lengths, len);
    } else {
      ShorterBound(lengths, n - 1, len);
      ShorterBelowStep(lengths, n, len);
    }
  }

  function ShorterBelow(lengths: seq<nat>, n: nat, len: nat): nat
    requires n <= |lengths|
  {
    if len <= 1 then 0 else ShorterBelow(lengths, n, len - 1) + CountBelow(lengths, n, len - 1)
  }

  lemma {:induction false} ShorterBelowZero(lengths: seq<nat>, len: nat)
    ensures ShorterBelow(lengths, 0, len) == 0
  {
    if len > 1 { ShorterBelowZero(lengths, len - 1); }
  }

  lemma {:induction false} ShorterBelowStep(lengths: seq<nat>, n: nat, len: nat)
    requires 0 < n <= |lengths|
    ensures ShorterBelow(lengths, n, len)
         == ShorterBelow(lengths, n - 1, len) + (if 1 <= lengths[n - 1] < len then 1 else 0)
  {
    if len > 1 { ShorterBelowStep(lengths, n, len - 1); }
  }

  lemma {:induction false} ShorterIsBelowAll(lengths: seq<nat>, len: nat)
    ensures Shorter(lengths, len) == ShorterBelow(lengths, |lengths|, len)
  {
    if len > 1 { ShorterIsBelowAll(lengths, len - 1); }
  }

  lemma PositionBound(lengths: seq<nat>, s: nat)
    requires Used(lengths, s)
    ensures Position(lengths, s) < |lengths|
  {
    var len := lengths[s];
    CountBelowMono(lengths, s, |lengths|, len);
    ShorterIsBelowAll(lengths, len + 1);
    ShorterBound(lengths, |lengths|, len + 1);
  }

  lemma PositionsDiffer(lengths: seq<nat>, s: nat, t: nat)
    requires Used(lengths, s) && Used(lengths, t) && s < t
    ensures Position(lengths, s) != Position(lengths, t)
  {
    CountBelowMono(lengths, s, |lengths|, lengths[s]);
    CountBelowMono(lengths, t, |lengths|, lengths[t]);
    if lengths[s] < lengths[t] {
      ShorterMono(lengths, lengths[s], lengths[t]);
    } else if lengths[t] < lengths[s] {
      ShorterMono(lengths, lengths[t], lengths[s]);
    } else {
      CountBelowMono(lengths, s, t, lengths[s]);
    }
  }

  lemma CountNext(lengths: seq<nat>, n: nat)
    requires n < |lengths|
    ensures forall len ::
              CountBelow(lengths, n + 1, len) == CountBelow(lengths, n, len) + (if lengths[n] == len then 1 else 0)
  {
  }

  lemma PlaceNone(lengths: seq<nat>, table: seq<nat>)
    ensures Placed(lengths, 0, table)
    ensures forall len :: CountBelow(lengths, 0, len) == 0
  {
  }

  lemma PlaceSkip(lengths: seq<nat>, n: nat, table: seq<nat>)
    requires n < |lengths| && lengths[n] == 0 && Placed(lengths, n, table)
    ensures Placed(lengths, n + 1, table)
  {
  }

  lemma PlaceStep(lengths: seq<nat>, n: nat, table: seq<nat>)
    requires Used(lengths, n) && |lengths| <= |table| && Placed(lengths, n, table)
    ensures Position(lengths, n) < |table|
    ensures Placed(lengths, n + 1, table[Position(lengths, n) := n])
  {
    PositionBound(lengths, n);
    forall s: nat | s < n && Used(lengths, s)
      ensures Position(lengths, s) != Position(lengths, n)
    {
      PositionsDiffer(lengths, s, n);
    }
  }

  // ---- decoding -----------------------------------------------------------

  /** No symbol with a code shorter than `len` comes next. */
  ghost predicate NoneShorter(lengths: seq<nat>, bits: seq<bool>, len: nat) {
    forall s: nat | IsNext(lengths, bits, s) :: len <= lengths[s]
  }

  /** The next bits read as a code of length `len` fall short of, or inside, that length's codes
      exactly when a symbol of that length comes next. */
  lemma MatchAt(lengths: seq<nat>, bits: seq<bool>, len: nat) returns (s: nat)
    requires IsPrefixCode(lengths) && 1 <= len <= MAX_BITS && len <= |bits|
    requires FirstCode(lengths, len) <= MsbValue(bits[..len]) < EndCode(lengths, len)
    ensures IsNext(lengths, bits, s) && lengths[s] == len
    ensures Position(lengths, s) == Shorter(lengths, len) + MsbValue(bits[..len]) - FirstCode(lengths, len)
  {
    hide MsbValue, MsbBits, FirstCode, Shorter, NotOversubscribed;
    var code := MsbValue(bits[..len]);
    s := SymbolOfRank(lengths, |lengths|, len, code - FirstCode(lengths, len));
    MsbRoundTrip(bits[..len]);
    assert Code(lengths, s) == bits[..len];
  }

  lemma NoMatchAt(lengths: seq<nat>, bits: seq<bool>, len: nat)
    requires IsPrefixCode(lengths) && 1 <= len <= MAX_BITS
    requires len <= |bits| ==> EndCode(lengths, len) <= MsbValue(bits[..len])
    requires NoneShorter(lengths, bits, len)
    ensures NoneShorter(lengths, bits, len + 1)
  {
    forall s: nat | IsNext(lengths, bits, s)
      ensures len + 1 <= lengths[s]
    {
      if lengths[s] == len {
        assert Code(lengths, s) == bits[..len];
        CodeValue(lengths, s);
        CodeNumberRange(lengths, s);
      }
    }
  }

  lemma DecodeNone(lengths: seq<nat>, bits: seq<bool>, len: nat)
    requires NoneShorter(lengths, bits, len)
    requires len > MAX_BITS || |bits| < len
    ensures Decode(lengths, bits) == None
  {
  }

  /** Returns the symbol whose code comes next and consumes exactly that code; fails exactly when
      no code is a prefix of the bits left. */
  method DecodeSymbol(stream: BitStream, table: HuffmanTable, ghost lengths: seq<nat>) returns (symbol: Option<nat>)
    requires stream.Valid() && table.Represents(lengths)
    modifies stream
    ensures stream.Valid()
    ensures symbol.Some? <==> Decode(lengths, old(stream.Rest())).Some?
    ensures symbol.Some? ==> Decode(lengths, old(stream.Rest())) == Some((symbol.value, stream.Rest()))
    ensures symbol.Some? ==> Used(lengths, symbol.value)
  {
    hide FirstCode, EndCode, Count, Shorter, MsbValue, LsbValue, NoneShorter, Decode, Position;
    ghost var all := stream.Rest();
    var code, first, index := 0, 0, 0;
    StartOfCode(lengths, all);
    LengthSteps(lengths, 0);
    for length := 1 to MAX_BITS + 1
      invariant stream.Valid()
      invariant length - 1 <= |all| && stream.Rest() == all[length - 1..]
      invariant code == 2 * MsbValue(all[..length - 1])
      invariant first == FirstCode(lengths, length) <= code
      invariant index == Shorter(lengths, length)
      invariant NoneShorter(lengths, all, length)
    {
      var bit := stream.ReadBits(1);
      if bit.None? {
        DecodeNone(lengths, all, length);
        return None;
      }
      NextBit(all, length - 1, bit.value);
      LengthSteps(lengths, length);
      code := code + bit.value;
      var count := table.counts[length];
      if code < first + count {
        ghost var s := MatchAt(lengths, all, length);
        DecodeIs(lengths, all, s);
        return Some(table.symbols[index + code - first]);
      }
      NoMatchAt(lengths, all, length);
      index := index + count;
      first := 2 * (first + count);
      code := 2 * code;
    }
    DecodeNone(lengths, all, MAX_BITS + 1);
    return None;
  }

  lemma StartOfCode(lengths: seq<nat>, bits: seq<bool>)
    ensures MsbValue(bits[..0]) == 0 && bits[0..] == bits && NoneShorter(lengths, bits, 1)
  {
    assert bits[..0] == [];
  }

  lemma NextBit(bits: seq<bool>, n: nat, bit: nat)
    requires n < |bits| && bit == LsbValue(bits[n..][..1])
    ensures MsbValue(bits[..n + 1]) == 2 * MsbValue(bits[..n]) + bit
    ensures bits[n..][1..] == bits[n + 1..]
  {
    assert bits[n..][..1] == [bits[n]];
    assert [bits[n]][1..] == [];
    assert bits[..n + 1][..n] == bits[..n];
  }
}
