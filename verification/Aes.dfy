/** The AES-128 cipher and inverse cipher of src/crypto/crypto.c (sections 5.1 and 5.3 of FIPS 197):
    the in-place transformations of the 16-byte state, what each computes, and the proof that
    decryption and encryption undo each other for every block and every 44 round-key words. */
module Aes {
  import opened AesField
  import opened Octets

  /** A cipher state: column `c` is bytes `4c` to `4c + 3`. */
  type Block = s: seq<bv8> | |s| == 16 witness seq(16, i => 0)

  type RoundKeys = k: seq<bv32> | |k| == 44 witness seq(44, i => 0)

  datatype Column = Column(b0: bv8, b1: bv8, b2: bv8, b3: bv8)

  // ---- the transformations as functions ----------------------------------------

  /** Byte `j` of a round-key word, the most significant first. */
  function KeyByte(w: bv32, j: nat): bv8
    requires j < 4
  {
    if j == 0 then ((w >> 24) & 0xFF) as bv8
    else if j == 1 then ((w >> 16) & 0xFF) as bv8
    else if j == 2 then ((w >> 8) & 0xFF) as bv8
    else (w & 0xFF) as bv8
  }

  /** A round-key word is its four bytes, the first on top. */
  lemma KeyBytes(w: bv32)
    ensures w == ((KeyByte(w, 0) as bv32) << 24) | ((KeyByte(w, 1) as bv32) << 16)
                 | ((KeyByte(w, 2) as bv32) << 8) | (KeyByte(w, 3) as bv32)
  {
  }

  function AddRoundKey(s: Block, keys: RoundKeys, round: nat): Block
    requires round <= 10
  {
    seq(16, i requires 0 <= i < 16 => Xor(s[i], KeyByte(keys[4 * round + i / 4], i % 4)))
  }

  function SubBytes(s: Block): Block {
    seq(16, i requires 0 <= i < 16 => Sbox(s[i]))
  }

  function InvSubBytes(s: Block): Block {
    seq(16, i requires 0 <= i < 16 => InvSbox(s[i]))
  }

  function ShiftRows(s: Block): Block {
    seq(16, i requires 0 <= i < 16 => s[(i / 4 + i % 4) % 4 * 4 + i % 4])
  }

  function InvShiftRows(s: Block): Block {
    seq(16, i requires 0 <= i < 16 => s[(i / 4 - i % 4 + 4) % 4 * 4 + i % 4])
  }

  function ColumnOf(s: Block, c: nat): Column
    requires c < 4
  {
    Column(s[4 * c], s[4 * c + 1], s[4 * c + 2], s[4 * c + 3])
  }

  function FromColumns(c0: Column, c1: Column, c2: Column, c3: Column): Block {
    [c0.b0, c0.b1, c0.b2, c0.b3, c1.b0, c1.b1, c1.b2, c1.b3, c2.b0, c2.b1, c2.b2, c2.b3, c3.b0, c3.b1, c3.b2, c3.b3]
  }

  function Xor4(a: bv8, b: bv8, c: bv8, d: bv8): bv8 { Xor(Xor(a, b), Xor(c, d)) }

  function Mix(c: Column): Column {
    Column(Xor4(Multiply(c.b0, 2), Multiply(c.b1, 3), c.b2, c.b3),
           Xor4(c.b0, Multiply(c.b1, 2), Multiply(c.b2, 3), c.b3),
           Xor4(c.b0, c.b1, Multiply(c.b2, 2), Multiply(c.b3, 3)),
           Xor4(Multiply(c.b0, 3), c.b1, c.b2, Multiply(c.b3, 2)))
  }

  function InvMix(c: Column): Column {
    Column(Xor4(Multiply(c.b0, 14), Multiply(c.b1, 11), Multiply(c.b2, 13), Multiply(c.b3, 9)),
           Xor4(Multiply(c.b0, 9), Multiply(c.b1, 14), Multiply(c.b2, 11), Multiply(c.b3, 13)),
           Xor4(Multiply(c.b0, 13), Multiply(c.b1, 9), Multiply(c.b2, 14), Multiply(c.b3, 11)),
           Xor4(Multiply(c.b0, 11), Multiply(c.b1, 13), Multiply(c.b2, 9), Multiply(c.b3, 14)))
  }

  function MixColumns(s: Block): Block {
    FromColumns(Mix(ColumnOf(s, 0)), Mix(ColumnOf(s, 1)), Mix(ColumnOf(s, 2)), Mix(ColumnOf(s, 3)))
  }

  function InvMixColumns(s: Block): Block {
    FromColumns(InvMix(ColumnOf(s, 0)), InvMix(ColumnOf(s, 1)), InvMix(ColumnOf(s, 2)), InvMix(ColumnOf(s, 3)))
  }

  // ---- the ciphers as functions --------------------------------------------------

  /** The state after the first key addition and `rounds` full rounds. */
  function Rounds(keys: RoundKeys, input: Block, rounds: nat): Block
    requires rounds <= 9
  {
    if rounds == 0 then AddRoundKey(input, keys, 0)
    else AddRoundKey(MixColumns(ShiftRows(SubBytes(Rounds(keys, input, rounds - 1)))), keys, rounds)
  }

  function Encrypt(keys: RoundKeys, input: Block): Block {
    AddRoundKey(ShiftRows(SubBytes(Rounds(keys, input, 9))), keys, 10)
  }

  /** The state after undoing rounds 10 down to `round + 1`. */
  function InvRounds(keys: RoundKeys, input: Block, round: nat): Block
    requires round <= 9
    decreases 9 - round
  {
    if round == 9 then AddRoundKey(input, keys, 10)
    else InvMixColumns(AddRoundKey(InvSubBytes(InvShiftRows(InvRounds(keys, input, round + 1))), keys, round + 1))
  }

  function Decrypt(keys: RoundKeys, input: Block): Block {
    AddRoundKey(InvSubBytes(InvShiftRows(InvRounds(keys, input, 0))), keys, 0)
  }

  // ---- each transformation is undone by its inverse --------------------------------

  lemma AddRoundKeyTwice(s: Block, keys: RoundKeys, round: nat)
    requires round <= 10
    ensures AddRoundKey(AddRoundKey(s, keys, round), keys, round) == s
  {
    hide Xor, KeyByte;
    forall i | 0 <= i < 16 ensures AddRoundKey(AddRoundKey(s, keys, round), keys, round)[i] == s[i] {
      XorTwice(s[i], KeyByte(keys[4 * round + i / 4], i % 4));
    }
  }

  lemma InvSubBytesAfter(s: Block)
    ensures InvSubBytes(SubBytes(s)) == s
  {
    hide Sbox, InvSbox;
    forall i | 0 <= i < 16 ensures InvSbox(Sbox(s[i])) == s[i] {
      SboxInverse(s[i]);
    }
  }

  lemma InvShiftRowsAfter(s: Block)
    ensures InvShiftRows(ShiftRows(s)) == s
  {
    forall i | 0 <= i < 16 ensures InvShiftRows(ShiftRows(s))[i] == s[i] {
      RowIndex(i / 4, i % 4);
    }
  }

  lemma SubBytesAfter(s: Block)
    ensures SubBytes(InvSubBytes(s)) == s
  {
    hide Sbox, InvSbox;
    forall i | 0 <= i < 16 ensures Sbox(InvSbox(s[i])) == s[i] {
      SboxInverse(s[i]);
    }
  }

  lemma ShiftRowsAfter(s: Block)
    ensures ShiftRows(InvShiftRows(s)) == s
  {
    forall i | 0 <= i < 16 ensures ShiftRows(InvShiftRows(s))[i] == s[i] {
      RowIndexBack(i / 4, i % 4);
    }
  }

  lemma RowIndexBack(c: nat, r: nat)
    requires c < 4 && r < 4
    ensures ((c + r) % 4 * 4 + r) / 4 == (c + r) % 4 && ((c + r) % 4 * 4 + r) % 4 == r
    ensures ((c + r) % 4 - r + 4) % 4 == c
  {
  }

  lemma RowIndex(c: nat, r: nat)
    requires c < 4 && r < 4
    ensures ((c - r + 4) % 4 * 4 + r) / 4 == (c - r + 4) % 4 && ((c - r + 4) % 4 * 4 + r) % 4 == r
    ensures ((c - r + 4) % 4 + r) % 4 == c
  {
  }

  function Add(u: Column, v: Column): Column {
    Column(Xor(u.b0, v.b0), Xor(u.b1, v.b1), Xor(u.b2, v.b2), Xor(u.b3, v.b3))
  }

  lemma Xor4Add(a: bv8, b: bv8, c: bv8, d: bv8, e: bv8, f: bv8, g: bv8, h: bv8)
    ensures Xor4(Xor(a, e), Xor(b, f), Xor(c, g), Xor(d, h)) == Xor(Xor4(a, b, c, d), Xor4(e, f, g, h))
  {
    hide Xor;
    Interchange(a, e, b, f);
    Interchange(c, g, d, h);
    Interchange(Xor(a, b), Xor(e, f), Xor(c, d), Xor(g, h));
  }

  lemma MixAdd(u: Column, v: Column)
    ensures Mix(Add(u, v)) == Add(Mix(u), Mix(v))
  {
    hide Xor, Xor4, Multiply;
    forall k: bv8
      ensures Multiply(Xor(u.b0, v.b0), k) == Xor(Multiply(u.b0, k), Multiply(v.b0, k))
      ensures Multiply(Xor(u.b1, v.b1), k) == Xor(Multiply(u.b1, k), Multiply(v.b1, k))
      ensures Multiply(Xor(u.b2, v.b2), k) == Xor(Multiply(u.b2, k), Multiply(v.b2, k))
      ensures Multiply(Xor(u.b3, v.b3), k) == Xor(Multiply(u.b3, k), Multiply(v.b3, k))
    {
      MultiplyXor(u.b0, v.b0, k); MultiplyXor(u.b1, v.b1, k); MultiplyXor(u.b2, v.b2, k); MultiplyXor(u.b3, v.b3, k);
    }
    Xor4Add(Multiply(u.b0, 2), Multiply(u.b1, 3), u.b2, u.b3, Multiply(v.b0, 2), Multiply(v.b1, 3), v.b2, v.b3);
    Xor4Add(u.b0, Multiply(u.b1, 2), Multiply(u.b2, 3), u.b3, v.b0, Multiply(v.b1, 2), Multiply(v.b2, 3), v.b3);
    Xor4Add(u.b0, u.b1, Multiply(u.b2, 2), Multiply(u.b3, 3), v.b0, v.b1, Multiply(v.b2, 2), Multiply(v.b3, 3));
    Xor4Add(Multiply(u.b0, 3), u.b1, u.b2, Multiply(u.b3, 2), Multiply(v.b0, 3), v.b1, v.b2, Multiply(v.b3, 2));
  }

  lemma InvMixAdd(u: Column, v: Column)
    ensures InvMix(Add(u, v)) == Add(InvMix(u), InvMix(v))
  {
    hide Xor, Xor4, Multiply;
    forall k: bv8
      ensures Multiply(Xor(u.b0, v.b0), k) == Xor(Multiply(u.b0, k), Multiply(v.b0, k))
      ensures Multiply(Xor(u.b1, v.b1), k) == Xor(Multiply(u.b1, k), Multiply(v.b1, k))
      ensures Multiply(Xor(u.b2, v.b2), k) == Xor(Multiply(u.b2, k), Multiply(v.b2, k))
      ensures Multiply(Xor(u.b3, v.b3), k) == Xor(Multiply(u.b3, k), Multiply(v.b3, k))
    {
      MultiplyXor(u.b0, v.b0, k); MultiplyXor(u.b1, v.b1, k); MultiplyXor(u.b2, v.b2, k); MultiplyXor(u.b3, v.b3, k);
    }
    InvRowAdd(u, v, 14, 11, 13, 9);
    InvRowAdd(u, v, 9, 14, 11, 13);
    InvRowAdd(u, v, 13, 9, 14, 11);
    InvRowAdd(u, v, 11, 13, 9, 14);
  }

  lemma InvRowAdd(u: Column, v: Column, k0: bv8, k1: bv8, k2: bv8, k3: bv8)
    ensures Xor4(Xor(Multiply(u.b0, k0), Multiply(v.b0, k0)), Xor(Multiply(u.b1, k1), Multiply(v.b1, k1)),
                 Xor(Multiply(u.b2, k2), Multiply(v.b2, k2)), Xor(Multiply(u.b3, k3), Multiply(v.b3, k3)))
         == Xor(Xor4(Multiply(u.b0, k0), Multiply(u.b1, k1), Multiply(u.b2, k2), Multiply(u.b3, k3)),
                Xor4(Multiply(v.b0, k0), Multiply(v.b1, k1), Multiply(v.b2, k2), Multiply(v.b3, k3)))
  {
    hide Xor, Xor4, Multiply;
    Xor4Add(Multiply(u.b0, k0), Multiply(u.b1, k1), Multiply(u.b2, k2), Multiply(u.b3, k3),
            Multiply(v.b0, k0), Multiply(v.b1, k1), Multiply(v.b2, k2), Multiply(v.b3, k3));
  }

  // ---- columns with one non-zero byte -----------------------------------------------

  function Unit(a: bv8, j: nat): Column
    requires j < 4
  {
    if j == 0 then Column(a, 0, 0, 0) else if j == 1 then Column(0, a, 0, 0)
    else if j == 2 then Column(0, 0, a, 0) else Column(0, 0, 0, a)
  }

  lemma {:induction false} ZeroTimes(k: bv8)
    ensures Multiply(0, k) == 0
    decreases k
  {
    assert Double(0) == 0;
    if k != 0 { ZeroTimes(k >> 1); }
  }

  lemma Xor4Zero(a: bv8)
    ensures Xor4(a, 0, 0, 0) == Xor4(0, a, 0, 0) == Xor4(0, 0, a, 0) == Xor4(0, 0, 0, a) == a
  {
  }

  lemma Xor4Rotate(a: bv8, b: bv8, c: bv8, d: bv8)
    ensures Xor4(a, b, c, d) == Xor4(d, a, b, c)
  {
    hide Xor;
    XorComm(c, d);
    Interchange(a, b, d, c);
    XorComm(a, d);
  }

  lemma MixOfUnit(a: bv8, j: nat)
    requires j < 4
    ensures Mix(Unit(a, j)) ==
              var d, t := Multiply(a, 2), Multiply(a, 3);
              if j == 0 then Column(d, a, a, t) else if j == 1 then Column(t, d, a, a)
              else if j == 2 then Column(a, t, d, a) else Column(a, a, t, d)
  {
    hide Xor4, Multiply;
    ZeroTimes(2); ZeroTimes(3);
    Xor4Zero(a); Xor4Zero(Multiply(a, 2)); Xor4Zero(Multiply(a, 3));
  }

  /** The four field identities behind InvMixColumns: the products of the two coefficient rows,
      for a column whose only byte is `a`. */
  lemma Diagonal(a: bv8)
    ensures Xor4(Multiply(Multiply(a, 2), 14), Multiply(a, 11), Multiply(a, 13), Multiply(Multiply(a, 3), 9)) == a
  {
    hide Multiply;
    TimesConstants(a); Times14(Multiply(a, 2)); Times9(Multiply(a, 3));
  }

  lemma OffDiagonal1(a: bv8)
    ensures Xor4(Multiply(Multiply(a, 2), 9), Multiply(a, 14), Multiply(a, 11), Multiply(Multiply(a, 3), 13)) == 0
  {
    hide Multiply;
    TimesConstants(a); Times9(Multiply(a, 2)); Times13(Multiply(a, 3));
  }

  lemma OffDiagonal2(a: bv8)
    ensures Xor4(Multiply(Multiply(a, 2), 13), Multiply(a, 9), Multiply(a, 14), Multiply(Multiply(a, 3), 11)) == 0
  {
    hide Multiply;
    TimesConstants(a); Times13(Multiply(a, 2)); Times11(Multiply(a, 3));
  }

  lemma OffDiagonal3(a: bv8)
    ensures Xor4(Multiply(Multiply(a, 2), 11), Multiply(a, 13), Multiply(a, 9), Multiply(Multiply(a, 3), 14)) == 0
  {
    hide Multiply;
    TimesConstants(a); Times11(Multiply(a, 2)); Times14(Multiply(a, 3));
  }

  lemma MixUnitInverse(a: bv8, j: nat)
    requires j < 4
    ensures InvMix(Mix(Unit(a, j))) == Unit(a, j)
  {
    hide Xor4, Multiply, Mix;
    MixOfUnit(a, j);
    Diagonal(a); OffDiagonal1(a); OffDiagonal2(a); OffDiagonal3(a);
    forall x: bv8, y: bv8, z: bv8, w: bv8
      ensures Xor4(x, y, z, w) == Xor4(w, x, y, z)
    {
      Xor4Rotate(x, y, z, w);
    }
  }

  lemma InvMixOfUnit(a: bv8, j: nat)
    requires j < 4
    ensures InvMix(Unit(a, j)) ==
              var e, f, g, h := Multiply(a, 14), Multiply(a, 9), Multiply(a, 13), Multiply(a, 11);
              if j == 0 then Column(e, f, g, h) else if j == 1 then Column(h, e, f, g)
              else if j == 2 then Column(g, h, e, f) else Column(f, g, h, e)
  {
    hide Xor4, Multiply;
    ZeroTimes(9); ZeroTimes(11); ZeroTimes(13); ZeroTimes(14);
    Xor4Zero(Multiply(a, 9)); Xor4Zero(Multiply(a, 11)); Xor4Zero(Multiply(a, 13)); Xor4Zero(Multiply(a, 14));
  }

  /** The same four identities the other way round. */
  lemma InvDiagonal(a: bv8)
    ensures Xor4(Multiply(Multiply(a, 14), 2), Multiply(Multiply(a, 9), 3), Multiply(a, 13), Multiply(a, 11)) == a
  {
    hide Multiply;
    TimesConstants(a); Times2(Multiply(a, 14)); Times3(Multiply(a, 9));
  }

  lemma InvOffDiagonal1(a: bv8)
    ensures Xor4(Multiply(a, 14), Multiply(Multiply(a, 9), 2), Multiply(Multiply(a, 13), 3), Multiply(a, 11)) == 0
  {
    hide Multiply;
    TimesConstants(a); Times2(Multiply(a, 9)); Times3(Multiply(a, 13));
  }

  lemma InvOffDiagonal2(a: bv8)
    ensures Xor4(Multiply(a, 14), Multiply(a, 9), Multiply(Multiply(a, 13), 2), Multiply(Multiply(a, 11), 3)) == 0
  {
    hide Multiply;
    TimesConstants(a); Times2(Multiply(a, 13)); Times3(Multiply(a, 11));
  }

  lemma InvOffDiagonal3(a: bv8)
    ensures Xor4(Multiply(Multiply(a, 14), 3), Multiply(a, 9), Multiply(a, 13), Multiply(Multiply(a, 11), 2)) == 0
  {
    hide Multiply;
    TimesConstants(a); Times3(Multiply(a, 14)); Times2(Multiply(a, 11));
  }

  lemma InvMixUnitInverse(a: bv8, j: nat)
    requires j < 4
    ensures Mix(InvMix(Unit(a, j))) == Unit(a, j)
  {
    hide Xor4, Multiply, InvMix;
    InvMixOfUnit(a, j);
    InvDiagonal(a); InvOffDiagonal1(a); InvOffDiagonal2(a); InvOffDiagonal3(a);
    forall x: bv8, y: bv8, z: bv8, w: bv8
      ensures Xor4(x, y, z, w) == Xor4(w, x, y, z)
    {
      Xor4Rotate(x, y, z, w);
    }
  }

  lemma ColumnAsUnits(c: Column)
    ensures c == Add(Add(Unit(c.b0, 0), Unit(c.b1, 1)), Add(Unit(c.b2, 2), Unit(c.b3, 3)))
  {
    hide Xor;
    XorZero(c.b0); XorZero(c.b1); XorZero(c.b2); XorZero(c.b3); XorZero(0);
  }

  /** InvMixColumns undoes MixColumns, column by column. */
  lemma MixInverse(c: Column)
    ensures InvMix(Mix(c)) == c
  {
    hide Mix, InvMix, Add;
    var u0, u1, u2, u3 := Unit(c.b0, 0), Unit(c.b1, 1), Unit(c.b2, 2), Unit(c.b3, 3);
    ColumnAsUnits(c);
    MixAdd(Add(u0, u1), Add(u2, u3)); MixAdd(u0, u1); MixAdd(u2, u3);
    InvMixAdd(Mix(Add(u0, u1)), Mix(Add(u2, u3)));
    InvMixAdd(Mix(u0), Mix(u1)); InvMixAdd(Mix(u2), Mix(u3));
    MixUnitInverse(c.b0, 0); MixUnitInverse(c.b1, 1); MixUnitInverse(c.b2, 2); MixUnitInverse(c.b3, 3);
  }

  lemma MixColumnsInverse(s: Block)
    ensures InvMixColumns(MixColumns(s)) == s
  {
    hide Mix, InvMix;
    forall c | 0 <= c < 4 ensures InvMix(Mix(ColumnOf(s, c))) == ColumnOf(s, c) {
      MixInverse(ColumnOf(s, c));
    }
    var t := MixColumns(s);
    assert ColumnOf(t, 0) == Mix(ColumnOf(s, 0)) && ColumnOf(t, 1) == Mix(ColumnOf(s, 1));
    assert ColumnOf(t, 2) == Mix(ColumnOf(s, 2)) && ColumnOf(t, 3) == Mix(ColumnOf(s, 3));
  }

  lemma InvMixInverse(c: Column)
    ensures Mix(InvMix(c)) == c
  {
    hide Mix, InvMix, Add;
    var u0, u1, u2, u3 := Unit(c.b0, 0), Unit(c.b1, 1), Unit(c.b2, 2), Unit(c.b3, 3);
    ColumnAsUnits(c);
    InvMixAdd(Add(u0, u1), Add(u2, u3)); InvMixAdd(u0, u1); InvMixAdd(u2, u3);
    MixAdd(InvMix(Add(u0, u1)), InvMix(Add(u2, u3)));
    MixAdd(InvMix(u0), InvMix(u1)); MixAdd(InvMix(u2), InvMix(u3));
    InvMixUnitInverse(c.b0, 0); InvMixUnitInverse(c.b1, 1); InvMixUnitInverse(c.b2, 2); InvMixUnitInverse(c.b3, 3);
  }

  lemma InvMixColumnsInverse(s: Block)
    ensures MixColumns(InvMixColumns(s)) == s
  {
    hide Mix, InvMix;
    forall c | 0 <= c < 4 ensures Mix(InvMix(ColumnOf(s, c))) == ColumnOf(s, c) {
      InvMixInverse(ColumnOf(s, c));
    }
    var t := InvMixColumns(s);
    assert ColumnOf(t, 0) == InvMix(ColumnOf(s, 0)) && ColumnOf(t, 1) == InvMix(ColumnOf(s, 1));
    assert ColumnOf(t, 2) == InvMix(ColumnOf(s, 2)) && ColumnOf(t, 3) == InvMix(ColumnOf(s, 3));
  }

  // ---- the ciphers are inverse ------------------------------------------------------

  lemma {:induction false} InvRoundsFollow(keys: RoundKeys, input: Block, round: nat)
    requires round <= 9
    ensures InvRounds(keys, Encrypt(keys, input), round) == ShiftRows(SubBytes(Rounds(keys, input, round)))
    decreases 9 - round
  {
    hide AddRoundKey, ShiftRows, SubBytes, MixColumns, InvMixColumns, InvShiftRows, InvSubBytes;
    if round == 9 {
      AddRoundKeyTwice(ShiftRows(SubBytes(Rounds(keys, input, 9))), keys, 10);
    } else {
      var before, after := Rounds(keys, input, round), Rounds(keys, input, round + 1);
      InvRoundsFollow(keys, input, round + 1);
      InvShiftRowsAfter(SubBytes(after));
      InvSubBytesAfter(after);
      AddRoundKeyTwice(MixColumns(ShiftRows(SubBytes(before))), keys, round + 1);
      MixColumnsInverse(ShiftRows(SubBytes(before)));
    }
  }

  /** Decrypting an encrypted block returns it, whatever the round keys. */
  lemma DecryptEncrypt(keys: RoundKeys, input: Block)
    ensures Decrypt(keys, Encrypt(keys, input)) == input
  {
    hide AddRoundKey, ShiftRows, SubBytes, InvShiftRows, InvSubBytes, InvRounds;
    var first := Rounds(keys, input, 0);
    InvRoundsFollow(keys, input, 0);
    InvShiftRowsAfter(SubBytes(first));
    InvSubBytesAfter(first);
    AddRoundKeyTwice(input, keys, 0);
  }

  lemma {:induction false} RoundsFollow(keys: RoundKeys, input: Block, round: nat)
    requires round <= 9
    ensures Rounds(keys, Decrypt(keys, input), round) == InvSubBytes(InvShiftRows(InvRounds(keys, input, round)))
  {
    hide AddRoundKey, ShiftRows, SubBytes, MixColumns, InvMixColumns, InvShiftRows, InvSubBytes;
    var here := InvSubBytes(InvShiftRows(InvRounds(keys, input, round)));
    if round == 0 {
      AddRoundKeyTwice(here, keys, 0);
    } else {
      RoundsFollow(keys, input, round - 1);
      var before := InvRounds(keys, input, round - 1);
      SubBytesAfter(InvShiftRows(before));
      ShiftRowsAfter(before);
      InvMixColumnsInverse(AddRoundKey(here, keys, round));
      AddRoundKeyTwice(here, keys, round);
    }
  }

  /** And encrypting a decrypted block returns that. */
  lemma EncryptDecrypt(keys: RoundKeys, input: Block)
    ensures Encrypt(keys, Decrypt(keys, input)) == input
  {
    hide AddRoundKey, ShiftRows, SubBytes, InvShiftRows, InvSubBytes, Decrypt, Rounds;
    var last := InvRounds(keys, input, 9);
    RoundsFollow(keys, input, 9);
    SubBytesAfter(InvShiftRows(last));
    ShiftRowsAfter(last);
    AddRoundKeyTwice(input, keys, 10);
  }

  // ---- the transformations in place ---------------------------------------------------

  method AddRoundKeyInPlace(st: array<bv8>, keys: RoundKeys, round: nat)
    requires st.Length == 16 && round <= 10
    modifies st
    ensures st[..] == AddRoundKey(old(st[..]), keys, round)
  {
    hide Xor, KeyByte;
    for i := 0 to 16
      invariant forall k | 0 <= k < i :: st[k] == AddRoundKey(old(st[..]), keys, round)[k]
      invariant forall k | i <= k < 16 :: st[k] == old(st[k])
    {
      st[i] := Xor(st[i], KeyByte(keys[4 * round + i / 4], i % 4));
    }
  }

  method SubBytesInPlace(st: array<bv8>)
    requires st.Length == 16
    modifies st
    ensures st[..] == SubBytes(old(st[..]))
  {
    hide Sbox;
    for i := 0 to 16
      invariant forall k | 0 <= k < i :: st[k] == Sbox(old(st[k]))
      invariant forall k | i <= k < 16 :: st[k] == old(st[k])
    {
      st[i] := Sbox(st[i]);
    }
  }

  method ShiftRowsInPlace(st: array<bv8>)
    requires st.Length == 16
    modifies st
    ensures st[..] == ShiftRows(old(st[..]))
  {
    hide ShiftRows;
    var t := st[..];
    for r := 0 to 4
      invariant forall k | 0 <= k < 16 && k % 4 < r :: st[k] == ShiftRows(t)[k]
    {
      ShiftRow(st, t, r);
    }
  }

  method ShiftRow(st: array<bv8>, t: Block, r: nat)
    requires st.Length == 16 && r < 4
    modifies st
    ensures forall k | 0 <= k < 16 :: st[k] == if k % 4 == r then ShiftRows(t)[k] else old(st[k])
  {
    for c := 0 to 4
      invariant forall k | 0 <= k < 16 :: st[k] == if k % 4 == r && k / 4 < c then ShiftRows(t)[k] else old(st[k])
    {
      st[c * 4 + r] := t[(c + r) % 4 * 4 + r];
    }
  }

  method InvShiftRowsInPlace(st: array<bv8>)
    requires st.Length == 16
    modifies st
    ensures st[..] == InvShiftRows(old(st[..]))
  {
    hide InvShiftRows;
    var t := st[..];
    for r := 0 to 4
      invariant forall k | 0 <= k < 16 && k % 4 < r :: st[k] == InvShiftRows(t)[k]
    {
      InvShiftRow(st, t, r);
    }
  }

  method InvShiftRow(st: array<bv8>, t: Block, r: nat)
    requires st.Length == 16 && r < 4
    modifies st
    ensures forall k | 0 <= k < 16 :: st[k] == if k % 4 == r then InvShiftRows(t)[k] else old(st[k])
  {
    for c := 0 to 4
      invariant forall k | 0 <= k < 16 :: st[k] == if k % 4 == r && k / 4 < c then InvShiftRows(t)[k] else old(st[k])
    {
      st[c * 4 + r] := t[(c - r + 4) % 4 * 4 + r];
    }
  }

  method MixColumnsInPlace(st: array<bv8>)
    requires st.Length == 16
    modifies st
    ensures st[..] == MixColumns(old(st[..]))
  {
    hide Mix;
    ghost var s := st[..];
    for c := 0 to 4
      invariant forall k | 0 <= k < 4 :: ColumnOf(st[..], k) == if k < c then Mix(ColumnOf(s, k)) else ColumnOf(s, k)
    {
      MixColumn(st, c);
    }
    SameColumns(st[..], MixColumns(s));
  }

  method MixColumn(st: array<bv8>, c: nat)
    requires st.Length == 16 && c < 4
    modifies st
    ensures forall k | 0 <= k < 4 ::
              ColumnOf(st[..], k) == if k == c then Mix(ColumnOf(old(st[..]), k)) else ColumnOf(old(st[..]), k)
  {
    hide Multiply, Xor4;
    var a0, a1, a2, a3 := st[c * 4], st[c * 4 + 1], st[c * 4 + 2], st[c * 4 + 3];
    st[c * 4] := Xor4(Multiply(a0, 2), Multiply(a1, 3), a2, a3);
    st[c * 4 + 1] := Xor4(a0, Multiply(a1, 2), Multiply(a2, 3), a3);
    st[c * 4 + 2] := Xor4(a0, a1, Multiply(a2, 2), Multiply(a3, 3));
    st[c * 4 + 3] := Xor4(Multiply(a0, 3), a1, a2, Multiply(a3, 2));
  }

  method InvMixColumnsInPlace(st: array<bv8>)
    requires st.Length == 16
    modifies st
    ensures st[..] == InvMixColumns(old(st[..]))
  {
    hide InvMix;
    ghost var s := st[..];
    for c := 0 to 4
      invariant forall k | 0 <= k < 4 :: ColumnOf(st[..], k) == if k < c then InvMix(ColumnOf(s, k)) else ColumnOf(s, k)
    {
      InvMixColumn(st, c);
    }
    SameColumns(st[..], InvMixColumns(s));
  }

  method InvMixColumn(st: array<bv8>, c: nat)
    requires st.Length == 16 && c < 4
    modifies st
    ensures forall k | 0 <= k < 4 ::
              ColumnOf(st[..], k) == if k == c then InvMix(ColumnOf(old(st[..]), k)) else ColumnOf(old(st[..]), k)
  {
    hide Multiply, Xor4;
    var a0, a1, a2, a3 := st[c * 4], st[c * 4 + 1], st[c * 4 + 2], st[c * 4 + 3];
    st[c * 4] := Xor4(Multiply(a0, 14), Multiply(a1, 11), Multiply(a2, 13), Multiply(a3, 9));
    st[c * 4 + 1] := Xor4(Multiply(a0, 9), Multiply(a1, 14), Multiply(a2, 11), Multiply(a3, 13));
    st[c * 4 + 2] := Xor4(Multiply(a0, 13), Multiply(a1, 9), Multiply(a2, 14), Multiply(a3, 11));
    st[c * 4 + 3] := Xor4(Multiply(a0, 11), Multiply(a1, 13), Multiply(a2, 9), Multiply(a3, 14));
  }

  lemma SameColumns(s: Block, t: Block)
    requires forall k | 0 <= k < 4 :: ColumnOf(s, k) == ColumnOf(t, k)
    ensures s == t
  {
    forall i | 0 <= i < 16 ensures s[i] == t[i] {
      assert ColumnOf(s, i / 4) == ColumnOf(t, i / 4);
    }
  }

  // ---- the ciphers ----------------------------------------------------------------------

  method EncryptBlock(keys: RoundKeys, input: Block) returns (output: Block)
    ensures output == Encrypt(keys, input)
  {
    hide AddRoundKey, ShiftRows, SubBytes, MixColumns;
    var st := new bv8[16](i requires 0 <= i < 16 => input[i]);
    assert st[..] == input;
    AddRoundKeyInPlace(st, keys, 0);
    for round := 1 to 10
      invariant st[..] == Rounds(keys, input, round - 1)
    {
      SubBytesInPlace(st);
      ShiftRowsInPlace(st);
      MixColumnsInPlace(st);
      AddRoundKeyInPlace(st, keys, round);
    }
    SubBytesInPlace(st);
    ShiftRowsInPlace(st);
    AddRoundKeyInPlace(st, keys, 10);
    output := st[..];
  }

  /** The inverse substitution table, filled on first use from the forward one. */
  class InverseTable {
    const table: array<bv8>
    var ready: bool

    ghost predicate Valid()
      reads this, table
    {
      table.Length == 256 && (ready ==> forall b: bv8 :: table[b] == InvSbox(b))
    }

    constructor ()
      ensures Valid() && !ready && fresh(table)
    {
      table := new bv8[256];
      ready := false;
    }

    method Init()
      requires Valid()
      modifies this, table
      ensures Valid() && ready
    {
      hide Sbox, InvSbox, Byte;
      for i := 0 to 256
        invariant forall k | 0 <= k < i :: table[Sbox(Byte(k))] == Byte(k)
      {
        forall k | 0 <= k < i ensures Sbox(Byte(k)) != Sbox(Byte(i)) {
          SboxInverse(Byte(k));
          SboxInverse(Byte(i));
          OctetValue(k);
          OctetValue(i);
        }
        table[Sbox(Byte(i))] := Byte(i);
      }
      forall b: bv8 ensures table[b] == InvSbox(b) {
        SboxInverse(b);
        ByteOfInt(InvSbox(b));
      }
      ready := true;
    }

    method InvSubBytesInPlace(st: array<bv8>)
      requires Valid() && ready && st.Length == 16 && st != table
      modifies st
      ensures st[..] == InvSubBytes(old(st[..]))
    {
      hide InvSbox;
      for i := 0 to 16
        invariant forall k | 0 <= k < i :: st[k] == InvSbox(old(st[k]))
        invariant forall k | i <= k < 16 :: st[k] == old(st[k])
      {
        st[i] := table[st[i]];
      }
    }

    method DecryptBlock(keys: RoundKeys, input: Block) returns (output: Block)
      requires Valid()
      modifies this, table
      ensures Valid() && ready
      ensures output == Decrypt(keys, input)
    {
      hide AddRoundKey, InvShiftRows, InvSubBytes, InvMixColumns, InvSbox;
      if !ready {
        Init();
      }
      var st := new bv8[16](i requires 0 <= i < 16 => input[i]);
      assert st[..] == input;
      AddRoundKeyInPlace(st, keys, 10);
      for round := 10 downto 1
        invariant Valid() && ready
        invariant st[..] == InvRounds(keys, input, round - 1)
      {
        InvShiftRowsInPlace(st);
        InvSubBytesInPlace(st);
        AddRoundKeyInPlace(st, keys, round);
        InvMixColumnsInPlace(st);
      }
      InvShiftRowsInPlace(st);
      InvSubBytesInPlace(st);
      AddRoundKeyInPlace(st, keys, 0);
      output := st[..];
    }
  }

  lemma ByteOfInt(b: bv8)
    ensures 0 <= b as int < 256 && Byte(b as int) == b
  {
  }
}
