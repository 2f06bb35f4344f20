/** One block encrypted round by round: the example of appendix B of FIPS 197.  It depends on the substitution
    table, the direction of the row shifts, the coefficients of the column mix, the order of key bytes and the
    order and number of the steps. */
module AesExample {
  import opened AesField
  import opened Aes

  /** A state by columns. */
  datatype Square = Square(c0: Column, c1: Column, c2: Column, c3: Column)

  function Flat(s: Square): Block { FromColumns(s.c0, s.c1, s.c2, s.c3) }

  /** A substituted column whose bytes come from four columns. */
  function Substituted(a: Column, b: Column, c: Column, d: Column): Column {
    Column(Sbox(a.b0), Sbox(b.b1), Sbox(c.b2), Sbox(d.b3))
  }

  function SubShift(s: Square): Square {
    Square(Substituted(s.c0, s.c1, s.c2, s.c3), Substituted(s.c1, s.c2, s.c3, s.c0),
           Substituted(s.c2, s.c3, s.c0, s.c1), Substituted(s.c3, s.c0, s.c1, s.c2))
  }

  function Mixed(s: Square): Square { Square(Mix(s.c0), Mix(s.c1), Mix(s.c2), Mix(s.c3)) }

  function Keyed(c: Column, w: bv32): Column {
    Column(Xor(c.b0, KeyByte(w, 0)), Xor(c.b1, KeyByte(w, 1)), Xor(c.b2, KeyByte(w, 2)), Xor(c.b3, KeyByte(w, 3)))
  }

  function Added(s: Square, w0: bv32, w1: bv32, w2: bv32, w3: bv32): Square {
    Square(Keyed(s.c0, w0), Keyed(s.c1, w1), Keyed(s.c2, w2), Keyed(s.c3, w3))
  }

  lemma SubShiftIs(s: Square)
    ensures ShiftRows(SubBytes(Flat(s))) == Flat(SubShift(s))
  {
    hide Sbox;
    var t := SubBytes(Flat(s));
    RowsAre(t);
    assert t[0] == Sbox(s.c0.b0) && t[1] == Sbox(s.c0.b1) && t[2] == Sbox(s.c0.b2) && t[3] == Sbox(s.c0.b3);
    assert t[4] == Sbox(s.c1.b0) && t[5] == Sbox(s.c1.b1) && t[6] == Sbox(s.c1.b2) && t[7] == Sbox(s.c1.b3);
    assert t[8] == Sbox(s.c2.b0) && t[9] == Sbox(s.c2.b1) && t[10] == Sbox(s.c2.b2) && t[11] == Sbox(s.c2.b3);
    assert t[12] == Sbox(s.c3.b0) && t[13] == Sbox(s.c3.b1) && t[14] == Sbox(s.c3.b2) && t[15] == Sbox(s.c3.b3);
  }

  /** Row `r` moves left by `r`. */
  lemma RowsAre(t: Block)
    ensures ShiftRows(t) == [t[0], t[5], t[10], t[15], t[4], t[9], t[14], t[3],
                             t[8], t[13], t[2], t[7], t[12], t[1], t[6], t[11]]
  {
    var u := ShiftRows(t);
    assert u[0] == t[0] && u[1] == t[5] && u[2] == t[10] && u[3] == t[15];
    assert u[4] == t[4] && u[5] == t[9] && u[6] == t[14] && u[7] == t[3];
    assert u[8] == t[8] && u[9] == t[13] && u[10] == t[2] && u[11] == t[7];
    assert u[12] == t[12] && u[13] == t[1] && u[14] == t[6] && u[15] == t[11];
  }

  lemma MixedIs(s: Square)
    ensures MixColumns(Flat(s)) == Flat(Mixed(s))
  {
    hide Mix;
  }

  lemma KeyedAt(s: Block, keys: RoundKeys, r: nat, c: nat)
    requires r <= 10 && c < 4
    ensures ColumnOf(AddRoundKey(s, keys, r), c) == Keyed(ColumnOf(s, c), keys[4 * r + c])
  {
    hide Xor, KeyByte;
    assert (4 * c) / 4 == c && (4 * c + 1) / 4 == c && (4 * c + 2) / 4 == c && (4 * c + 3) / 4 == c;
  }

  lemma ByColumns(s: Block)
    ensures s == FromColumns(ColumnOf(s, 0), ColumnOf(s, 1), ColumnOf(s, 2), ColumnOf(s, 3))
  {
  }

  lemma ColumnsOf(s: Square)
    ensures ColumnOf(Flat(s), 0) == s.c0 && ColumnOf(Flat(s), 1) == s.c1
    ensures ColumnOf(Flat(s), 2) == s.c2 && ColumnOf(Flat(s), 3) == s.c3
  {
  }

  lemma AddedIs(s: Square, keys: RoundKeys, r: nat)
    requires r <= 10
    ensures AddRoundKey(Flat(s), keys, r)
         == Flat(Added(s, keys[4 * r], keys[4 * r + 1], keys[4 * r + 2], keys[4 * r + 3]))
  {
    hide Keyed, AddRoundKey, ColumnOf;
    ColumnsOf(s);
    ByColumns(AddRoundKey(Flat(s), keys, r));
    KeyedAt(Flat(s), keys, r, 0);
    KeyedAt(Flat(s), keys, r, 1);
    KeyedAt(Flat(s), keys, r, 2);
    KeyedAt(Flat(s), keys, r, 3);
  }

  // ---- the example ---------------------------------------------------------------------------------

  const KEYS: seq<bv32> :=
    [0x2b7e1516, 0x28aed2a6, 0xabf71588, 0x09cf4f3c]
    + [0xa0fafe17, 0x88542cb1, 0x23a33939, 0x2a6c7605]
    + [0xf2c295f2, 0x7a96b943, 0x5935807a, 0x7359f67f]
    + [0x3d80477d, 0x4716fe3e, 0x1e237e44, 0x6d7a883b]
    + [0xef44a541, 0xa8525b7f, 0xb671253b, 0xdb0bad00]
    + [0xd4d1c6f8, 0x7c839d87, 0xcaf2b8bc, 0x11f915bc]
    + [0x6d88a37a, 0x110b3efd, 0xdbf98641, 0xca0093fd]
    + [0x4e54f70e, 0x5f5fc9f3, 0x84a64fb2, 0x4ea6dc4f]
    + [0xead27321, 0xb58dbad2, 0x312bf560, 0x7f8d292f]
    + [0xac7766f3, 0x19fadc21, 0x28d12941, 0x575c006e]
    + [0xd014f9a8, 0xc9ee2589, 0xe13f0cc8, 0xb6630ca6]

  /** The states before each round, after substitution and row shift, and after the column mix. */
  const INPUT: Square :=
    Square(Column(0x32, 0x43, 0xf6, 0xa8), Column(0x88, 0x5a, 0x30, 0x8d),
           Column(0x31, 0x31, 0x98, 0xa2), Column(0xe0, 0x37, 0x07, 0x34))
  const S0: Square :=
    Square(Column(0x19, 0x3d, 0xe3, 0xbe), Column(0xa0, 0xf4, 0xe2, 0x2b),
           Column(0x9a, 0xc6, 0x8d, 0x2a), Column(0xe9, 0xf8, 0x48, 0x08))
  const T1: Square :=
    Square(Column(0xd4, 0xbf, 0x5d, 0x30), Column(0xe0, 0xb4, 0x52, 0xae),
           Column(0xb8, 0x41, 0x11, 0xf1), Column(0x1e, 0x27, 0x98, 0xe5))
  const M1: Square :=
    Square(Column(0x04, 0x66, 0x81, 0xe5), Column(0xe0, 0xcb, 0x19, 0x9a),
           Column(0x48, 0xf8, 0xd3, 0x7a), Column(0x28, 0x06, 0x26, 0x4c))
  const S1: Square :=
    Square(Column(0xa4, 0x9c, 0x7f, 0xf2), Column(0x68, 0x9f, 0x35, 0x2b),
           Column(0x6b, 0x5b, 0xea, 0x43), Column(0x02, 0x6a, 0x50, 0x49))
  const T2: Square :=
    Square(Column(0x49, 0xdb, 0x87, 0x3b), Column(0x45, 0x39, 0x53, 0x89),
           Column(0x7f, 0x02, 0xd2, 0xf1), Column(0x77, 0xde, 0x96, 0x1a))
  const M2: Square :=
    Square(Column(0x58, 0x4d, 0xca, 0xf1), Column(0x1b, 0x4b, 0x5a, 0xac),
           Column(0xdb, 0xe7, 0xca, 0xa8), Column(0x1b, 0x6b, 0xb0, 0xe5))
  const S2: Square :=
    Square(Column(0xaa, 0x8f, 0x5f, 0x03), Column(0x61, 0xdd, 0xe3, 0xef),
           Column(0x82, 0xd2, 0x4a, 0xd2), Column(0x68, 0x32, 0x46, 0x9a))
  const T3: Square :=
    Square(Column(0xac, 0xc1, 0xd6, 0xb8), Column(0xef, 0xb5, 0x5a, 0x7b),
           Column(0x13, 0x23, 0xcf, 0xdf), Column(0x45, 0x73, 0x11, 0xb5))
  const M3: Square :=
    Square(Column(0x75, 0xec, 0x09, 0x93), Column(0x20, 0x0b, 0x63, 0x33),
           Column(0x53, 0xc0, 0xcf, 0x7c), Column(0xbb, 0x25, 0xd0, 0xdc))
  const S3: Square :=
    Square(Column(0x48, 0x6c, 0x4e, 0xee), Column(0x67, 0x1d, 0x9d, 0x0d),
           Column(0x4d, 0xe3, 0xb1, 0x38), Column(0xd6, 0x5f, 0x58, 0xe7))
  const T4: Square :=
    Square(Column(0x52, 0xa4, 0xc8, 0x94), Column(0x85, 0x11, 0x6a, 0x28),
           Column(0xe3, 0xcf, 0x2f, 0xd7), Column(0xf6, 0x50, 0x5e, 0x07))
  const M4: Square :=
    Square(Column(0x0f, 0xd6, 0xda, 0xa9), Column(0x60, 0x31, 0x38, 0xbf),
           Column(0x6f, 0xc0, 0x10, 0x6b), Column(0x5e, 0xb3, 0x13, 0x01))
  const S4: Square :=
    Square(Column(0xe0, 0x92, 0x7f, 0xe8), Column(0xc8, 0x63, 0x63, 0xc0),
           Column(0xd9, 0xb1, 0x35, 0x50), Column(0x85, 0xb8, 0xbe, 0x01))
  const T5: Square :=
    Square(Column(0xe1, 0xfb, 0x96, 0x7c), Column(0xe8, 0xc8, 0xae, 0x9b),
           Column(0x35, 0x6c, 0xd2, 0xba), Column(0x97, 0x4f, 0xfb, 0x53))
  const M5: Square :=
    Square(Column(0x25, 0xd1, 0xa9, 0xad), Column(0xbd, 0x11, 0xd1, 0x68),
           Column(0xb6, 0x3a, 0x33, 0x8e), Column(0x4c, 0x4c, 0xc0, 0xb0))
  const S5: Square :=
    Square(Column(0xf1, 0x00, 0x6f, 0x55), Column(0xc1, 0x92, 0x4c, 0xef),
           Column(0x7c, 0xc8, 0x8b, 0x32), Column(0x5d, 0xb5, 0xd5, 0x0c))
  const T6: Square :=
    Square(Column(0xa1, 0x4f, 0x3d, 0xfe), Column(0x78, 0xe8, 0x03, 0xfc),
           Column(0x10, 0xd5, 0xa8, 0xdf), Column(0x4c, 0x63, 0x29, 0x23))
  const M6: Square :=
    Square(Column(0x4b, 0x86, 0x8d, 0x6d), Column(0x2c, 0x4a, 0x89, 0x80),
           Column(0x33, 0x9d, 0xf4, 0xe8), Column(0x37, 0xd2, 0x18, 0xd8))
  const S6: Square :=
    Square(Column(0x26, 0x0e, 0x2e, 0x17), Column(0x3d, 0x41, 0xb7, 0x7d),
           Column(0xe8, 0x64, 0x72, 0xa9), Column(0xfd, 0xd2, 0x8b, 0x25))
  const T7: Square :=
    Square(Column(0xf7, 0x83, 0x40, 0x3f), Column(0x27, 0x43, 0x3d, 0xf0),
           Column(0x9b, 0xb5, 0x31, 0xff), Column(0x54, 0xab, 0xa9, 0xd3))
  const M7: Square :=
    Square(Column(0x14, 0x15, 0xb5, 0xbf), Column(0x46, 0x16, 0x15, 0xec),
           Column(0x27, 0x46, 0x56, 0xd7), Column(0x34, 0x2a, 0xd8, 0x43))
  const S7: Square :=
    Square(Column(0x5a, 0x41, 0x42, 0xb1), Column(0x19, 0x49, 0xdc, 0x1f),
           Column(0xa3, 0xe0, 0x19, 0x65), Column(0x7a, 0x8c, 0x04, 0x0c))
  const T8: Square :=
    Square(Column(0xbe, 0x3b, 0xd4, 0xfe), Column(0xd4, 0xe1, 0xf2, 0xc8),
           Column(0x0a, 0x64, 0x2c, 0xc0), Column(0xda, 0x83, 0x86, 0x4d))
  const M8: Square :=
    Square(Column(0x00, 0x51, 0x2f, 0xd1), Column(0xb1, 0xc8, 0x89, 0xff),
           Column(0x54, 0x76, 0x6d, 0xcd), Column(0xfa, 0x1b, 0x99, 0xea))
  const S8: Square :=
    Square(Column(0xea, 0x83, 0x5c, 0xf0), Column(0x04, 0x45, 0x33, 0x2d),
           Column(0x65, 0x5d, 0x98, 0xad), Column(0x85, 0x96, 0xb0, 0xc5))
  const T9: Square :=
    Square(Column(0x87, 0x6e, 0x46, 0xa6), Column(0xf2, 0x4c, 0xe7, 0x8c),
           Column(0x4d, 0x90, 0x4a, 0xd8), Column(0x97, 0xec, 0xc3, 0x95))
  const M9: Square :=
    Square(Column(0x47, 0x37, 0x94, 0xed), Column(0x40, 0xd4, 0xe4, 0xa5),
           Column(0xa3, 0x70, 0x3a, 0xa6), Column(0x4c, 0x9f, 0x42, 0xbc))
  const S9: Square :=
    Square(Column(0xeb, 0x40, 0xf2, 0x1e), Column(0x59, 0x2e, 0x38, 0x84),
           Column(0x8b, 0xa1, 0x13, 0xe7), Column(0x1b, 0xc3, 0x42, 0xd2))
  const T10: Square :=
    Square(Column(0xe9, 0x31, 0x7d, 0xb5), Column(0xcb, 0x32, 0x2c, 0x72),
           Column(0x3d, 0x2e, 0x89, 0x5f), Column(0xaf, 0x09, 0x07, 0x94))
  const S10: Square :=
    Square(Column(0x39, 0x25, 0x84, 0x1d), Column(0x02, 0xdc, 0x09, 0xfb),
           Column(0xdc, 0x11, 0x85, 0x97), Column(0x19, 0x6a, 0x0b, 0x32))

  function Round(r: nat): Block
    requires r <= 9
  {
    Rounds(KEYS, Flat(INPUT), r)
  }

  predicate KeyWords(r: nat, w0: bv32, w1: bv32, w2: bv32, w3: bv32)
    requires r <= 10
  {
    KEYS[4 * r] == w0 && KEYS[4 * r + 1] == w1 && KEYS[4 * r + 2] == w2 && KEYS[4 * r + 3] == w3
  }

  lemma AddKeys(r: nat, s: Square, w0: bv32, w1: bv32, w2: bv32, w3: bv32, u: Square)
    requires r <= 10 && KeyWords(r, w0, w1, w2, w3) && Added(s, w0, w1, w2, w3) == u
    ensures AddRoundKey(Flat(s), KEYS, r) == Flat(u)
  {
    hide AddRoundKey, Added, Flat;
    AddedIs(s, KEYS, r);
  }

  /** A full round from `s` over `t` and `m` to `u`. */
  lemma RoundTo(r: nat, s: Square, t: Square, m: Square, u: Square)
    requires 1 <= r <= 9 && Round(r - 1) == Flat(s) && SubShift(s) == t && Mixed(t) == m
    requires AddRoundKey(Flat(m), KEYS, r) == Flat(u)
    ensures Round(r) == Flat(u)
  {
    hide SubShift, Mixed, Flat, AddRoundKey, MixColumns, ShiftRows, SubBytes;
    SubShiftIs(s);
    MixedIs(t);
  }

  lemma Round0()
    ensures Round(0) == Flat(S0)
  {
    hide AddRoundKey, Flat, Added;
    Keys0();
    AddKeys(0, INPUT, 0x2b7e1516, 0x28aed2a6, 0xabf71588, 0x09cf4f3c, S0);
  }

  lemma Keys0()
    ensures KeyWords(0, 0x2b7e1516, 0x28aed2a6, 0xabf71588, 0x09cf4f3c)
    ensures Added(INPUT, 0x2b7e1516, 0x28aed2a6, 0xabf71588, 0x09cf4f3c) == S0
  {
  }

  lemma Round1()
    ensures Round(1) == Flat(S1)
  {
    hide SubShift, Mixed, Added, Round, Flat, AddRoundKey;
    Round0();
    Sub1();
    Mix1();
    Keys1();
    AddKeys(1, M1, 0xa0fafe17, 0x88542cb1, 0x23a33939, 0x2a6c7605, S1);
    RoundTo(1, S0, T1, M1, S1);
  }

  lemma Sub1()
    ensures SubShift(S0) == T1
  {
  }

  lemma Mix1()
    ensures Mixed(T1) == M1
  {
  }

  lemma Keys1()
    ensures KeyWords(1, 0xa0fafe17, 0x88542cb1, 0x23a33939, 0x2a6c7605)
    ensures Added(M1, 0xa0fafe17, 0x88542cb1, 0x23a33939, 0x2a6c7605) == S1
  {
  }

  lemma Round2()
    ensures Round(2) == Flat(S2)
  {
    hide SubShift, Mixed, Added, Round, Flat, AddRoundKey;
    Round1();
    Sub2();
    Mix2();
    Keys2();
    AddKeys(2, M2, 0xf2c295f2, 0x7a96b943, 0x5935807a, 0x7359f67f, S2);
    RoundTo(2, S1, T2, M2, S2);
  }

  lemma Sub2()
    ensures SubShift(S1) == T2
  {
  }

  lemma Mix2()
    ensures Mixed(T2) == M2
  {
  }

  lemma Keys2()
    ensures KeyWords(2, 0xf2c295f2, 0x7a96b943, 0x5935807a, 0x7359f67f)
    ensures Added(M2, 0xf2c295f2, 0x7a96b943, 0x5935807a, 0x7359f67f) == S2
  {
  }

  lemma Round3()
    ensures Round(3) == Flat(S3)
  {
    hide SubShift, Mixed, Added, Round, Flat, AddRoundKey;
    Round2();
    Sub3();
    Mix3();
    Keys3();
    AddKeys(3, M3, 0x3d80477d, 0x4716fe3e, 0x1e237e44, 0x6d7a883b, S3);
    RoundTo(3, S2, T3, M3, S3);
  }

  lemma Sub3()
    ensures SubShift(S2) == T3
  {
  }

  lemma Mix3()
    ensures Mixed(T3) == M3
  {
  }

  lemma Keys3()
    ensures KeyWords(3, 0x3d80477d, 0x4716fe3e, 0x1e237e44, 0x6d7a883b)
    ensures Added(M3, 0x3d80477d, 0x4716fe3e, 0x1e237e44, 0x6d7a883b) == S3
  {
  }

  lemma Round4()
    ensures Round(4) == Flat(S4)
  {
    hide SubShift, Mixed, Added, Round, Flat, AddRoundKey;
    Round3();
    Sub4();
    Mix4();
    Keys4();
    AddKeys(4, M4, 0xef44a541, 0xa8525b7f, 0xb671253b, 0xdb0bad00, S4);
    RoundTo(4, S3, T4, M4, S4);
  }

  lemma Sub4()
    ensures SubShift(S3) == T4
  {
  }

  lemma Mix4()
    ensures Mixed(T4) == M4
  {
  }

  lemma Keys4()
    ensures KeyWords(4, 0xef44a541, 0xa8525b7f, 0xb671253b, 0xdb0bad00)
    ensures Added(M4, 0xef44a541, 0xa8525b7f, 0xb671253b, 0xdb0bad00) == S4
  {
  }

  lemma Round5()
    ensures Round(5) == Flat(S5)
  {
    hide SubShift, Mixed, Added, Round, Flat, AddRoundKey;
    Round4();
    Sub5();
    Mix5();
    Keys5();
    AddKeys(5, M5, 0xd4d1c6f8, 0x7c839d87, 0xcaf2b8bc, 0x11f915bc, S5);
    RoundTo(5, S4, T5, M5, S5);
  }

  lemma Sub5()
    ensures SubShift(S4) == T5
  {
  }

  lemma Mix5()
    ensures Mixed(T5) == M5
  {
  }

  lemma Keys5()
    ensures KeyWords(5, 0xd4d1c6f8, 0x7c839d87, 0xcaf2b8bc, 0x11f915bc)
    ensures Added(M5, 0xd4d1c6f8, 0x7c839d87, 0xcaf2b8bc, 0x11f915bc) == S5
  {
  }

  lemma Round6()
    ensures Round(6) == Flat(S6)
  {
    hide SubShift, Mixed, Added, Round, Flat, AddRoundKey;
    Round5();
    Sub6();
    Mix6();
    Keys6();
    AddKeys(6, M6, 0x6d88a37a, 0x110b3efd, 0xdbf98641, 0xca0093fd, S6);
    RoundTo(6, S5, T6, M6, S6);
  }

  lemma Sub6()
    ensures SubShift(S5) == T6
  {
  }

  lemma Mix6()
    ensures Mixed(T6) == M6
  {
  }

  lemma Keys6()
    ensures KeyWords(6, 0x6d88a37a, 0x110b3efd, 0xdbf98641, 0xca0093fd)
    ensures Added(M6, 0x6d88a37a, 0x110b3efd, 0xdbf98641, 0xca0093fd) == S6
  {
  }

  lemma Round7()
    ensures Round(7) == Flat(S7)
  {
    hide SubShift, Mixed, Added, Round, Flat, AddRoundKey;
    Round6();
    Sub7();
    Mix7();
    Keys7();
    AddKeys(7, M7, 0x4e54f70e, 0x5f5fc9f3, 0x84a64fb2, 0x4ea6dc4f, S7);
    RoundTo(7, S6, T7, M7, S7);
  }

  lemma Sub7()
    ensures SubShift(S6) == T7
  {
  }

  lemma Mix7()
    ensures Mixed(T7) == M7
  {
  }

  lemma Keys7()
    ensures KeyWords(7, 0x4e54f70e, 0x5f5fc9f3, 0x84a64fb2, 0x4ea6dc4f)
    ensures Added(M7, 0x4e54f70e, 0x5f5fc9f3, 0x84a64fb2, 0x4ea6dc4f) == S7
  {
  }

  lemma Round8()
    ensures Round(8) == Flat(S8)
  {
    hide SubShift, Mixed, Added, Round, Flat, AddRoundKey;
    Round7();
    Sub8();
    Mix8();
    Keys8();
    AddKeys(8, M8, 0xead27321, 0xb58dbad2, 0x312bf560, 0x7f8d292f, S8);
    RoundTo(8, S7, T8, M8, S8);
  }

  lemma Sub8()
    ensures SubShift(S7) == T8
  {
  }

  lemma Mix8()
    ensures Mixed(T8) == M8
  {
  }

  lemma Keys8()
    ensures KeyWords(8, 0xead27321, 0xb58dbad2, 0x312bf560, 0x7f8d292f)
    ensures Added(M8, 0xead27321, 0xb58dbad2, 0x312bf560, 0x7f8d292f) == S8
  {
  }

  lemma Round9()
    ensures Round(9) == Flat(S9)
  {
    hide SubShift, Mixed, Added, Round, Flat, AddRoundKey;
    Round8();
    Sub9();
    Mix9();
    Keys9();
    AddKeys(9, M9, 0xac7766f3, 0x19fadc21, 0x28d12941, 0x575c006e, S9);
    RoundTo(9, S8, T9, M9, S9);
  }

  lemma Sub9()
    ensures SubShift(S8) == T9
  {
  }

  lemma Mix9()
    ensures Mixed(T9) == M9
  {
  }

  lemma Keys9()
    ensures KeyWords(9, 0xac7766f3, 0x19fadc21, 0x28d12941, 0x575c006e)
    ensures Added(M9, 0xac7766f3, 0x19fadc21, 0x28d12941, 0x575c006e) == S9
  {
  }

  lemma Sub10()
    ensures SubShift(S9) == T10
  {
  }

  lemma Keys10()
    ensures KeyWords(10, 0xd014f9a8, 0xc9ee2589, 0xe13f0cc8, 0xb6630ca6)
    ensures Added(T10, 0xd014f9a8, 0xc9ee2589, 0xe13f0cc8, 0xb6630ca6) == S10
  {
  }

  /** 39 25 84 1d 02 dc 09 fb dc 11 85 97 19 6a 0b 32. */
  lemma EncryptedExample()
    ensures Encrypt(KEYS, Flat(INPUT)) == Flat(S10)
  {
    hide SubShift, Added, Flat, AddRoundKey, ShiftRows, SubBytes, Rounds;
    Round9();
    Sub10();
    Keys10();
    AddKeys(10, T10, 0xd014f9a8, 0xc9ee2589, 0xe13f0cc8, 0xb6630ca6, S10);
    SubShiftIs(S9);
  }
}
