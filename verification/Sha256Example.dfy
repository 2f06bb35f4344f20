/** The digest of the one-block message "abc", worked out round by round: the example of FIPS 180-4.  It depends
    on every constant, rotation and working variable of the compression function, on the order of bytes and on
    the padding. */
module Sha256Example {
  import opened Octets
  import opened Sha256

  const ABC: Bytes := [0x61, 0x62, 0x63]

  const BLOCK: Bytes := [0x61, 0x62, 0x63, 0x80] + Zeros(59) + [24]

  function Word(t: nat): bv32 { Schedule(BLOCK, t) }

  function State(t: nat): Hash
    requires t <= 64
  {
    Rounds(H0, BLOCK, t)
  }

  lemma Padded()
    ensures Pad(ABC) == BLOCK
  {
    hide BigEndian;
    LengthBytes();
    assert |ABC| == 3 && 8 * |ABC| % TWO64 == 24 && ZeroCount(3) == 52;
    assert Zeros(52) + [0, 0, 0, 0, 0, 0, 0, 24] == Zeros(59) + [24];
    assert Pad(ABC) == [0x61, 0x62, 0x63, 0x80] + (Zeros(52) + [0, 0, 0, 0, 0, 0, 0, 24]);
  }

  lemma LengthBytes()
    ensures BigEndian(24, 8) == [0, 0, 0, 0, 0, 0, 0, 24]
  {
    assert BigEndian(24, 8) == BigEndian(0, 7) + [Byte(24)];
    assert BigEndian(0, 7) == BigEndian(0, 6) + [0] && BigEndian(0, 6) == BigEndian(0, 5) + [0];
    assert BigEndian(0, 5) == BigEndian(0, 4) + [0] && BigEndian(0, 4) == BigEndian(0, 3) + [0];
    assert BigEndian(0, 3) == [0, 0, 0];
  }

  // ---- the message schedule -----------------------------------------------------------------------

  lemma FirstWord(t: nat, b0: bv8, b1: bv8, b2: bv8, b3: bv8, w: bv32)
    requires t < 16 && BLOCK[4 * t] == b0 && BLOCK[4 * t + 1] == b1 && BLOCK[4 * t + 2] == b2 && BLOCK[4 * t + 3] == b3
    requires w == ((b0 as bv32) << 24) | ((b1 as bv32) << 16) | ((b2 as bv32) << 8) | (b3 as bv32)
    ensures Word(t) == w
  {
  }

  lemma WordTo(t: nat, w16: bv32, w15: bv32, w7: bv32, w2: bv32, w: bv32)
    requires t >= 16 && NextWord(w16, w15, w7, w2) == w
    requires Word(t - 16) == w16 && Word(t - 15) == w15 && Word(t - 7) == w7 && Word(t - 2) == w2
    ensures Word(t) == w
  {
    hide NextWord;
  }

  lemma Words0()
    ensures Word(0) == 0x61626380 && Word(1) == 0x00000000
    ensures Word(2) == 0x00000000 && Word(3) == 0x00000000
    ensures Word(4) == 0x00000000 && Word(5) == 0x00000000
    ensures Word(6) == 0x00000000 && Word(7) == 0x00000000
    ensures Word(8) == 0x00000000 && Word(9) == 0x00000000
    ensures Word(10) == 0x00000000 && Word(11) == 0x00000000
    ensures Word(12) == 0x00000000 && Word(13) == 0x00000000
    ensures Word(14) == 0x00000000 && Word(15) == 0x00000018
  {
    hide Word;
    FirstWord(0, 0x61, 0x62, 0x63, 0x80, 0x61626380);
    FirstWord(1, 0x00, 0x00, 0x00, 0x00, 0x00000000);
    FirstWord(2, 0x00, 0x00, 0x00, 0x00, 0x00000000);
    FirstWord(3, 0x00, 0x00, 0x00, 0x00, 0x00000000);
    FirstWord(4, 0x00, 0x00, 0x00, 0x00, 0x00000000);
    FirstWord(5, 0x00, 0x00, 0x00, 0x00, 0x00000000);
    FirstWord(6, 0x00, 0x00, 0x00, 0x00, 0x00000000);
    FirstWord(7, 0x00, 0x00, 0x00, 0x00, 0x00000000);
    FirstWord(8, 0x00, 0x00, 0x00, 0x00, 0x00000000);
    FirstWord(9, 0x00, 0x00, 0x00, 0x00, 0x00000000);
    FirstWord(10, 0x00, 0x00, 0x00, 0x00, 0x00000000);
    FirstWord(11, 0x00, 0x00, 0x00, 0x00, 0x00000000);
    FirstWord(12, 0x00, 0x00, 0x00, 0x00, 0x00000000);
    FirstWord(13, 0x00, 0x00, 0x00, 0x00, 0x00000000);
    FirstWord(14, 0x00, 0x00, 0x00, 0x00, 0x00000000);
    FirstWord(15, 0x00, 0x00, 0x00, 0x18, 0x00000018);
  }

  lemma Words16()
    ensures Word(16) == 0x61626380 && Word(17) == 0x000f0000
    ensures Word(18) == 0x7da86405 && Word(19) == 0x600003c6
    ensures Word(20) == 0x3e9d7b78 && Word(21) == 0x0183fc00
    ensures Word(22) == 0x12dcbfdb && Word(23) == 0xe2e2c38e
    ensures Word(24) == 0xc8215c1a && Word(25) == 0xb73679a2
    ensures Word(26) == 0xe5bc3909 && Word(27) == 0x32663c5b
    ensures Word(28) == 0x9d209d67 && Word(29) == 0xec8726cb
    ensures Word(30) == 0x702138a4 && Word(31) == 0xd3b7973b
  {
    hide Word;
    Words0();
    WordTo(16, 0x61626380, 0x00000000, 0x00000000, 0x00000000, 0x61626380);
    WordTo(17, 0x00000000, 0x00000000, 0x00000000, 0x00000018, 0x000f0000);
    WordTo(18, 0x00000000, 0x00000000, 0x00000000, 0x61626380, 0x7da86405);
    WordTo(19, 0x00000000, 0x00000000, 0x00000000, 0x000f0000, 0x600003c6);
    WordTo(20, 0x00000000, 0x00000000, 0x00000000, 0x7da86405, 0x3e9d7b78);
    WordTo(21, 0x00000000, 0x00000000, 0x00000000, 0x600003c6, 0x0183fc00);
    WordTo(22, 0x00000000, 0x00000000, 0x00000018, 0x3e9d7b78, 0x12dcbfdb);
    WordTo(23, 0x00000000, 0x00000000, 0x61626380, 0x0183fc00, 0xe2e2c38e);
    WordTo(24, 0x00000000, 0x00000000, 0x000f0000, 0x12dcbfdb, 0xc8215c1a);
    WordTo(25, 0x00000000, 0x00000000, 0x7da86405, 0xe2e2c38e, 0xb73679a2);
    WordTo(26, 0x00000000, 0x00000000, 0x600003c6, 0xc8215c1a, 0xe5bc3909);
    WordTo(27, 0x00000000, 0x00000000, 0x3e9d7b78, 0xb73679a2, 0x32663c5b);
    WordTo(28, 0x00000000, 0x00000000, 0x0183fc00, 0xe5bc3909, 0x9d209d67);
    WordTo(29, 0x00000000, 0x00000000, 0x12dcbfdb, 0x32663c5b, 0xec8726cb);
    WordTo(30, 0x00000000, 0x00000018, 0xe2e2c38e, 0x9d209d67, 0x702138a4);
    WordTo(31, 0x00000018, 0x61626380, 0xc8215c1a, 0xec8726cb, 0xd3b7973b);
  }

  lemma Words32()
    ensures Word(32) == 0x93f5997f && Word(33) == 0x3b68ba73
    ensures Word(34) == 0xaff4ffc1 && Word(35) == 0xf10a5c62
    ensures Word(36) == 0x0a8b3996 && Word(37) == 0x72af830a
    ensures Word(38) == 0x9409e33e && Word(39) == 0x24641522
    ensures Word(40) == 0x9f47bf94 && Word(41) == 0xf0a64f5a
    ensures Word(42) == 0x3e246a79 && Word(43) == 0x27333ba3
    ensures Word(44) == 0x0c4763f2 && Word(45) == 0x840abf27
    ensures Word(46) == 0x7a290d5d && Word(47) == 0x065c43da
  {
    hide Word;
    Words16();
    WordTo(32, 0x61626380, 0x000f0000, 0xb73679a2, 0x702138a4, 0x93f5997f);
    WordTo(33, 0x000f0000, 0x7da86405, 0xe5bc3909, 0xd3b7973b, 0x3b68ba73);
    WordTo(34, 0x7da86405, 0x600003c6, 0x32663c5b, 0x93f5997f, 0xaff4ffc1);
    WordTo(35, 0x600003c6, 0x3e9d7b78, 0x9d209d67, 0x3b68ba73, 0xf10a5c62);
    WordTo(36, 0x3e9d7b78, 0x0183fc00, 0xec8726cb, 0xaff4ffc1, 0x0a8b3996);
    WordTo(37, 0x0183fc00, 0x12dcbfdb, 0x702138a4, 0xf10a5c62, 0x72af830a);
    WordTo(38, 0x12dcbfdb, 0xe2e2c38e, 0xd3b7973b, 0x0a8b3996, 0x9409e33e);
    WordTo(39, 0xe2e2c38e, 0xc8215c1a, 0x93f5997f, 0x72af830a, 0x24641522);
    WordTo(40, 0xc8215c1a, 0xb73679a2, 0x3b68ba73, 0x9409e33e, 0x9f47bf94);
    WordTo(41, 0xb73679a2, 0xe5bc3909, 0xaff4ffc1, 0x24641522, 0xf0a64f5a);
    WordTo(42, 0xe5bc3909, 0x32663c5b, 0xf10a5c62, 0x9f47bf94, 0x3e246a79);
    WordTo(43, 0x32663c5b, 0x9d209d67, 0x0a8b3996, 0xf0a64f5a, 0x27333ba3);
    WordTo(44, 0x9d209d67, 0xec8726cb, 0x72af830a, 0x3e246a79, 0x0c4763f2);
    WordTo(45, 0xec8726cb, 0x702138a4, 0x9409e33e, 0x27333ba3, 0x840abf27);
    WordTo(46, 0x702138a4, 0xd3b7973b, 0x24641522, 0x0c4763f2, 0x7a290d5d);
    WordTo(47, 0xd3b7973b, 0x93f5997f, 0x9f47bf94, 0x840abf27, 0x065c43da);
  }

  lemma Words48()
    ensures Word(48) == 0xfb3e89cb && Word(49) == 0xcc7617db
    ensures Word(50) == 0xb9e66c34 && Word(51) == 0xa9993667
    ensures Word(52) == 0x84badedd && Word(53) == 0xc21462bc
    ensures Word(54) == 0x1487472c && Word(55) == 0xb20f7a99
    ensures Word(56) == 0xef57b9cd && Word(57) == 0xebe6b238
    ensures Word(58) == 0x9fe3095e && Word(59) == 0x78bc8d4b
    ensures Word(60) == 0xa43fcf15 && Word(61) == 0x668b2ff8
    ensures Word(62) == 0xeeaba2cc && Word(63) == 0x12b1edeb
  {
    hide Word;
    Words32();
    WordTo(48, 0x93f5997f, 0x3b68ba73, 0xf0a64f5a, 0x7a290d5d, 0xfb3e89cb);
    WordTo(49, 0x3b68ba73, 0xaff4ffc1, 0x3e246a79, 0x065c43da, 0xcc7617db);
    WordTo(50, 0xaff4ffc1, 0xf10a5c62, 0x27333ba3, 0xfb3e89cb, 0xb9e66c34);
    WordTo(51, 0xf10a5c62, 0x0a8b3996, 0x0c4763f2, 0xcc7617db, 0xa9993667);
    WordTo(52, 0x0a8b3996, 0x72af830a, 0x840abf27, 0xb9e66c34, 0x84badedd);
    WordTo(53, 0x72af830a, 0x9409e33e, 0x7a290d5d, 0xa9993667, 0xc21462bc);
    WordTo(54, 0x9409e33e, 0x24641522, 0x065c43da, 0x84badedd, 0x1487472c);
    WordTo(55, 0x24641522, 0x9f47bf94, 0xfb3e89cb, 0xc21462bc, 0xb20f7a99);
    WordTo(56, 0x9f47bf94, 0xf0a64f5a, 0xcc7617db, 0x1487472c, 0xef57b9cd);
    WordTo(57, 0xf0a64f5a, 0x3e246a79, 0xb9e66c34, 0xb20f7a99, 0xebe6b238);
    WordTo(58, 0x3e246a79, 0x27333ba3, 0xa9993667, 0xef57b9cd, 0x9fe3095e);
    WordTo(59, 0x27333ba3, 0x0c4763f2, 0x84badedd, 0xebe6b238, 0x78bc8d4b);
    WordTo(60, 0x0c4763f2, 0x840abf27, 0xc21462bc, 0x9fe3095e, 0xa43fcf15);
    WordTo(61, 0x840abf27, 0x7a290d5d, 0x1487472c, 0x78bc8d4b, 0x668b2ff8);
    WordTo(62, 0x7a290d5d, 0x065c43da, 0xb20f7a99, 0xa43fcf15, 0xeeaba2cc);
    WordTo(63, 0x065c43da, 0xfb3e89cb, 0xef57b9cd, 0x668b2ff8, 0x12b1edeb);
  }

  // ---- the rounds ----------------------------------------------------------------------------------

  /** One round makes two new words; the others move up. */
  lemma RoundTo(t: nat, v: Hash, k: bv32, w: bv32, a: bv32, e: bv32) returns (v': Hash)
    requires t < 64 && State(t) == v && K[t] == k && Word(t) == w
    requires Round(v, k, w) == Hash(a, v.a, v.b, v.c, e, v.e, v.f, v.g)
    ensures v' == Hash(a, v.a, v.b, v.c, e, v.e, v.f, v.g) && State(t + 1) == v'
  {
    hide Round, Schedule;
    v' := Hash(a, v.a, v.b, v.c, e, v.e, v.f, v.g);
  }

  lemma Rounds0()
    ensures State(0) == H0
  {
  }

  lemma Rounds8()
    ensures State(8)
         == Hash(0x85a07b5f, 0xe5030380, 0x2b4209f5, 0x04409a6a,
                 0x0c657a79, 0x9b27a401, 0x714260ad, 0x43ada245)
  {
    hide Word, State;
    Words0();
    Rounds0();
    Constants0();
    var v0 := H0;
    var v1 := RoundTo(0, v0, 0x428a2f98, 0x61626380, 0x5d6aebcd, 0xfa2a4622);
    var v2 := RoundTo(1, v1, 0x71374491, 0x00000000, 0x5a6ad9ad, 0x78ce7989);
    var v3 := RoundTo(2, v2, 0xb5c0fbcf, 0x00000000, 0xc8c347a7, 0xf92939eb);
    var v4 := RoundTo(3, v3, 0xe9b5dba5, 0x00000000, 0xd550f666, 0x24e00850);
    var v5 := RoundTo(4, v4, 0x3956c25b, 0x00000000, 0x04409a6a, 0x43ada245);
    var v6 := RoundTo(5, v5, 0x59f111f1, 0x00000000, 0x2b4209f5, 0x714260ad);
    var v7 := RoundTo(6, v6, 0x923f82a4, 0x00000000, 0xe5030380, 0x9b27a401);
    var v8 := RoundTo(7, v7, 0xab1c5ed5, 0x00000000, 0x85a07b5f, 0x0c657a79);
  }

  lemma Constants0()
    ensures K[0] == 0x428a2f98 && K[1] == 0x71374491
    ensures K[2] == 0xb5c0fbcf && K[3] == 0xe9b5dba5
    ensures K[4] == 0x3956c25b && K[5] == 0x59f111f1
    ensures K[6] == 0x923f82a4 && K[7] == 0xab1c5ed5
  {
  }

  lemma Rounds16()
    ensures State(16)
         == Hash(0xb0fa238e, 0xc0645fde, 0xd932eb16, 0x87912990,
                 0x07590dcd, 0x0b92f20c, 0x745a48de, 0x1e578218)
  {
    hide Word, State;
    Words0();
    Rounds8();
    Constants8();
    var v8 := Hash(0x85a07b5f, 0xe5030380, 0x2b4209f5, 0x04409a6a,
                   0x0c657a79, 0x9b27a401, 0x714260ad, 0x43ada245);
    var v9 := RoundTo(8, v8, 0xd807aa98, 0x00000000, 0x8e04ecb9, 0x32ca2d8c);
    var v10 := RoundTo(9, v9, 0x12835b01, 0x00000000, 0x8c87346b, 0x1cc92596);
    var v11 := RoundTo(10, v10, 0x243185be, 0x00000000, 0x4798a3f4, 0x436b23e8);
    var v12 := RoundTo(11, v11, 0x550c7dc3, 0x00000000, 0xf71fc5a9, 0x816fd6e9);
    var v13 := RoundTo(12, v12, 0x72be5d74, 0x00000000, 0x87912990, 0x1e578218);
    var v14 := RoundTo(13, v13, 0x80deb1fe, 0x00000000, 0xd932eb16, 0x745a48de);
    var v15 := RoundTo(14, v14, 0x9bdc06a7, 0x00000000, 0xc0645fde, 0x0b92f20c);
    var v16 := RoundTo(15, v15, 0xc19bf174, 0x00000018, 0xb0fa238e, 0x07590dcd);
  }

  lemma Constants8()
    ensures K[8] == 0xd807aa98 && K[9] == 0x12835b01
    ensures K[10] == 0x243185be && K[11] == 0x550c7dc3
    ensures K[12] == 0x72be5d74 && K[13] == 0x80deb1fe
    ensures K[14] == 0x9bdc06a7 && K[15] == 0xc19bf174
  {
  }

  lemma Rounds24()
    ensures State(24)
         == Hash(0xc5d53d8d, 0xa7a3623f, 0xc2606d6d, 0x9dc68b63,
                 0xaa47c347, 0x49f5114a, 0xe1257970, 0x8ada8930)
  {
    hide Word, State;
    Words16();
    Rounds16();
    Constants16();
    var v16 := Hash(0xb0fa238e, 0xc0645fde, 0xd932eb16, 0x87912990,
                    0x07590dcd, 0x0b92f20c, 0x745a48de, 0x1e578218);
    var v17 := RoundTo(16, v16, 0xe49b69c1, 0x61626380, 0x21da9a9b, 0x8034229c);
    var v18 := RoundTo(17, v17, 0xefbe4786, 0x000f0000, 0xc2fbd9d1, 0x846ee454);
    var v19 := RoundTo(18, v18, 0x0fc19dc6, 0x7da86405, 0xfe777bbf, 0xcc899961);
    var v20 := RoundTo(19, v19, 0x240ca1cc, 0x600003c6, 0xe1f20c33, 0xb0638179);
    var v21 := RoundTo(20, v20, 0x2de92c6f, 0x3e9d7b78, 0x9dc68b63, 0x8ada8930);
    var v22 := RoundTo(21, v21, 0x4a7484aa, 0x0183fc00, 0xc2606d6d, 0xe1257970);
    var v23 := RoundTo(22, v22, 0x5cb0a9dc, 0x12dcbfdb, 0xa7a3623f, 0x49f5114a);
    var v24 := RoundTo(23, v23, 0x76f988da, 0xe2e2c38e, 0xc5d53d8d, 0xaa47c347);
  }

  lemma Constants16()
    ensures K[16] == 0xe49b69c1 && K[17] == 0xefbe4786
    ensures K[18] == 0x0fc19dc6 && K[19] == 0x240ca1cc
    ensures K[20] == 0x2de92c6f && K[21] == 0x4a7484aa
    ensures K[22] == 0x5cb0a9dc && K[23] == 0x76f988da
  {
  }

  lemma Rounds32()
    ensures State(32)
         == Hash(0x73b33bf5, 0xea992a22, 0xa0060b30, 0x363482c9,
                 0xba591112, 0x0109ab3a, 0xade79437, 0x6112a3b7)
  {
    hide Word, State;
    Words16();
    Rounds24();
    Constants24();
    var v24 := Hash(0xc5d53d8d, 0xa7a3623f, 0xc2606d6d, 0x9dc68b63,
                    0xaa47c347, 0x49f5114a, 0xe1257970, 0x8ada8930);
    var v25 := RoundTo(24, v24, 0x983e5152, 0xc8215c1a, 0x1c2c2838, 0x2823ef91);
    var v26 := RoundTo(25, v25, 0xa831c66d, 0xb73679a2, 0xcde8037d, 0x14383d8e);
    var v27 := RoundTo(26, v26, 0xb00327c8, 0xe5bc3909, 0xb62ec4bc, 0xc74c6516);
    var v28 := RoundTo(27, v27, 0xbf597fc7, 0x32663c5b, 0x77d37528, 0xedffbff8);
    var v29 := RoundTo(28, v28, 0xc6e00bf3, 0x9d209d67, 0x363482c9, 0x6112a3b7);
    var v30 := RoundTo(29, v29, 0xd5a79147, 0xec8726cb, 0xa0060b30, 0xade79437);
    var v31 := RoundTo(30, v30, 0x06ca6351, 0x702138a4, 0xea992a22, 0x0109ab3a);
    var v32 := RoundTo(31, v31, 0x14292967, 0xd3b7973b, 0x73b33bf5, 0xba591112);
  }

  lemma Constants24()
    ensures K[24] == 0x983e5152 && K[25] == 0xa831c66d
    ensures K[26] == 0xb00327c8 && K[27] == 0xbf597fc7
    ensures K[28] == 0xc6e00bf3 && K[29] == 0xd5a79147
    ensures K[30] == 0x06ca6351 && K[31] == 0x14292967
  {
  }

  lemma Rounds40()
    ensures State(40)
         == Hash(0x79ea687a, 0x6dc57a8a, 0x34df1604, 0x41a65cb1,
                 0x1efbc0a0, 0xf0781bc8, 0xa507a53d, 0x0772a26b)
  {
    hide Word, State;
    Words32();
    Rounds32();
    Constants32();
    var v32 := Hash(0x73b33bf5, 0xea992a22, 0xa0060b30, 0x363482c9,
                    0xba591112, 0x0109ab3a, 0xade79437, 0x6112a3b7);
    var v33 := RoundTo(32, v32, 0x27b70a85, 0x93f5997f, 0x98e12507, 0x9cd9f5f6);
    var v34 := RoundTo(33, v33, 0x2e1b2138, 0x3b68ba73, 0xfe604df5, 0x59249dd3);
    var v35 := RoundTo(34, v34, 0x4d2c6dfc, 0xaff4ffc1, 0xa9a7738c, 0x085f3833);
    var v36 := RoundTo(35, v35, 0x53380d13, 0xf10a5c62, 0x65a0cfe4, 0xf4b002d6);
    var v37 := RoundTo(36, v36, 0x650a7354, 0x0a8b3996, 0x41a65cb1, 0x0772a26b);
    var v38 := RoundTo(37, v37, 0x766a0abb, 0x72af830a, 0x34df1604, 0xa507a53d);
    var v39 := RoundTo(38, v38, 0x81c2c92e, 0x9409e33e, 0x6dc57a8a, 0xf0781bc8);
    var v40 := RoundTo(39, v39, 0x92722c85, 0x24641522, 0x79ea687a, 0x1efbc0a0);
  }

  lemma Constants32()
    ensures K[32] == 0x27b70a85 && K[33] == 0x2e1b2138
    ensures K[34] == 0x4d2c6dfc && K[35] == 0x53380d13
    ensures K[36] == 0x650a7354 && K[37] == 0x766a0abb
    ensures K[38] == 0x81c2c92e && K[39] == 0x92722c85
  {
  }

  lemma Rounds48()
    ensures State(48)
         == Hash(0x4172328d, 0xa14c14b0, 0x72ab4b91, 0x26628815,
                 0xfecf0bc6, 0xd57b94a9, 0xb7755da1, 0xa80f11f0)
  {
    hide Word, State;
    Words32();
    Rounds40();
    Constants40();
    var v40 := Hash(0x79ea687a, 0x6dc57a8a, 0x34df1604, 0x41a65cb1,
                    0x1efbc0a0, 0xf0781bc8, 0xa507a53d, 0x0772a26b);
    var v41 := RoundTo(40, v40, 0xa2bfe8a1, 0x9f47bf94, 0xd6670766, 0x26352d63);
    var v42 := RoundTo(41, v41, 0xa81a664b, 0xf0a64f5a, 0xdf46652f, 0x838b2711);
    var v43 := RoundTo(42, v42, 0xc24b8b70, 0x3e246a79, 0x17aa0dfe, 0xdecd4715);
    var v44 := RoundTo(43, v43, 0xc76c51a3, 0x27333ba3, 0x9d4baf93, 0xfda24c2e);
    var v45 := RoundTo(44, v44, 0xd192e819, 0x0c4763f2, 0x26628815, 0xa80f11f0);
    var v46 := RoundTo(45, v45, 0xd6990624, 0x840abf27, 0x72ab4b91, 0xb7755da1);
    var v47 := RoundTo(46, v46, 0xf40e3585, 0x7a290d5d, 0xa14c14b0, 0xd57b94a9);
    var v48 := RoundTo(47, v47, 0x106aa070, 0x065c43da, 0x4172328d, 0xfecf0bc6);
  }

  lemma Constants40()
    ensures K[40] == 0xa2bfe8a1 && K[41] == 0xa81a664b
    ensures K[42] == 0xc24b8b70 && K[43] == 0xc76c51a3
    ensures K[44] == 0xd192e819 && K[45] == 0xd6990624
    ensures K[46] == 0xf40e3585 && K[47] == 0x106aa070
  {
  }

  lemma Rounds56()
    ensures State(56)
         == Hash(0x38cc9913, 0x3ec45cdb, 0xf5702fdb, 0x101fd28f,
                 0x54cb266b, 0xe50e1b4f, 0x9f4787c3, 0x529e7d00)
  {
    hide Word, State;
    Words48();
    Rounds48();
    Constants48();
    var v48 := Hash(0x4172328d, 0xa14c14b0, 0x72ab4b91, 0x26628815,
                    0xfecf0bc6, 0xd57b94a9, 0xb7755da1, 0xa80f11f0);
    var v49 := RoundTo(48, v48, 0x19a4c116, 0xfb3e89cb, 0x05757ceb, 0xbd714038);
    var v50 := RoundTo(49, v49, 0x1e376c08, 0xcc7617db, 0xf11bfaa8, 0x6e5c390c);
    var v51 := RoundTo(50, v50, 0x2748774c, 0xb9e66c34, 0x7a0508a1, 0x52f1ccf7);
    var v52 := RoundTo(51, v51, 0x34b0bcb5, 0xa9993667, 0x886e7a22, 0x49231c1e);
    var v53 := RoundTo(52, v52, 0x391c0cb3, 0x84badedd, 0x101fd28f, 0x529e7d00);
    var v54 := RoundTo(53, v53, 0x4ed8aa4a, 0xc21462bc, 0xf5702fdb, 0x9f4787c3);
    var v55 := RoundTo(54, v54, 0x5b9cca4f, 0x1487472c, 0x3ec45cdb, 0xe50e1b4f);
    var v56 := RoundTo(55, v55, 0x682e6ff3, 0xb20f7a99, 0x38cc9913, 0x54cb266b);
  }

  lemma Constants48()
    ensures K[48] == 0x19a4c116 && K[49] == 0x1e376c08
    ensures K[50] == 0x2748774c && K[51] == 0x34b0bcb5
    ensures K[52] == 0x391c0cb3 && K[53] == 0x4ed8aa4a
    ensures K[54] == 0x5b9cca4f && K[55] == 0x682e6ff3
  {
  }

  lemma Rounds64()
    ensures State(64)
         == Hash(0x506e3058, 0xd39a2165, 0x04d24d6c, 0xb85e2ce9,
                 0x5ef50f24, 0xfb121210, 0x948d25b6, 0x961f4894)
  {
    hide Word, State;
    Words48();
    Rounds56();
    Constants56();
    var v56 := Hash(0x38cc9913, 0x3ec45cdb, 0xf5702fdb, 0x101fd28f,
                    0x54cb266b, 0xe50e1b4f, 0x9f4787c3, 0x529e7d00);
    var v57 := RoundTo(56, v56, 0x748f82ee, 0xef57b9cd, 0xfcd1887b, 0x9b5e906c);
    var v58 := RoundTo(57, v57, 0x78a5636f, 0xebe6b238, 0xc062d46f, 0x7e44008e);
    var v59 := RoundTo(58, v58, 0x84c87814, 0x9fe3095e, 0xffb70472, 0x6d83bfc6);
    var v60 := RoundTo(59, v59, 0x8cc70208, 0x78bc8d4b, 0xb6ae8fff, 0xb21bad3d);
    var v61 := RoundTo(60, v60, 0x90befffa, 0xa43fcf15, 0xb85e2ce9, 0x961f4894);
    var v62 := RoundTo(61, v61, 0xa4506ceb, 0x668b2ff8, 0x04d24d6c, 0x948d25b6);
    var v63 := RoundTo(62, v62, 0xbef9a3f7, 0xeeaba2cc, 0xd39a2165, 0xfb121210);
    var v64 := RoundTo(63, v63, 0xc67178f2, 0x12b1edeb, 0x506e3058, 0x5ef50f24);
  }

  lemma Constants56()
    ensures K[56] == 0x748f82ee && K[57] == 0x78a5636f
    ensures K[58] == 0x84c87814 && K[59] == 0x8cc70208
    ensures K[60] == 0x90befffa && K[61] == 0xa4506ceb
    ensures K[62] == 0xbef9a3f7 && K[63] == 0xc67178f2
  {
  }

  /** ba7816bf 8f01cfea 414140de 5dae2223 b00361a3 96177a9c b410ff61 f20015ad. */
  lemma DigestOfAbc()
    ensures Digest(ABC) == [0xba, 0x78, 0x16, 0xbf, 0x8f, 0x01, 0xcf, 0xea,
                            0x41, 0x41, 0x40, 0xde, 0x5d, 0xae, 0x22, 0x23,
                            0xb0, 0x03, 0x61, 0xa3, 0x96, 0x17, 0x7a, 0x9c,
                            0xb4, 0x10, 0xff, 0x61, 0xf2, 0x00, 0x15, 0xad]
  {
    hide Rounds, Pad;
    Padded();
    Rounds64();
    OneBlock();
  }

  lemma OneBlock()
    ensures Fold(H0, BLOCK) == Compress(H0, BLOCK)
  {
    hide Compress;
    assert BLOCK[..64] == BLOCK && BLOCK[64..] == [];
  }
}
