/** Arithmetic in GF(2^8) and the substitution table of AES (sections 4 and 5.1.1 of FIPS 197), as
    src/crypto/crypto.c computes them. */
module AesField {

  function Xor(a: bv8, b: bv8): bv8 { a ^ b }

  /** Multiplication by x, reduced by x^8 + x^4 + x^3 + x + 1. */
  function Double(a: bv8): bv8 { (a << 1) ^ (if a & 0x80 == 0 then 0 else 0x1B) }

  /** The product of two field elements: the sum of `a * x^i` over the set bits `i` of `b`. */
  function Multiply(a: bv8, b: bv8): bv8
    decreases b
  {
    if b == 0 then 0
    else Xor(if b & 1 == 1 then a else 0, Multiply(Double(a), b >> 1))
  }

  /** The substitution table, sixteen entries to a row, the first entry leftmost. */
  function Sbox(x: bv8): bv8 {
    var row: bv128 :=
      if x >> 4 == 0 then 0x637c777bf26b6fc53001672bfed7ab76 else
      if x >> 4 == 1 then 0xca82c97dfa5947f0add4a2af9ca472c0 else
      if x >> 4 == 2 then 0xb7fd9326363ff7cc34a5e5f171d83115 else
      if x >> 4 == 3 then 0x04c723c31896059a071280e2eb27b275 else
      if x >> 4 == 4 then 0x09832c1a1b6e5aa0523bd6b329e32f84 else
      if x >> 4 == 5 then 0x53d100ed20fcb15b6acbbe394a4c58cf else
      if x >> 4 == 6 then 0xd0efaafb434d338545f9027f503c9fa8 else
      if x >> 4 == 7 then 0x51a3408f929d38f5bcb6da2110fff3d2 else
      if x >> 4 == 8 then 0xcd0c13ec5f974417c4a77e3d645d1973 else
      if x >> 4 == 9 then 0x60814fdc222a908846eeb814de5e0bdb else
      if x >> 4 == 10 then 0xe0323a0a4906245cc2d3ac629195e479 else
      if x >> 4 == 11 then 0xe7c8376d8dd54ea96c56f4ea657aae08 else
      if x >> 4 == 12 then 0xba78252e1ca6b4c6e8dd741f4bbd8b8a else
      if x >> 4 == 13 then 0x703eb5664803f60e613557b986c11d9e else
      if x >> 4 == 14 then 0xe1f8981169d98e949b1e87e9ce5528df else
      0x8ca1890dbfe6426841992d0fb054bb16;
    ((row >> ((15 - (x & 15)) as bv7 * 8)) & 0xFF) as bv8
  }

  /** The table of the inverse substitution. */
  function InvSbox(x: bv8): bv8 {
    var row: bv128 :=
      if x >> 4 == 0 then 0x52096ad53036a538bf40a39e81f3d7fb else
      if x >> 4 == 1 then 0x7ce339829b2fff87348e4344c4dee9cb else
      if x >> 4 == 2 then 0x547b9432a6c2233dee4c950b42fac34e else
      if x >> 4 == 3 then 0x082ea16628d924b2765ba2496d8bd125 else
      if x >> 4 == 4 then 0x72f8f66486689816d4a45ccc5d65b692 else
      if x >> 4 == 5 then 0x6c704850fdedb9da5e154657a78d9d84 else
      if x >> 4 == 6 then 0x90d8ab008cbcd30af7e45805b8b34506 else
      if x >> 4 == 7 then 0xd02c1e8fca3f0f02c1afbd0301138a6b else
      if x >> 4 == 8 then 0x3a9111414f67dcea97f2cfcef0b4e673 else
      if x >> 4 == 9 then 0x96ac7422e7ad3585e2f937e81c75df6e else
      if x >> 4 == 10 then 0x47f11a711d29c5896fb7620eaa18be1b else
      if x >> 4 == 11 then 0xfc563e4bc6d279209adbc0fe78cd5af4 else
      if x >> 4 == 12 then 0x1fdda8338807c731b11210592780ec5f else
      if x >> 4 == 13 then 0x60517fa919b54a0d2de57a9f93c99cef else
      if x >> 4 == 14 then 0xa0e03b4dae2af5b0c8ebbb3c83539961 else
      0x172b047eba77d626e169146355210c7d;
    ((row >> ((15 - (x & 15)) as bv7 * 8)) & 0xFF) as bv8
  }

  // ---- the group of bytes under exclusive or --------------------------------

  lemma XorAssoc(x: bv8, y: bv8, z: bv8)
    ensures Xor(Xor(x, y), z) == Xor(x, Xor(y, z))
  {
    assert (x ^ y) ^ z == x ^ (y ^ z);
  }

  lemma XorComm(x: bv8, y: bv8)
    ensures Xor(x, y) == Xor(y, x)
  {
  }

  lemma XorZero(x: bv8)
    ensures Xor(x, 0) == x == Xor(0, x)
  {
  }

  lemma XorTwice(x: bv8, k: bv8)
    ensures Xor(Xor(x, k), k) == x
  {
  }

  lemma Interchange(a: bv8, b: bv8, c: bv8, d: bv8)
    ensures Xor(Xor(a, b), Xor(c, d)) == Xor(Xor(a, c), Xor(b, d))
  {
    hide Xor;
    XorAssoc(a, b, Xor(c, d));
    XorAssoc(b, c, d);
    XorComm(b, c);
    XorAssoc(c, b, d);
    XorAssoc(a, c, Xor(b, d));
  }

  // ---- multiplication is linear ---------------------------------------------

  lemma DoubleXor(a: bv8, b: bv8)
    ensures Double(Xor(a, b)) == Xor(Double(a), Double(b))
  {
    assert (a ^ b) << 1 == (a << 1) ^ (b << 1);
    if a & 0x80 == 0 {
      if b & 0x80 == 0 { assert (a ^ b) & 0x80 == 0; } else { assert (a ^ b) & 0x80 == 0x80; }
    } else {
      if b & 0x80 == 0 { assert (a ^ b) & 0x80 == 0x80; } else { assert (a ^ b) & 0x80 == 0; }
    }
  }

  /** Multiplication distributes over addition in the field. */
  lemma {:induction false} MultiplyXor(a: bv8, b: bv8, k: bv8)
    ensures Multiply(Xor(a, b), k) == Xor(Multiply(a, k), Multiply(b, k))
    decreases k
  {
    hide Xor, Double;
    XorZero(0);
    if k != 0 {
      DoubleXor(a, b);
      MultiplyXor(Double(a), Double(b), k >> 1);
      var m, n := Multiply(Double(a), k >> 1), Multiply(Double(b), k >> 1);
      if k & 1 == 1 {
        Interchange(a, b, m, n);
      } else {
        Interchange(0, 0, m, n);
      }
    }
  }

  /** `gmul`: double and add. */
  method Gmul(x: bv8, y: bv8) returns (r: bv8)
    ensures r == Multiply(x, y)
  {
    hide Xor, Double;
    var a, b := x, y;
    r := 0;
    XorZero(Multiply(x, y));
    while b != 0
      invariant Xor(r, Multiply(a, b)) == Multiply(x, y)
      decreases b
    {
      var rest := Multiply(Double(a), b >> 1);
      if b & 1 == 1 {
        XorAssoc(r, a, rest);
        r := Xor(r, a);
      } else {
        XorZero(rest);
      }
      a := Double(a);
      b := b >> 1;
    }
    XorZero(r);
  }

  // ---- the constants used by MixColumns --------------------------------------

  lemma Times0And1(a: bv8)
    ensures Multiply(a, 0) == 0 && Multiply(a, 1) == a
  {
    hide Double, Xor;
    XorZero(a);
    assert (1 as bv8) >> 1 == 0;
  }

  lemma Times2(a: bv8)
    ensures Multiply(a, 2) == Double(a)
  {
    hide Double, Xor;
    assert (2 as bv8) >> 1 == 1;
    Times0And1(Double(a));
    XorZero(Double(a));
  }

  lemma Times3(a: bv8)
    ensures Multiply(a, 3) == Xor(a, Double(a))
  {
    hide Double, Xor;
    assert (3 as bv8) >> 1 == 1;
    Times0And1(Double(a));
  }

  lemma Times9(a: bv8)
    ensures Multiply(a, 9) == Xor(a, Double(Double(Double(a))))
  {
    hide Double, Xor;
    assert (9 as bv8) >> 1 == 4 && (4 as bv8) >> 1 == 2;
    var a2 := Double(a);
    Times2(Double(a2));
    XorZero(Multiply(Double(a2), 2));
  }

  lemma Times11(a: bv8)
    ensures Multiply(a, 11) == Xor(a, Xor(Double(a), Double(Double(Double(a)))))
  {
    hide Double, Xor;
    assert (11 as bv8) >> 1 == 5 && (5 as bv8) >> 1 == 2;
    Times2(Double(Double(a)));
  }

  lemma Times13(a: bv8)
    ensures Multiply(a, 13) == Xor(a, Xor(Double(Double(a)), Double(Double(Double(a)))))
  {
    hide Double, Xor;
    assert (13 as bv8) >> 1 == 6 && (6 as bv8) >> 1 == 3;
    Times3(Double(Double(a)));
    XorZero(Multiply(Double(Double(a)), 3));
  }

  lemma Times14(a: bv8)
    ensures Multiply(a, 14) == Xor(Double(a), Xor(Double(Double(a)), Double(Double(Double(a)))))
  {
    hide Double, Xor;
    assert (14 as bv8) >> 1 == 7 && (7 as bv8) >> 1 == 3;
    Times3(Double(Double(a)));
    XorZero(Multiply(Double(a), 7));
  }

  lemma TimesConstants(a: bv8)
    ensures Multiply(a, 2) == Double(a)
    ensures Multiply(a, 3) == Xor(a, Double(a))
    ensures Multiply(a, 9) == Xor(a, Double(Double(Double(a))))
    ensures Multiply(a, 11) == Xor(a, Xor(Double(a), Double(Double(Double(a)))))
    ensures Multiply(a, 13) == Xor(a, Xor(Double(Double(a)), Double(Double(Double(a)))))
    ensures Multiply(a, 14) == Xor(Double(a), Xor(Double(Double(a)), Double(Double(Double(a)))))
  {
    hide Multiply;
    Times2(a); Times3(a); Times9(a); Times11(a); Times13(a); Times14(a);
  }

  // ---- the substitution table -------------------------------------------------

  lemma SboxLeftQ0(x: bv8)
    requires x < 64
    ensures InvSbox(Sbox(x)) == x
  {
  }

  lemma SboxRightQ0(x: bv8)
    requires x < 64
    ensures Sbox(InvSbox(x)) == x
  {
  }

  lemma SboxLeftQ1(x: bv8)
    requires 64 <= x < 128
    ensures InvSbox(Sbox(x)) == x
  {
  }

  lemma SboxRightQ1(x: bv8)
    requires 64 <= x < 128
    ensures Sbox(InvSbox(x)) == x
  {
  }

  lemma SboxLeftQ2(x: bv8)
    requires 128 <= x < 192
    ensures InvSbox(Sbox(x)) == x
  {
  }

  lemma SboxRightQ2(x: bv8)
    requires 128 <= x < 192
    ensures Sbox(InvSbox(x)) == x
  {
  }

  lemma SboxLeftQ3(x: bv8)
    requires 192 <= x
    ensures InvSbox(Sbox(x)) == x
  {
  }

  lemma SboxRightQ3(x: bv8)
    requires 192 <= x
    ensures Sbox(InvSbox(x)) == x
  {
  }

  /** The two tables are inverse permutations. */
  lemma SboxInverse(x: bv8)
    ensures InvSbox(Sbox(x)) == x && Sbox(InvSbox(x)) == x
  {
    hide Sbox, InvSbox;
    if x < 64 { SboxLeftQ0(x); SboxRightQ0(x); }
    else if x < 128 { SboxLeftQ1(x); SboxRightQ1(x); }
    else if x < 192 { SboxLeftQ2(x); SboxRightQ2(x); }
    else { SboxLeftQ3(x); SboxRightQ3(x); }
  }
}
