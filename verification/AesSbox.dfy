/** What the substitution table of AES is: the affine map of section 5.1.1 of FIPS 197 after inversion in the
    field. */
module AesSbox {
  import opened AesField

  /** Bit i of the result is the sum of bits i, i + 4, i + 5, i + 6 and i + 7 of `z` and bit i of 0x63. */
  function Affine(z: bv8): bv8 {
    z ^ ((z << 1) | (z >> 7)) ^ ((z << 2) | (z >> 6)) ^ ((z << 3) | (z >> 5)) ^ ((z << 4) | (z >> 4)) ^ 0x63
  }

  /** Its inverse. */
  function Unaffine(y: bv8): bv8 {
    ((y << 1) | (y >> 7)) ^ ((y << 3) | (y >> 5)) ^ ((y << 6) | (y >> 2)) ^ 0x05
  }

  lemma AffineInverse(y: bv8)
    ensures Affine(Unaffine(y)) == y
  {
  }

  // ---- products without recursion --------------------------------------------------------------------

  function Part(a: bv8, b: bv8): bv8 { if b & 1 == 1 then a else 0 }

  function Half(b: bv8): bv8 { b >> 1 }

  /** The product of `a` and the lowest bits of `b`, given the product of the rest. */
  lemma MultiplyStep(a: bv8, b: bv8)
    ensures Multiply(a, b) == Xor(Part(a, b), Multiply(Double(a), Half(b)))
  {
    hide Double;
    if b == 0 { XorZero(0); }
  }

  function Low(a: bv8, b: bv8, rest: bv8): bv8 {
    var a1, b1 := Double(a), Half(b);
    Xor(Part(a, b), Xor(Part(a1, b1), Xor(Part(Double(a1), Half(b1)),
                                          Xor(Part(Double(Double(a1)), Half(Half(b1))), rest))))
  }

  function Times16(a: bv8): bv8 { Double(Double(Double(Double(a)))) }

  function Over16(b: bv8): bv8 { Half(Half(Half(Half(b)))) }

  lemma LowIs(a: bv8, b: bv8)
    ensures Multiply(a, b) == Low(a, b, Multiply(Times16(a), Over16(b)))
  {
    hide Double, Half, Multiply, Part, Xor;
    var a1, b1 := Double(a), Half(b);
    MultiplyStep(a, b);
    MultiplyStep(a1, b1);
    MultiplyStep(Double(a1), Half(b1));
    MultiplyStep(Double(Double(a1)), Half(Half(b1)));
  }

  function Product(a: bv8, b: bv8): bv8 { Low(a, b, Low(Times16(a), Over16(b), 0)) }

  lemma ProductIs(a: bv8, b: bv8)
    ensures Multiply(a, b) == Product(a, b)
  {
    hide Low, Times16, Over16, Multiply;
    LowIs(a, b);
    LowIs(Times16(a), Over16(b));
    NoMore(Times16(Times16(a)), b);
  }

  lemma NoMore(a: bv8, b: bv8)
    ensures Multiply(a, Over16(Over16(b))) == 0
  {
    assert Over16(Over16(b)) == 0;
  }

  // ---- the table ------------------------------------------------------------------------------------

  lemma InverseQuarter0(x: bv8)
    requires x != 0 && x >> 6 == 0
    ensures Product(x, Unaffine(Sbox(x))) == 1
  {
  }

  lemma InverseQuarter1(x: bv8)
    requires x != 0 && x >> 6 == 1
    ensures Product(x, Unaffine(Sbox(x))) == 1
  {
  }

  lemma InverseQuarter2(x: bv8)
    requires x != 0 && x >> 6 == 2
    ensures Product(x, Unaffine(Sbox(x))) == 1
  {
  }

  lemma InverseQuarter3(x: bv8)
    requires x != 0 && x >> 6 == 3
    ensures Product(x, Unaffine(Sbox(x))) == 1
  {
  }

  lemma InverseOfZero()
    ensures Unaffine(Sbox(0)) == 0
  {
  }

  lemma AnyInverse(x: bv8)
    requires x != 0
    ensures Product(x, Unaffine(Sbox(x))) == 1
  {
    hide Sbox, Unaffine, Product;
    if x >> 6 == 0 { InverseQuarter0(x); }
    if x >> 6 == 1 { InverseQuarter1(x); }
    if x >> 6 == 2 { InverseQuarter2(x); }
    if x >> 6 == 3 { InverseQuarter3(x); }
  }

  /** The substitution is the affine map of the field inverse, zero standing for its own. */
  lemma SboxIsAffine(x: bv8)
    ensures Sbox(x) == Affine(Unaffine(Sbox(x)))
    ensures if x == 0 then Unaffine(Sbox(x)) == 0 else Multiply(x, Unaffine(Sbox(x))) == 1
  {
    hide Sbox, Affine, Unaffine, Product, Multiply;
    AffineInverse(Sbox(x));
    ProductIs(x, Unaffine(Sbox(x)));
    if x == 0 {
      InverseOfZero();
    } else {
      AnyInverse(x);
    }
  }
}
