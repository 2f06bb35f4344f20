/** Octets as bit vectors. */
module Octets {

  function Byte(k: int): bv8
    requires 0 <= k < 256
  {
    k as bv8
  }

  lemma Successor(b: bv8)
    requires b != 255
    ensures (b + 1) as int == b as int + 1
  {
  }

  /** Every octet is the number of some bit vector. */
  lemma VectorOf(k: nat) returns (b: bv8)
    requires k < 256
    ensures b as int == k
  {
    if k == 0 {
      b := 0;
    } else {
      var c := VectorOf(k - 1);
      Successor(c);
      b := c + 1;
    }
  }

  lemma OctetValue(k: int)
    requires 0 <= k < 256
    ensures Byte(k) as int == k
  {
    var b := VectorOf(k);
    assert (b as int) as bv8 == b;
  }
}
