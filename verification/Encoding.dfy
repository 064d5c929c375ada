/** Immediate fields of instruction words: which numbers a field of so many bits can hold. */
module Encoding {
  import opened Bits

  predicate UnsignedField(bits: nat, imm: int) {
    0 <= imm < Pow2(bits)
  }

  predicate SignedField(bits: nat, imm: int)
    requires bits > 0
  {
    0 - Pow2(bits - 1) <= imm < Pow2(bits - 1)
  }

  lemma FieldSizes()
    ensures Pow2(6) == 64 && Pow2(12) == 4096 && Pow2(13) == 8192 && Pow2(18) == 0x4_0000
  {
    assert Pow2(3) == 8 && Pow2(6) == 64;
    assert Pow2(9) == 512 && Pow2(12) == 4096;
    assert Pow2(15) == 32768 && Pow2(18) == 0x4_0000;
  }
}
