/**
  Which CRC it is: the polynomial as numbers, and the check value that identifies the Jones CRC-64 and
  that src/crc/crc_test.c asks of the library.
*/
module Crc64Check {
  import opened Crc64Algebra
  import Crc64

  /** The polynomial as numbers, in both directions of the register. */
  lemma OneBit()
    ensures ZeroBits(1, 1) == 0x95ac9329ac4bc9b5
    ensures FeedBit(0, true) == 0xad93d23594c935a9
  {
    assert ZeroBits(ZeroBit(1), 0) == ZeroBit(1);
  }

  /** The eight turns for one byte, written out. */
  lemma EightBits(v0: bv64, v1: bv64, v2: bv64, v3: bv64, v4: bv64, v5: bv64, v6: bv64, v7: bv64, v8: bv64)
    requires v1 == ZeroBit(v0) && v2 == ZeroBit(v1) && v3 == ZeroBit(v2) && v4 == ZeroBit(v3)
    requires v5 == ZeroBit(v4) && v6 == ZeroBit(v5) && v7 == ZeroBit(v6) && v8 == ZeroBit(v7)
    ensures ZeroBits(v0, 8) == v8
  {
    hide ZeroBit;
    assert ZeroBits(v0, 8) == ZeroBits(v1, 7) == ZeroBits(v2, 6) == ZeroBits(v3, 5) == ZeroBits(v4, 4);
    assert ZeroBits(v4, 4) == ZeroBits(v5, 3) == ZeroBits(v6, 2) == ZeroBits(v7, 1) == ZeroBits(v8, 0);
  }

  lemma Digit1()
    ensures ZeroBits(Xor(0x0000000000000000, Widen(0x31)), 8) == 0xfdc17184a9f739fa
  {
    EightBits(0x0000000000000031, 0x95ac9329ac4bc9ad, 0xdf7adabd7a6e2d63, 0xfa11fe77117cdf04, 0x7d08ff3b88be6f82,
              0x3e847f9dc45f37c1, 0x8aeeace74e645255, 0xd0dbc55a0b79e09f, 0xfdc17184a9f739fa);
  }

  lemma Digit2()
    ensures ZeroBits(Xor(0xfdc17184a9f739fa, Widen(0x32)), 8) == 0xe10364513a98ed96
  {
    EightBits(0xfdc17184a9f739c8, 0x7ee0b8c254fb9ce4, 0x3f705c612a7dce72, 0x1fb82e30953ee739, 0x9a708431e6d4ba29,
              0xd894d1315f2194a1, 0xf9e6fbb103db03e5, 0xe95feef12da64847, 0xe10364513a98ed96);
  }

  lemma Digit3()
    ensures ZeroBits(Xor(0xe10364513a98ed96, Widen(0x33)), 8) == 0xd5bcfb814479b1ac
  {
    EightBits(0xe10364513a98eda5, 0xe52d21013107bf67, 0xe73a03a934c81606, 0x739d01d49a640b03, 0xac6213c3e179cc34,
              0x563109e1f0bce61a, 0x2b1884f0f85e730d, 0x8020d151d064f033, 0xd5bcfb814479b1ac);
  }

  lemma Digit4()
    ensures ZeroBits(Xor(0xd5bcfb814479b1ac, Widen(0x34)), 8) == 0x43593c5dcda521f0
  {
    EightBits(0xd5bcfb814479b198, 0x6ade7dc0a23cd8cc, 0x356f3ee0511e6c66, 0x1ab79f70288f3633, 0x98f75c91b80c52ac,
              0x4c7bae48dc062956, 0x263dd7246e0314ab, 0x86b278bb9b4a43e0, 0x43593c5dcda521f0);
  }

  lemma Digit5()
    ensures ZeroBits(Xor(0x43593c5dcda521f0, Widen(0x35)), 8) == 0xf0758513239c7e0d
  {
    EightBits(0x43593c5dcda521c5, 0xb4000d074a995957, 0xcfac95aa0907651e, 0x67d64ad50483b28f, 0xa647b6432e0a10f2,
              0x5323db2197050879, 0xbc3d7eb967c94d89, 0xcbb22c751faf6f71, 0xf0758513239c7e0d);
  }

  lemma Digit6()
    ensures ZeroBits(Xor(0xf0758513239c7e0d, Widen(0x36)), 8) == 0xa3a90925b2ab4903
  {
    EightBits(0xf0758513239c7e3b, 0xed9651a03d85f6a8, 0x76cb28d01ec2fb54, 0x3b6594680f617daa, 0x1db2ca3407b0bed5,
              0x9b75f633af9396df, 0xd81668307b8202da, 0x6c0b34183dc1016d, 0xa3a90925b2ab4903);
  }

  lemma Digit7()
    ensures ZeroBits(Xor(0xa3a90925b2ab4903, Widen(0x37)), 8) == 0x47824d362431ad45
  {
    EightBits(0xa3a90925b2ab4934, 0x51d48492d955a49a, 0x28ea42496caad24d, 0x81d9b20d1a1ea093, 0xd5404a2f214499fc,
              0x6aa0251790a24cfe, 0x3550128bc851267f, 0x8f049a6c48635a8a, 0x47824d362431ad45);
  }

  lemma Digit8()
    ensures ZeroBits(Xor(0x47824d362431ad45, Widen(0x38)), 8) == 0x49ec20b315e86dc2
  {
    EightBits(0x47824d362431ad7d, 0xb66db5b2be531f0b, 0xce9a49f0f3624630, 0x674d24f879b12318, 0x33a6927c3cd8918c,
              0x19d3493e1e6c48c6, 0x0ce9a49f0f362463, 0x93d841662bd0db84, 0x49ec20b315e86dc2);
  }

  lemma Digit9()
    ensures ZeroBits(Xor(0x49ec20b315e86dc2, Widen(0x39)), 8) == 0xe9c6d914c4b8d9ca
  {
    EightBits(0x49ec20b315e86dfb, 0xb15a837026bfff48, 0x58ad41b8135fffa4, 0x2c56a0dc09afffd2, 0x162b506e04d7ffe9,
              0x9eb93b1eae203641, 0xdaf00ea6fb5bd295, 0xf8d4947ad1e620ff, 0xe9c6d914c4b8d9ca);
  }

  const DIGITS: seq<Byte> := [0x31, 0x32, 0x33, 0x34, 0x35, 0x36, 0x37, 0x38, 0x39]

  lemma FoldDigit(r: bv64, i: nat, after: bv64)
    requires i < 9 && ZeroBits(Xor(r, Widen(DIGITS[i])), 8) == after
    ensures Fold(r, DIGITS[i..]) == Fold(after, DIGITS[i + 1..])
  {
    hide ZeroBits, Xor, Widen;
    assert DIGITS[i..][0] == DIGITS[i] && DIGITS[i..][1..] == DIGITS[i + 1..];
  }

  lemma FoldNothing(r: bv64)
    ensures Fold(r, []) == r
  {
  }

  /** "123456789" from a zero register. */
  lemma CheckValue()
    ensures Fold(0, DIGITS) == 0xe9c6d914c4b8d9ca
  {
    hide ZeroBits, Xor, Widen, Fold;
    assert DIGITS[0..] == DIGITS && DIGITS[9..] == [];
    Digit1();
    FoldDigit(0x0000000000000000, 0, 0xfdc17184a9f739fa);
    Digit2();
    FoldDigit(0xfdc17184a9f739fa, 1, 0xe10364513a98ed96);
    Digit3();
    FoldDigit(0xe10364513a98ed96, 2, 0xd5bcfb814479b1ac);
    Digit4();
    FoldDigit(0xd5bcfb814479b1ac, 3, 0x43593c5dcda521f0);
    Digit5();
    FoldDigit(0x43593c5dcda521f0, 4, 0xf0758513239c7e0d);
    Digit6();
    FoldDigit(0xf0758513239c7e0d, 5, 0xa3a90925b2ab4903);
    Digit7();
    FoldDigit(0xa3a90925b2ab4903, 6, 0x47824d362431ad45);
    Digit8();
    FoldDigit(0x47824d362431ad45, 7, 0x49ec20b315e86dc2);
    Digit9();
    FoldDigit(0x49ec20b315e86dc2, 8, 0xe9c6d914c4b8d9ca);
    FoldNothing(0xe9c6d914c4b8d9ca);
  }

  /** The bit-by-bit routine on the same message. */
  method CheckBitByBit() returns (r: bv64)
    ensures r == 0xe9c6d914c4b8d9ca
  {
    hide Fold, BitFold, Reflect;
    ReflectConstants();
    CheckValue();
    r := Crc64.BitByBit(0, DIGITS);
  }
}
