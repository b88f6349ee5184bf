/**
  The algebra behind the CRC-64 (Jones polynomial) of src/crc.

  Every fast form of the CRC is related to one operator on the reflected register:
  ZeroBits(r, n) is what n zero bits of input do to r. It is linear over exclusive-or, and
  appending a byte b to r is ZeroBits(r ^ b, 8). The bit-by-bit routine is the reference.

  Exclusive-or, low byte and byte shift have names, so that a proof can leave the words
  uninterpreted once the few facts about them are in hand.
*/
module Crc64Algebra {

  /** The generator polynomial, and the same bits in reverse order. */
  const POLY: bv64 := 0xad93d23594c935a9
  const REVERSED_POLY: bv64 := 0x95ac9329ac4bc9b5

  type Byte = bv8

  function Xor(a: bv64, b: bv64): bv64 {
    a ^ b
  }

  function Widen(b: Byte): bv64 {
    b as bv64
  }

  function LowByte(x: bv64): bv64 {
    x & 0xff
  }

  function DownByte(x: bv64): bv64 {
    x >> 8
  }

  function UpByte(x: bv64): bv64 {
    x << 8
  }

  // ---------------------------------------------------------------- bit-by-bit register

  predicate Top(c: bv64) {
    c & 0x8000000000000000 != 0
  }

  predicate Odd(r: bv64) {
    r & 1 == 1
  }

  function UpBit(c: bv64): bv64 {
    c << 1
  }

  function DownBit(r: bv64): bv64 {
    r >> 1
  }

  /** One turn of the inner loop of _crc64: one input bit enters the unreflected register. */
  function FeedBit(c: bv64, bit: bool): bv64 {
    if Top(c) != bit then Xor(UpBit(c), POLY) else UpBit(c)
  }

  predicate Selects(b: Byte, i: Byte) {
    b & i != 0
  }

  function Halve(b: Byte): Byte {
    b >> 1
  }

  /** The inner loop of _crc64 over the n low bits of b, lowest first. */
  function FeedByte(c: bv64, b: Byte, n: nat): bv64
    decreases n
  {
    if n == 0 then c else FeedByte(FeedBit(c, Selects(b, 1)), Halve(b), n - 1)
  }

  /** The outer loop of _crc64. */
  function BitFold(c: bv64, s: seq<Byte>): bv64
    decreases |s|
  {
    if s == [] then c else BitFold(FeedByte(c, s[0], 8), s[1..])
  }

  /** crc_reflect with data_len == 64: swap neighbours, pairs, nibbles, bytes, words, halves. */
  function Reflect(data: bv64): bv64 {
    var d1 := ((data >> 1) & 0x5555555555555555) | ((data & 0x5555555555555555) << 1);
    var d2 := ((d1 >> 2) & 0x3333333333333333) | ((d1 & 0x3333333333333333) << 2);
    var d3 := ((d2 >> 4) & 0x0F0F0F0F0F0F0F0F) | ((d2 & 0x0F0F0F0F0F0F0F0F) << 4);
    var d4 := ((d3 >> 8) & 0x00FF00FF00FF00FF) | ((d3 & 0x00FF00FF00FF00FF) << 8);
    var d5 := ((d4 >> 16) & 0x0000FFFF0000FFFF) | ((d4 & 0x0000FFFF0000FFFF) << 16);
    ((d5 >> 32) & 0x00000000FFFFFFFF) | ((d5 & 0x00000000FFFFFFFF) << 32)
  }

  // ---------------------------------------------------------------- reflected register

  function ZeroBit(r: bv64): bv64 {
    if Odd(r) then Xor(DownBit(r), REVERSED_POLY) else DownBit(r)
  }

  function ZeroBits(r: bv64, n: nat): bv64
    decreases n
  {
    if n == 0 then r else ZeroBits(ZeroBit(r), n - 1)
  }

  /** The byte-at-a-time CRC on the reflected register. */
  function Fold(r: bv64, s: seq<Byte>): bv64
    decreases |s|
  {
    if s == [] then r else Fold(ZeroBits(Xor(r, Widen(s[0])), 8), s[1..])
  }

  // ---------------------------------------------------------------- exclusive-or

  lemma XorAssociative(a: bv64, b: bv64, c: bv64)
    ensures Xor(Xor(a, b), c) == Xor(a, Xor(b, c))
  {
  }

  lemma XorCommutes(a: bv64, b: bv64)
    ensures Xor(a, b) == Xor(b, a)
  {
  }

  lemma XorUnits(a: bv64)
    ensures Xor(a, 0) == a == Xor(0, a)
    ensures Xor(a, a) == 0
  {
  }

  lemma XorLaws(a: bv64, b: bv64, c: bv64)
    ensures Xor(Xor(a, b), c) == Xor(a, Xor(b, c))
    ensures Xor(a, b) == Xor(b, a)
    ensures Xor(a, 0) == a == Xor(0, a)
    ensures Xor(a, a) == 0
  {
    hide Xor;
    XorAssociative(a, b, c);
    XorCommutes(a, b);
    XorUnits(a);
  }

  lemma ShiftXor(a: bv64, b: bv64)
    ensures DownBit(Xor(a, b)) == Xor(DownBit(a), DownBit(b))
    ensures Odd(Xor(a, b)) <==> Odd(a) != Odd(b)
  {
    assert (a ^ b) & 1 == (a & 1) ^ (b & 1);
    assert a & 1 == 0 || a & 1 == 1;
    assert b & 1 == 0 || b & 1 == 1;
  }

  lemma XorTwice(a: bv64, b: bv64, p: bv64)
    ensures Xor(Xor(a, b), p) == Xor(Xor(a, p), b) == Xor(a, Xor(b, p))
    ensures Xor(Xor(a, p), Xor(b, p)) == Xor(a, b)
  {
    hide Xor;
    XorLaws(a, b, p);
    XorLaws(b, p, p);
    XorLaws(a, p, b);
    XorLaws(p, b, p);
    XorUnits(p);
    XorAssociative(a, p, Xor(b, p));
  }

  lemma ZeroBitLinear(a: bv64, b: bv64)
    ensures ZeroBit(Xor(a, b)) == Xor(ZeroBit(a), ZeroBit(b))
  {
    hide Xor, DownBit, Odd;
    ShiftXor(a, b);
    XorTwice(DownBit(a), DownBit(b), REVERSED_POLY);
  }

  // ---------------------------------------------------------------- the operator

  /** The operator for any number of zero bits is linear. */
  lemma {:induction false} ZeroBitsLinear(a: bv64, b: bv64, n: nat)
    ensures ZeroBits(Xor(a, b), n) == Xor(ZeroBits(a, n), ZeroBits(b, n))
    decreases n
  {
    hide Xor, ZeroBit;
    if n > 0 {
      ZeroBitLinear(a, b);
      ZeroBitsLinear(ZeroBit(a), ZeroBit(b), n - 1);
    }
  }

  lemma {:induction false} ZeroBitsOfZero(n: nat)
    ensures ZeroBits(0, n) == 0
  {
    if n > 0 {
      assert ZeroBit(0) == 0;
      ZeroBitsOfZero(n - 1);
    }
  }

  lemma {:induction false} ZeroBitsAdd(r: bv64, m: nat, n: nat)
    ensures ZeroBits(r, m + n) == ZeroBits(ZeroBits(r, m), n)
    decreases m
  {
    hide ZeroBit;
    if m > 0 {
      ZeroBitsAdd(ZeroBit(r), m - 1, n);
    }
  }

  lemma FourZeroBits(r: bv64)
    ensures ZeroBits(r, 4) == ZeroBit(ZeroBit(ZeroBit(ZeroBit(r))))
  {
    hide ZeroBit;
    var r2 := ZeroBit(ZeroBit(r));
    assert ZeroBits(r, 4) == ZeroBits(r2, 2);
    assert ZeroBits(r2, 2) == ZeroBits(ZeroBit(ZeroBit(r2)), 0);
  }

  lemma FourClearBits(r: bv64)
    requires r & 0xf == 0
    ensures ZeroBit(ZeroBit(ZeroBit(ZeroBit(r)))) == r >> 4
  {
  }

  /** Eight zero bits move a register whose low byte is clear down by one byte. */
  lemma ZeroByteShifts(r: bv64)
    requires LowByte(r) == 0
    ensures ZeroBits(r, 8) == DownByte(r)
  {
    hide ZeroBit, ZeroBits;
    assert r & 0xf == 0 && (r >> 4) & 0xf == 0 && (r >> 4) >> 4 == r >> 8;
    FourZeroBits(r);
    FourClearBits(r);
    FourZeroBits(r >> 4);
    FourClearBits(r >> 4);
    ZeroBitsAdd(r, 4, 4);
  }

  function HighBytes(x: bv64): bv64 {
    x & 0xffffffffffffff00
  }

  lemma SplitLowByte(x: bv64)
    ensures x == Xor(LowByte(x), HighBytes(x))
    ensures LowByte(HighBytes(x)) == 0
    ensures DownByte(HighBytes(x)) == DownByte(x)
  {
  }

  /** A register gives up its low byte and moves the others down: the step of every table method. */
  lemma PeelByte(x: bv64, n: nat)
    ensures ZeroBits(x, 8 + n) == Xor(ZeroBits(LowByte(x), 8 + n), ZeroBits(DownByte(x), n))
  {
    hide Xor, LowByte, HighBytes, DownByte, ZeroBits;
    SplitLowByte(x);
    ZeroBitsLinear(LowByte(x), HighBytes(x), 8 + n);
    ZeroBitsAdd(HighBytes(x), 8, n);
    ZeroByteShifts(HighBytes(x));
  }

  lemma XorByteIsLow(r: bv64, b: Byte)
    ensures DownByte(Xor(r, Widen(b))) == DownByte(r)
    ensures LowByte(Widen(b)) == Widen(b)
  {
  }

  /** One byte of input is one lookup, indexed by the low byte, and one shift. */
  lemma TableStep(r: bv64, b: Byte)
    ensures ZeroBits(Xor(r, Widen(b)), 8)
         == Xor(ZeroBits(LowByte(Xor(r, Widen(b))), 8), DownByte(r))
  {
    hide Xor, LowByte, DownByte, Widen, ZeroBit;
    var x := Xor(r, Widen(b));
    PeelByte(x, 0);
    XorByteIsLow(r, b);
    assert ZeroBits(DownByte(x), 0) == DownByte(x);
  }

  // ---------------------------------------------------------------- concatenation

  lemma {:induction false} FoldConcat(r: bv64, s: seq<Byte>, t: seq<Byte>)
    ensures Fold(r, s + t) == Fold(Fold(r, s), t)
    decreases |s|
  {
    hide Xor, Widen, ZeroBits;
    if s == [] {
      assert s + t == t;
    } else {
      assert (s + t)[1..] == s[1..] + t;
      FoldConcat(ZeroBits(Xor(r, Widen(s[0])), 8), s[1..], t);
    }
  }

  /** A fold from r is the fold from zero plus r pushed through that many zero bytes. */
  lemma {:induction false} FoldSplitsOffStart(r: bv64, s: seq<Byte>)
    ensures Fold(r, s) == Xor(ZeroBits(r, 8 * |s|), Fold(0, s))
    decreases |s|
  {
    hide Xor, Widen, ZeroBit;
    if s == [] {
      XorLaws(r, 0, 0);
    } else {
      hide ZeroBits;
      var w, t := Widen(s[0]), s[1..];
      var a, b := ZeroBits(r, 8), ZeroBits(w, 8);
      XorLaws(w, 0, 0);
      ZeroBitsLinear(r, w, 8);
      FoldSplitsOffStart(Xor(a, b), t);
      FoldSplitsOffStart(b, t);
      ZeroBitsLinear(a, b, 8 * |t|);
      ZeroBitsAdd(r, 8, 8 * |t|);
      XorLaws(ZeroBits(a, 8 * |t|), ZeroBits(b, 8 * |t|), Fold(0, t));
    }
  }

  /** Two blocks processed apart, the second from zero, merge into the CRC of both in a row. */
  lemma MergeBlocks(r: bv64, s: seq<Byte>, t: seq<Byte>)
    ensures Fold(r, s + t) == Xor(ZeroBits(Fold(r, s), 8 * |t|), Fold(0, t))
  {
    FoldConcat(r, s, t);
    FoldSplitsOffStart(Fold(r, s), t);
  }

  // ---------------------------------------------------------------- eight bytes at once

  /** The bytes of s as a little-endian word. */
  function Load(s: seq<Byte>): bv64 {
    if s == [] then 0 else Xor(Widen(s[0]), UpByte(Load(s[1..])))
  }

  /** The words that n bytes can make. */
  function Room(n: nat): bv64 {
    if n == 0 then 0 else UpByte(Room(n - 1)) | 0xff
  }

  predicate Within(x: bv64, room: bv64) {
    x & room == x
  }

  lemma RoomGrows(x: bv64, n: nat, b: Byte)
    requires Within(x, Room(n))
    ensures Within(Xor(Widen(b), UpByte(x)), Room(n + 1))
  {
  }

  lemma NothingFits()
    ensures Within(0, Room(0))
    ensures forall x :: Within(x, Room(0)) ==> x == 0
  {
  }

  lemma {:induction false} LoadFits(s: seq<Byte>)
    ensures Within(Load(s), Room(|s|))
  {
    hide Within, Room, Xor, UpByte, Widen;
    if s == [] {
      NothingFits();
    } else {
      LoadFits(s[1..]);
      RoomGrows(Load(s[1..]), |s| - 1, s[0]);
    }
  }

  lemma {:induction false} RoomOfSeven(n: nat)
    requires n <= 7
    ensures Room(n) & 0xff00000000000000 == 0
  {
    assert Room(1) == 0xff && Room(2) == 0xffff;
    assert Room(3) == 0xffffff && Room(4) == 0xffffffff;
    assert Room(5) == 0xffffffffff && Room(6) == 0xffffffffffff;
    assert Room(7) == 0xffffffffffffff;
  }

  lemma UpThenDown(x: bv64, room: bv64)
    requires Within(x, room) && room & 0xff00000000000000 == 0
    ensures DownByte(UpByte(x)) == x && LowByte(UpByte(x)) == 0
  {
  }

  /** A word of at most eight bytes can be added to the register before any zero bit runs. */
  lemma {:induction false} FoldWord(r: bv64, s: seq<Byte>)
    requires |s| <= 8
    ensures Fold(r, s) == ZeroBits(Xor(r, Load(s)), 8 * |s|)
    decreases |s|
  {
    hide Xor, Widen, ZeroBit, UpByte, DownByte, LowByte;
    if s == [] {
      XorLaws(r, 0, 0);
    } else {
      hide ZeroBits;
      var w, t := Widen(s[0]), s[1..];
      var up := UpByte(Load(t));
      LoadFits(t);
      RoomOfSeven(|t|);
      UpThenDown(Load(t), Room(|t|));
      ZeroByteShifts(up);
      FoldWord(ZeroBits(Xor(r, w), 8), t);
      ZeroBitsLinear(Xor(r, w), up, 8);
      XorLaws(r, w, up);
      ZeroBitsAdd(Xor(r, Xor(w, up)), 8, 8 * |t|);
    }
  }

  /** The register's k lowest bytes, each sent through its own lookup, summed from the lowest up. */
  function Slices(x: bv64, k: nat): bv64
    decreases k
  {
    if k == 0 then 0 else Xor(ZeroBits(LowByte(x), 8 * k), Slices(DownByte(x), k - 1))
  }

  lemma {:induction false} SlicesPeel(x: bv64, k: nat)
    requires Within(x, Room(k))
    ensures Slices(x, k) == ZeroBits(x, 8 * k)
    decreases k
  {
    hide Xor, ZeroBit, LowByte, DownByte, Within, Room;
    if k == 0 {
      NothingFits();
    } else {
      hide ZeroBits;
      PeelByte(x, 8 * (k - 1));
      RoomShrinks(x, k - 1);
      SlicesPeel(DownByte(x), k - 1);
    }
  }

  lemma RoomShrinks(x: bv64, n: nat)
    requires Within(x, Room(n + 1))
    ensures Within(DownByte(x), Room(n))
  {
  }

  /** Slice-by-8: eight lookups on the eight bytes of the register are 64 zero bits. */
  lemma SliceByEight(x: bv64)
    ensures Slices(x, 8) == ZeroBits(x, 64)
  {
    assert Room(4) == 0xffffffff;
    assert Room(8) == 0xffffffffffffffff;
    SlicesPeel(x, 8);
  }

  // ---------------------------------------------------------------- bit-by-bit = byte fold

  lemma ReflectShift(c: bv64)
    ensures Reflect(UpBit(c)) == DownBit(Reflect(c))
    ensures Odd(Reflect(c)) <==> Top(c)
  {
  }

  lemma ReflectXor(a: bv64, b: bv64)
    ensures Reflect(Xor(a, b)) == Xor(Reflect(a), Reflect(b))
  {
  }

  lemma ReflectConstants()
    ensures Reflect(POLY) == REVERSED_POLY
    ensures Reflect(0) == 0
  {
  }

  /** Reflecting twice is the identity. */
  lemma ReflectInvolution(c: bv64)
    ensures Reflect(Reflect(c)) == c
  {
  }

  function BitWord(bit: bool): bv64 {
    if bit then 1 else 0
  }

  lemma AddBit(r: bv64, bit: bool)
    ensures DownBit(Xor(r, BitWord(bit))) == DownBit(r)
    ensures Odd(Xor(r, BitWord(bit))) <==> Odd(r) != bit
  {
  }

  lemma FeedBitReflected(c: bv64, bit: bool)
    ensures Reflect(FeedBit(c, bit)) == ZeroBit(Xor(Reflect(c), BitWord(bit)))
  {
    hide Reflect, Xor, BitWord, UpBit, DownBit, Odd, Top;
    ReflectShift(c);
    ReflectXor(UpBit(c), POLY);
    ReflectConstants();
    AddBit(Reflect(c), bit);
  }

  lemma SplitLowBit(b: Byte)
    ensures Widen(b) == Xor(BitWord(Selects(b, 1)), UpBit(Widen(Halve(b))))
    ensures ZeroBit(UpBit(Widen(Halve(b)))) == Widen(Halve(b))
  {
  }

  predicate Fits(b: Byte, n: nat)
    decreases n
  {
    if n == 0 then b == 0 else Fits(Halve(b), n - 1)
  }

  lemma {:induction false} FeedByteReflected(c: bv64, b: Byte, n: nat)
    requires Fits(b, n)
    ensures Reflect(FeedByte(c, b, n)) == ZeroBits(Xor(Reflect(c), Widen(b)), n)
    decreases n
  {
    hide Reflect, FeedBit, ZeroBit, Xor, BitWord, Selects, Halve, UpBit;
    if n == 0 {
      assert Widen(0) == 0;
      XorLaws(Reflect(c), 0, 0);
    } else {
      hide Widen;
      var bit := Selects(b, 1);
      var c1 := FeedBit(c, bit);
      var low, up := BitWord(bit), UpBit(Widen(Halve(b)));
      FeedBitReflected(c, bit);
      SplitLowBit(b);
      XorLaws(Reflect(c), low, up);
      ZeroBitLinear(Xor(Reflect(c), low), up);
      FeedByteReflected(c1, Halve(b), n - 1);
    }
  }

  lemma EightBitsFit(b: Byte)
    ensures Fits(b, 8)
  {
    var b2 := Halve(Halve(b));
    var b4 := Halve(Halve(b2));
    assert Halve(Halve(Halve(Halve(b4)))) == 0;
    assert Fits(b4, 4);
    assert Fits(b, 8) == Fits(b2, 6) == Fits(b4, 4);
  }

  /** The bit-by-bit routine, run on any register, is the byte fold on the reflected register. */
  lemma {:induction false} BitFoldIsFold(c: bv64, s: seq<Byte>)
    ensures Reflect(BitFold(c, s)) == Fold(Reflect(c), s)
    decreases |s|
  {
    hide Reflect, FeedByte, ZeroBits, Xor, Widen, Fits;
    if s != [] {
      EightBitsFit(s[0]);
      FeedByteReflected(c, s[0], 8);
      BitFoldIsFold(FeedByte(c, s[0], 8), s[1..]);
    }
  }
}
