/**
  The bit-by-bit CRC of src/crc/crc64_redis.c, and of src/crc/crc64.c the lookup tables and the steps
  through them for a byte and for a word, each proved against the operator of Crc64Algebra.
*/
module Crc64 {
  import opened Crc64Algebra

  // ---------------------------------------------------------------- bit by bit

  /** _crc64: any starting register; the result is the byte fold on the reflected register. */
  method BitByBit(start: bv64, data: seq<Byte>) returns (r: bv64)
    ensures r == Fold(Reflect(start), data)
    ensures r == Reflect(BitFold(start, data))
  {
    hide Reflect, FeedByte;
    var crc := start;
    var offset := 0;
    while offset < |data|
      invariant 0 <= offset <= |data|
      invariant BitFold(crc, data[offset..]) == BitFold(start, data)
    {
      crc := FeedBits(crc, data[offset]);
      assert data[offset..][1..] == data[offset + 1..];
      offset := offset + 1;
    }
    BitFoldIsFold(start, data);
    r := Reflect(crc);
  }

  /** The inner loop of _crc64: the mask i doubles until it leaves its eight bits. */
  method FeedBits(start: bv64, c: Byte) returns (crc: bv64)
    ensures crc == FeedByte(start, c, 8)
  {
    hide FeedBit, MaskAt, Xor, UpBit, Top, Selects, Halve, Double;
    crc := start;
    var i: Byte := 1;
    ghost var k, rest := 0, c;
    FirstMask(c);
    while i != 0
      invariant k <= 8
      invariant MaskAt(c, i, rest, k)
      invariant FeedByte(crc, rest, 8 - k) == FeedByte(start, c, 8)
      decreases 8 - k
    {
      NextMask(c, i, rest, k);
      // a register bit that differs from the input bit brings the polynomial in
      var bit := Top(crc);
      if Selects(c, i) {
        bit := !bit;
      }
      ghost var input := crc;
      crc := UpBit(crc);
      if bit {
        crc := Xor(crc, POLY);
      }
      FeedBitAgrees(input, Selects(rest, 1), crc);
      i, k, rest := Double(i), k + 1, Halve(rest);
    }
    LastMask(c, i, rest, k);
  }

  lemma FeedBitAgrees(c: bv64, bit: bool, crc: bv64)
    requires crc == if Top(c) != bit then Xor(UpBit(c), POLY) else UpBit(c)
    ensures crc == FeedBit(c, bit)
  {
  }

  function Double(i: Byte): Byte {
    i << 1
  }

  /** After k turns the mask i selects bit k of c, and rest is c without its k low bits. */
  ghost predicate MaskAt(c: Byte, i: Byte, rest: Byte, k: nat) {
    || (k == 0 && i == 1 && rest == c)
    || (k == 1 && i == 2 && rest == c >> 1)
    || (k == 2 && i == 4 && rest == c >> 2)
    || (k == 3 && i == 8 && rest == c >> 3)
    || (k == 4 && i == 16 && rest == c >> 4)
    || (k == 5 && i == 32 && rest == c >> 5)
    || (k == 6 && i == 64 && rest == c >> 6)
    || (k == 7 && i == 128 && rest == c >> 7)
    || (k == 8 && i == 0 && rest == 0)
  }

  lemma FirstMask(c: Byte)
    ensures MaskAt(c, 1, c, 0)
  {
  }

  lemma NextMask(c: Byte, i: Byte, rest: Byte, k: nat)
    requires MaskAt(c, i, rest, k) && i != 0
    ensures k < 8
    ensures Selects(c, i) <==> Selects(rest, 1)
    ensures MaskAt(c, Double(i), Halve(rest), k + 1)
  {
  }

  lemma LastMask(c: Byte, i: Byte, rest: Byte, k: nat)
    requires MaskAt(c, i, rest, k) && i == 0
    ensures k == 8
  {
  }

  // ---------------------------------------------------------------- lookup tables

  /** The low byte of the register, as an index. */
  function Index(x: bv64): int {
    (x & 0xff) as Byte as int
  }

  /** Entry n of table k: byte n pushed through k + 1 zero bytes. */
  function Entry(k: nat, n: int): bv64
    requires 0 <= n < 256
  {
    ZeroBits(Widen(n as Byte), 8 * (k + 1))
  }

  ghost predicate TablesReady(table: array2<bv64>)
    reads table
  {
    && table.Length0 == 8 && table.Length1 == 256
    && forall k, n | 0 <= k < 8 && 0 <= n < 256 :: table[k, n] == Entry(k, n)
  }

  lemma IndexOfByte(b: Byte)
    ensures 0 <= b as int < 256
    ensures b as int as Byte == b
  {
  }

  lemma IndexIsLow(x: bv64)
    ensures 0 <= Index(x) < 256
    ensures Widen(Index(x) as Byte) == LowByte(x)
  {
    IndexOfByte((x & 0xff) as Byte);
  }

  lemma EntryAt(k: nat, x: bv64)
    ensures 0 <= Index(x) < 256
    ensures Entry(k, Index(x)) == ZeroBits(LowByte(x), 8 * (k + 1))
  {
    hide ZeroBits, LowByte, Widen, Index;
    IndexIsLow(x);
  }

  /** Table k + 1 continues table k with one more zero byte. */
  lemma NextEntry(k: nat, n: int)
    requires 0 <= n < 256
    ensures 0 <= Index(Entry(k, n)) < 256
    ensures Entry(k + 1, n) == Xor(Entry(0, Index(Entry(k, n))), DownByte(Entry(k, n)))
  {
    hide ZeroBits, Xor, LowByte, DownByte, Widen, Index;
    var b := Widen(n as Byte);
    var crc := ZeroBits(b, 8 * (k + 1));
    ZeroBitsAdd(b, 8 * (k + 1), 8);
    OneZeroByte(crc);
    EntryAt(0, crc);
  }

  lemma OneZeroByte(r: bv64)
    ensures ZeroBits(r, 8) == Xor(ZeroBits(LowByte(r), 8), DownByte(r))
  {
    hide Xor, LowByte, DownByte, ZeroBit;
    PeelByte(r, 0);
    assert ZeroBits(DownByte(r), 0) == DownByte(r);
  }

  lemma FirstEntry(n: int)
    requires 0 <= n < 256
    ensures Fold(Reflect(0), [n as Byte]) == Entry(0, n)
  {
    ReflectConstants();
    hide Reflect, ZeroBits, Xor, Widen;
    XorUnits(Widen(n as Byte));
    assert [n as Byte][1..] == [];
  }

  /** crcspeed64little_init: table 0 from the bit-by-bit routine, the others from table 0. */
  method InitTables(table: array2<bv64>)
    requires table.Length0 == 8 && table.Length1 == 256
    modifies table
    ensures TablesReady(table)
  {
    hide Fold, Reflect, BitFold, Entry, Xor, DownByte, Index;
    for n := 0 to 256
      invariant forall i | 0 <= i < n :: table[0, i] == Entry(0, i)
    {
      var entry := BitByBit(0, [n as Byte]);
      FirstEntry(n);
      table[0, n] := entry;
    }
    for n := 0 to 256
      invariant forall i | 0 <= i < 256 :: table[0, i] == Entry(0, i)
      invariant forall k, i | 0 <= k < 8 && 0 <= i < n :: table[k, i] == Entry(k, i)
    {
      var crc := table[0, n];
      for k := 1 to 8
        invariant crc == Entry(k - 1, n)
        invariant forall i | 0 <= i < 256 :: table[0, i] == Entry(0, i)
        invariant forall j, i | 0 <= j < 8 && 0 <= i < n :: table[j, i] == Entry(j, i)
        invariant forall j | 0 <= j < k :: table[j, n] == Entry(j, n)
      {
        NextEntry(k - 1, n);
        crc := Xor(table[0, Index(crc)], DownByte(crc));
        table[k, n] := crc;
      }
    }
  }

  /** The byte step of crcspeed64little. */
  method StepByte(table: array2<bv64>, crc: bv64, b: Byte) returns (r: bv64)
    requires TablesReady(table)
    ensures r == ZeroBits(Xor(crc, Widen(b)), 8)
  {
    hide Xor, LowByte, DownByte, Index, Widen, ZeroBits, Entry;
    var x := Xor(crc, Widen(b));
    TableStep(crc, b);
    EntryAt(0, x);
    r := Xor(table[0, Index(x)], DownByte(crc));
  }

  /** DO_8_1 and DO_8_2: eight bytes enter the register at once and leave through eight tables. */
  method StepWord(table: array2<bv64>, crc: bv64, s: seq<Byte>) returns (r: bv64)
    requires TablesReady(table)
    requires |s| == 8
    ensures r == Fold(crc, s)
  {
    hide Xor, LowByte, DownByte, Index, ZeroBits, Load, Fold, Slices, Entry;
    var x := Xor(crc, Load(s));
    var x1 := DownByte(x);
    var x2 := DownByte(x1);
    var x3 := DownByte(x2);
    var x4 := DownByte(x3);
    var x5 := DownByte(x4);
    var x6 := DownByte(x5);
    var x7 := DownByte(x6);
    EntryAt(7, x);
    EntryAt(6, x1);
    EntryAt(5, x2);
    EntryAt(4, x3);
    EntryAt(3, x4);
    EntryAt(2, x5);
    EntryAt(1, x6);
    EntryAt(0, x7);
    r := Xor(table[7, Index(x)],
         Xor(table[6, Index(x1)],
         Xor(table[5, Index(x2)],
         Xor(table[4, Index(x3)],
         Xor(table[3, Index(x4)],
         Xor(table[2, Index(x5)],
         Xor(table[1, Index(x6)], table[0, Index(x7)])))))));
    EightSlices(x, x1, x2, x3, x4, x5, x6, x7);
    SliceByEight(x);
    FoldWord(crc, s);
  }

  lemma SlicesStep(x: bv64, k: nat)
    ensures Slices(x, k + 1) == Xor(ZeroBits(LowByte(x), 8 * (k + 1)), Slices(DownByte(x), k))
  {
  }

  lemma LastSlice(x: bv64)
    ensures Slices(x, 1) == ZeroBits(LowByte(x), 8)
  {
    hide Xor, LowByte, DownByte, ZeroBits;
    XorUnits(ZeroBits(LowByte(x), 8));
  }

  lemma EightSlices(x: bv64, x1: bv64, x2: bv64, x3: bv64, x4: bv64, x5: bv64, x6: bv64, x7: bv64)
    requires x1 == DownByte(x) && x2 == DownByte(x1) && x3 == DownByte(x2) && x4 == DownByte(x3)
    requires x5 == DownByte(x4) && x6 == DownByte(x5) && x7 == DownByte(x6)
    ensures Slices(x, 8)
         == Xor(ZeroBits(LowByte(x), 64), Xor(ZeroBits(LowByte(x1), 56), Xor(ZeroBits(LowByte(x2), 48),
            Xor(ZeroBits(LowByte(x3), 40), Xor(ZeroBits(LowByte(x4), 32), Xor(ZeroBits(LowByte(x5), 24),
            Xor(ZeroBits(LowByte(x6), 16), ZeroBits(LowByte(x7), 8))))))))
  {
    hide Xor, LowByte, DownByte, ZeroBits, Slices;
    LastSlice(x7);
    SlicesStep(x6, 1);
    SlicesStep(x5, 2);
    SlicesStep(x4, 3);
    SlicesStep(x3, 4);
    SlicesStep(x2, 5);
    SlicesStep(x1, 6);
    SlicesStep(x, 7);
  }
}
