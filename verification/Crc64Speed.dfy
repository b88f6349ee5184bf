/**
  The combine cache of src/crc/crc64.c and crcspeed64little: a buffer split into one, two or
  three streams that are folded eight bytes at a time and merged by matrix multiplication.
*/
module Crc64Speed {
  import opened Powers
  import opened Crc64Algebra
  import opened Gf2Matrix
  import Crc64

  const SIZE_LIMIT: nat := 0x1_0000_0000_0000_0000

  lemma Pow2Of64()
    ensures Pow2(64) == SIZE_LIMIT
  {
    assert Pow2(8) == 256;
    assert Pow2(16) == 65536;
    assert Pow2(24) == 0x100_0000;
    assert Pow2(32) == 0x1_0000_0000;
    assert Pow2(40) == 0x100_0000_0000;
    assert Pow2(48) == 0x1_0000_0000_0000;
    assert Pow2(56) == 0x100_0000_0000_0000;
  }

  // ---------------------------------------------------------------- one zero bit

  predicate Single(x: bv64) {
    x & (x - 1) == 0
  }

  lemma SingleUp(x: bv64)
    requires Single(x)
    ensures Single(UpBit(x))
    ensures Top(x) ==> UpBit(x) == 0
  {
  }

  lemma {:induction false} ShlSingle(n: nat)
    ensures Single(Shl(1, n))
  {
    hide UpBit, Single;
    if n == 0 {
      OneIsSingle();
    } else {
      ShlSingle(n - 1);
      SingleUp(Shl(1, n - 1));
    }
  }

  lemma OneIsSingle()
    ensures Single(1)
  {
  }

  lemma ShlTopmost()
    ensures Shl(1, 63) != 0
  {
    ShlWord(1);
    ShlWord(UpWord(1));
    ShlWord(UpWord(UpWord(1)));
    ShlAdd(1, 16, 16);
    ShlAdd(1, 32, 16);
    var a := Shl(1, 48);
    assert a == 0x1000000000000;
    ShlNibble(a);
    ShlNibble(a << 4);
    ShlNibble(a << 8);
    ShlAdd(1, 48, 4);
    ShlAdd(1, 52, 4);
    ShlAdd(1, 56, 4);
    var b := Shl(1, 60);
    assert b == 0x1000000000000000;
    assert Shl(1, 61) == b << 1;
    assert Shl(1, 62) == b << 2;
  }

  /** No basis vector below the last has the top bit set, so shifting it up loses nothing. */
  lemma ShlKeepsBit(n: nat)
    requires n < 63
    ensures !Top(Shl(1, n))
  {
    hide UpBit, Single, Top;
    if Top(Shl(1, n)) {
      ShlSingle(n);
      SingleUp(Shl(1, n));
      ShlAdd(1, n + 1, 62 - n);
      ShlOfZero(62 - n);
      ShlTopmost();
    }
  }

  lemma ZeroBitOfUp(x: bv64)
    requires !Top(x)
    ensures ZeroBit(UpBit(x)) == x
  {
  }

  lemma ZeroBitOfOne()
    ensures ZeroBit(1) == REVERSED_POLY
  {
  }

  /** The starting matrix of init_combine_cache is the operator for one zero bit. */
  lemma OneBitMatrix(m: seq<bv64>)
    requires |m| == 64 && m[0] == REVERSED_POLY
    requires forall n | 1 <= n < 64 :: m[n] == Shl(1, n - 1)
    ensures Represents(m, 1)
  {
    forall n | 0 <= n < 64
      ensures m[n] == ZeroBits(Shl(1, n), 1)
    {
      hide ZeroBit, UpBit, Top;
      assert ZeroBits(Shl(1, n), 1) == ZeroBits(ZeroBit(Shl(1, n)), 0);
      if n == 0 {
        ZeroBitOfOne();
      } else {
        ShlKeepsBit(n - 1);
        ZeroBitOfUp(Shl(1, n - 1));
      }
    }
  }

  // ---------------------------------------------------------------- the combine cache

  class CombineCache {
    const rows: seq<array<bv64>>

    ghost predicate Shape() {
      && |rows| == 64
      && (forall k | 0 <= k < 64 :: rows[k].Length == 64)
      && (forall i, j | 0 <= i < j < 64 :: rows[i] != rows[j])
    }

    /** Row k holds the operator for 2^k zero bytes. */
    ghost predicate RowsReady(count: nat)
      requires Shape() && count <= 64
      reads rows
    {
      forall k | 0 <= k < count :: Represents(rows[k][..], 8 * Pow2(k))
    }

    /** A first word of zero marks a cache that was never filled. */
    ghost predicate Usable()
      reads rows
    {
      Shape() && (rows[0][0] != 0 ==> RowsReady(64))
    }

    constructor (storage: seq<array<bv64>>)
      requires |storage| == 64
      requires forall k | 0 <= k < 64 :: storage[k].Length == 64
      requires forall i, j | 0 <= i < j < 64 :: storage[i] != storage[j]
      requires storage[0][0] == 0
      ensures Usable() && rows == storage
    {
      rows := storage;
    }

    /** init_combine_cache for the reversed polynomial and dimension 64. */
    method Init()
      requires Shape()
      modifies rows
      ensures RowsReady(64)
    {
      hide Represents;
      FirstRow();
      Square(rows[0], rows[1], 1);
      Square(rows[1], rows[0], 2);
      Square(rows[0], rows[1], 4);
      assert Pow2(0) == 1;
      var n := 1;
      while n < 64
        invariant 1 <= n <= 64
        invariant RowsReady(n)
      {
        Square(rows[n], rows[n - 1], 8 * Pow2(n - 1));
        n := n + 1;
      }
    }

    method FirstRow()
      requires Shape()
      modifies rows[1]
      ensures Represents(rows[1][..], 1)
    {
      hide UpBit, Represents;
      var first := rows[1];
      first[0] := REVERSED_POLY;
      var row: bv64 := 1;
      assert Shl(1, 0) == 1;
      for n := 1 to 64
        invariant row == Shl(1, n - 1)
        invariant first[0] == REVERSED_POLY
        invariant forall i | 1 <= i < n :: first[i] == Shl(1, i - 1)
      {
        first[n] := row;
        row := UpBit(row);
      }
      OneBitMatrix(first[..]);
    }

    /** crc64_combine: push crc1 through len2 zero bytes, then add crc2. */
    method Combine(crc1: bv64, crc2: bv64, length: nat) returns (r: bv64)
      requires Usable() && length < SIZE_LIMIT
      modifies rows
      ensures Usable()
      ensures length > 0 ==> r == Xor(ZeroBits(crc1, 8 * length), crc2)
      ensures length == 0 ==> r == crc1
    {
      if length == 0 {
        return crc1;
      }
      if rows[0][0] == 0 {
        Init();
      }
      var crc := PushZeros(crc1, length);
      r := Xor(crc, crc2);
    }

    /** The loop of crc64_combine: one matrix product for every set bit of the length. */
    method PushZeros(crc1: bv64, length: nat) returns (crc: bv64)
      requires Shape() && RowsReady(64)
      requires 0 < length < SIZE_LIMIT
      ensures crc == ZeroBits(crc1, 8 * length)
    {
      hide Times, ZeroBits, Represents, Bits, Pow2, Xor;
      crc := crc1;
      var len2, num := length, 0;
      Pow2Of64();
      ghost var weight := 8;
      AllBits(length);
      DoublePow2(0);
      while true
        invariant 0 <= num < 64 && 0 < len2 < Pow2(64 - num)
        invariant weight == 8 * Pow2(num)
        invariant ZeroBits(crc, Bits(len2, weight)) == ZeroBits(crc1, 8 * length)
        decreases len2
      {
        HalveLength(crc, len2, weight);
        DoublePow2(num);
        DoublePow2(63 - num);
        if len2 % 2 == 1 {
          assert Represents(rows[num][..], weight);
          TimesApplies(rows[num][..], weight, crc);
          crc := TimesSwitch(rows[num], crc);
        }
        len2 := len2 / 2;
        if len2 == 0 {
          NoBitsLeft(crc, 2 * weight);
          return;
        }
        assert num < 63;
        num := (num + 1) % 64;
        weight := 2 * weight;
      }
    }
  }

  lemma DoublePow2(n: nat)
    ensures Pow2(0) == 1 && Pow2(n + 1) == 2 * Pow2(n)
  {
  }

  /** The zero bits of len units of the given weight. */
  function Bits(len: nat, weight: nat): nat {
    len * weight
  }

  lemma AllBits(length: nat)
    ensures Bits(length, 8) == 8 * length
  {
  }

  lemma HalveLength(crc: bv64, len: nat, weight: nat)
    ensures len % 2 == 0 ==> ZeroBits(crc, Bits(len, weight)) == ZeroBits(crc, Bits(len / 2, 2 * weight))
    ensures len % 2 == 1 ==>
              ZeroBits(crc, Bits(len, weight)) == ZeroBits(ZeroBits(crc, weight), Bits(len / 2, 2 * weight))
  {
    hide ZeroBits;
    var half := len / 2;
    if len % 2 == 1 {
      assert len * weight == (2 * half + 1) * weight == weight + half * (2 * weight);
      ZeroBitsAdd(crc, weight, half * (2 * weight));
    } else {
      assert len * weight == (2 * half) * weight == half * (2 * weight);
    }
  }

  lemma NoBitsLeft(crc: bv64, weight: nat)
    ensures ZeroBits(crc, Bits(0, weight)) == crc
  {
  }

  // ---------------------------------------------------------------- crcspeed64little

  /** CRC64_SPLIT: the share of one stream, masked to a multiple of eight. */
  function Stride(len: nat, streams: nat): (r: nat)
    requires streams > 0
    ensures r % 8 == 0 && r * streams <= len
  {
    var share := (len / streams) % 0x8000_0000_0000_0000;
    assert share <= len / streams;
    share / 8 * 8
  }

  /** Eight more bytes of a stream that starts at a. */
  lemma StreamStep(c: bv64, buf: seq<Byte>, a: nat, k: nat)
    requires a + k + 8 <= |buf|
    ensures Fold(c, buf[a..a + k + 8]) == Fold(Fold(c, buf[a..a + k]), buf[a + k..a + k + 8])
  {
    hide Fold;
    assert buf[a..a + k + 8] == buf[a..a + k] + buf[a + k..a + k + 8];
    FoldConcat(c, buf[a..a + k], buf[a + k..a + k + 8]);
  }

  /** Folding bytes a..b and then b..e is folding a..e. */
  lemma Resume(c: bv64, buf: seq<Byte>, a: nat, b: nat, e: nat)
    requires a <= b <= e <= |buf|
    ensures Fold(Fold(c, buf[a..b]), buf[b..e]) == Fold(c, buf[a..e])
  {
    hide Fold;
    assert buf[a..e] == buf[a..b] + buf[b..e];
    FoldConcat(c, buf[a..b], buf[b..e]);
  }

  /** What merging two neighbouring streams gives. */
  lemma MergeStreams(c: bv64, buf: seq<Byte>, a: nat, b: nat, e: nat)
    requires a <= b <= e <= |buf|
    ensures Fold(c, buf[a..e]) == Xor(ZeroBits(Fold(c, buf[a..b]), 8 * (e - b)), Fold(0, buf[b..e]))
    ensures b == e ==> Fold(c, buf[a..e]) == Fold(c, buf[a..b])
  {
    hide Fold;
    assert buf[a..e] == buf[a..b] + buf[b..e];
    MergeBlocks(c, buf[a..b], buf[b..e]);
  }

  /** The byte loops of crcspeed64little, from position a for count bytes. */
  method FoldBytes(table: array2<bv64>, crc: bv64, buf: seq<Byte>, a: nat, count: nat) returns (r: bv64)
    requires Crc64.TablesReady(table)
    requires a + count <= |buf|
    ensures r == Fold(crc, buf[a..a + count])
  {
    hide Crc64.TablesReady, ZeroBits, Xor, Widen;
    r := crc;
    var next1 := a;
    while next1 < a + count
      invariant a <= next1 <= a + count
      invariant Fold(r, buf[next1..a + count]) == Fold(crc, buf[a..a + count])
    {
      assert buf[next1..a + count][1..] == buf[next1 + 1..a + count];
      r := Crc64.StepByte(table, r, buf[next1]);
      next1 := next1 + 1;
    }
  }

  /** The three-stream loop: stride bytes from each of three neighbouring segments. */
  method RunThree(table: array2<bv64>, crc: bv64, buf: seq<Byte>, a: nat, stride: nat)
    returns (crc1: bv64, crc2: bv64, crc3: bv64)
    requires Crc64.TablesReady(table)
    requires stride % 8 == 0 && a + 3 * stride <= |buf|
    ensures crc1 == Fold(crc, buf[a..a + stride])
    ensures crc2 == Fold(0, buf[a + stride..a + 2 * stride])
    ensures crc3 == Fold(0, buf[a + 2 * stride..a + 3 * stride])
  {
    hide Fold, Crc64.TablesReady;
    crc1, crc2, crc3 := crc, 0, 0;
    var b, c := a + stride, a + 2 * stride;
    var next1, next2, next3 := a, b, c;
    var len := stride;
    ghost var k := 0;
    EmptyStreams(crc, buf, a, b, c);
    while len >= 8
      invariant 0 <= k <= stride && k % 8 == 0 && len == stride - k
      invariant next1 == a + k && next2 == b + k && next3 == c + k
      invariant crc1 == Fold(crc, buf[a..a + k])
      invariant crc2 == Fold(0, buf[b..b + k])
      invariant crc3 == Fold(0, buf[c..c + k])
    {
      len := len - 8;
      StreamStep(crc, buf, a, k);
      StreamStep(0, buf, b, k);
      StreamStep(0, buf, c, k);
      crc1 := Crc64.StepWord(table, crc1, buf[next1..next1 + 8]);
      crc2 := Crc64.StepWord(table, crc2, buf[next2..next2 + 8]);
      crc3 := Crc64.StepWord(table, crc3, buf[next3..next3 + 8]);
      next1, next2, next3 := next1 + 8, next2 + 8, next3 + 8;
      k := k + 8;
    }
  }

  /** Three streams of stride bytes each, merged; buf is read from a on. */
  method FoldThree(table: array2<bv64>, cache: CombineCache, crc: bv64, buf: seq<Byte>, a: nat, stride: nat)
    returns (r: bv64)
    requires Crc64.TablesReady(table) && cache.Usable()
    requires stride % 8 == 0 && a + 3 * stride <= |buf| < SIZE_LIMIT
    modifies cache.rows
    ensures cache.Usable() && Crc64.TablesReady(table)
    ensures r == Fold(crc, buf[a..a + 3 * stride])
  {
    hide ZeroBits, Xor, Fold, Represents, Crc64.Entry;
    var crc1, crc2, crc3 := RunThree(table, crc, buf, a, stride);
    MergeStreams(crc, buf, a, a + stride, a + 2 * stride);
    crc1 := cache.Combine(crc1, crc2, stride);
    MergeStreams(crc, buf, a, a + 2 * stride, a + 3 * stride);
    r := cache.Combine(crc1, crc3, stride);
  }

  lemma EmptyStreams(crc: bv64, buf: seq<Byte>, a: nat, b: nat, c: nat)
    requires a <= b <= c <= |buf|
    ensures Fold(crc, buf[a..a]) == crc && Fold(0, buf[b..b]) == 0 && Fold(0, buf[c..c]) == 0
  {
  }

  /** Two streams of stride bytes each, merged. */
  method FoldTwo(table: array2<bv64>, cache: CombineCache, crc: bv64, buf: seq<Byte>, a: nat, stride: nat)
    returns (r: bv64)
    requires Crc64.TablesReady(table) && cache.Usable()
    requires stride % 8 == 0 && a + 2 * stride <= |buf| < SIZE_LIMIT
    modifies cache.rows
    ensures cache.Usable() && Crc64.TablesReady(table)
    ensures r == Fold(crc, buf[a..a + 2 * stride])
  {
    hide ZeroBits, Xor, Fold, Represents, Crc64.Entry;
    var crc1, crc2: bv64 := crc, 0;
    var next1, next2 := a, a + stride;
    var len := stride;
    ghost var k := 0;
    EmptyStreams(crc, buf, a, a + stride, a + stride);
    while len >= 8
      invariant 0 <= k <= stride && k % 8 == 0 && len == stride - k
      invariant next1 == a + k && next2 == a + stride + k
      invariant Crc64.TablesReady(table) && cache.Usable()
      invariant crc1 == Fold(crc, buf[a..a + k])
      invariant crc2 == Fold(0, buf[a + stride..a + stride + k])
    {
      len := len - 8;
      StreamStep(crc, buf, a, k);
      StreamStep(0, buf, a + stride, k);
      crc1 := Crc64.StepWord(table, crc1, buf[next1..next1 + 8]);
      crc2 := Crc64.StepWord(table, crc2, buf[next2..next2 + 8]);
      next1, next2 := next1 + 8, next2 + 8;
      k := k + 8;
    }
    MergeStreams(crc, buf, a, a + stride, a + 2 * stride);
    r := cache.Combine(crc1, crc2, next2 - next1);
  }

  /**
    crcspeed64little, for any starting register, any alignment of the buffer and any cutoffs:
    the result is the byte-at-a-time fold.
  */
  method Crcspeed64Little(table: array2<bv64>, cache: CombineCache, crc: bv64, buf: seq<Byte>,
                          address: nat, dualCutoff: nat, triCutoff: nat)
    returns (r: bv64)
    requires Crc64.TablesReady(table) && cache.Usable()
    requires |buf| < SIZE_LIMIT
    modifies cache.rows
    ensures cache.Usable() && Crc64.TablesReady(table)
    ensures r == Fold(crc, buf)
  {
    hide ZeroBits, Xor, Fold, Represents, Crc64.Entry;
    var crc1 := crc;
    var next1, len := 0, |buf|;
    assert buf[0..|buf|] == buf;
    EmptyStreams(crc, buf, 0, 0, 0);
    if dualCutoff >= 1 {
      // single bytes up to an aligned address
      var head := (8 - address % 8) % 8;
      head := if head <= len then head else len;
      crc1 := FoldBytes(table, crc1, buf, 0, head);
      next1, len := head, len - head;

      var streams := if len > triCutoff then 3 else if len > dualCutoff then 2 else 1;
      if streams == 3 {
        var stride := Stride(len, 3);
        Resume(crc, buf, 0, next1, next1 + 3 * stride);
        crc1 := FoldThree(table, cache, crc1, buf, next1, stride);
        next1, len := next1 + 3 * stride, len - 3 * stride;
      } else if streams == 2 {
        var stride := Stride(len, 2);
        Resume(crc, buf, 0, next1, next1 + 2 * stride);
        crc1 := FoldTwo(table, cache, crc1, buf, next1, stride);
        next1, len := next1 + 2 * stride, len - 2 * stride;
      }
      while len >= 8
        invariant 0 <= next1 && len == |buf| - next1 && len >= 0
        invariant crc1 == Fold(crc, buf[0..next1])
        invariant Crc64.TablesReady(table) && cache.Usable()
      {
        Resume(crc, buf, 0, next1, next1 + 8);
        crc1 := Crc64.StepWord(table, crc1, buf[next1..next1 + 8]);
        next1, len := next1 + 8, len - 8;
      }
    }
    Resume(crc, buf, 0, next1, |buf|);
    r := FoldBytes(table, crc1, buf, next1, len);
  }

  /** From a zero register the fast form returns what the bit-by-bit routine returns. */
  lemma FastEqualsBitByBit(buf: seq<Byte>)
    ensures Fold(0, buf) == Reflect(BitFold(0, buf))
  {
    hide Reflect, Fold, BitFold;
    ReflectConstants();
    BitFoldIsFold(0, buf);
  }
}
