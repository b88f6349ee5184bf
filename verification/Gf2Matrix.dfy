/**
  Matrices over GF(2) as src/crc/crc64.c keeps them: 64 words, word n being the image of the
  basis vector with only bit n set. A matrix whose words are the images under ZeroBits(_, n)
  multiplies like that operator, and squaring it doubles n.
*/
module Gf2Matrix {
  import opened Crc64Algebra

  /** The image of v << k under the words of m from word k on, bit by bit. */
  function Times(m: seq<bv64>, k: nat, v: bv64): bv64
    requires |m| == 64 && k <= 64
    decreases 64 - k
  {
    if k == 64 then 0
    else Xor(Select(m[k], Odd(v)), Times(m, k + 1, DownBit(v)))
  }

  function Select(x: bv64, on: bool): bv64 {
    if on then x else 0
  }

  function Shl(v: bv64, k: nat): bv64 {
    if k == 0 then v else UpBit(Shl(v, k - 1))
  }

  /** m is the matrix of ZeroBits(_, bits). */
  ghost predicate Represents(m: seq<bv64>, bits: nat) {
    |m| == 64 && forall n | 0 <= n < 64 :: m[n] == ZeroBits(Shl(1, n), bits)
  }

  // ---------------------------------------------------------------- shifts

  lemma {:induction false} ShlOfUp(v: bv64, k: nat)
    ensures Shl(UpBit(v), k) == Shl(v, k + 1)
  {
    hide UpBit;
    if k > 0 {
      ShlOfUp(v, k - 1);
    }
  }

  lemma UpBitXor(a: bv64, b: bv64)
    ensures UpBit(Xor(a, b)) == Xor(UpBit(a), UpBit(b))
  {
  }

  lemma {:induction false} ShlXor(a: bv64, b: bv64, k: nat)
    ensures Shl(Xor(a, b), k) == Xor(Shl(a, k), Shl(b, k))
  {
    hide Xor, UpBit;
    if k > 0 {
      ShlXor(a, b, k - 1);
      UpBitXor(Shl(a, k - 1), Shl(b, k - 1));
    }
  }

  lemma {:induction false} ShlAdd(v: bv64, m: nat, n: nat)
    ensures Shl(v, m + n) == Shl(Shl(v, m), n)
  {
    hide UpBit;
    if n > 0 {
      ShlAdd(v, m, n - 1);
    }
  }

  function UpNibble(v: bv64): bv64 {
    v << 4
  }

  lemma ShlNibble(v: bv64)
    ensures Shl(v, 4) == UpNibble(v)
  {
    hide UpNibble, UpBit;
    assert Shl(v, 1) == UpBit(v);
    assert Shl(v, 2) == UpBit(UpBit(v));
    assert Shl(v, 3) == UpBit(UpBit(UpBit(v)));
    FourUps(v);
  }

  lemma FourUps(v: bv64)
    ensures UpBit(UpBit(UpBit(UpBit(v)))) == UpNibble(v)
  {
  }

  function UpWord(v: bv64): bv64 {
    v << 16
  }

  lemma FourNibblesUp(v: bv64)
    ensures UpNibble(UpNibble(UpNibble(UpNibble(v)))) == UpWord(v)
  {
  }

  lemma FourWordsUp(v: bv64)
    ensures UpWord(UpWord(UpWord(UpWord(v)))) == 0
  {
  }

  lemma ShlWord(v: bv64)
    ensures Shl(v, 16) == UpWord(v)
  {
    hide Shl, UpNibble, UpWord;
    var v1 := UpNibble(v);
    var v2 := UpNibble(v1);
    var v3 := UpNibble(v2);
    ShlNibble(v);
    ShlNibble(v1);
    ShlNibble(v2);
    ShlNibble(v3);
    ShlAdd(v, 4, 4);
    ShlAdd(v, 8, 4);
    ShlAdd(v, 12, 4);
    FourNibblesUp(v);
  }

  /** Sixty-four shifts lose every bit. */
  lemma ShlAll(v: bv64)
    ensures Shl(v, 64) == 0
  {
    hide Shl, UpWord;
    var v1 := UpWord(v);
    var v2 := UpWord(v1);
    var v3 := UpWord(v2);
    ShlWord(v);
    ShlWord(v1);
    ShlWord(v2);
    ShlWord(v3);
    ShlAdd(v, 16, 16);
    ShlAdd(v, 32, 16);
    ShlAdd(v, 48, 16);
    FourWordsUp(v);
  }

  // ---------------------------------------------------------------- multiplication

  lemma SplitLowest(v: bv64)
    ensures v == Xor(Select(1, Odd(v)), UpBit(DownBit(v)))
  {
  }

  lemma {:induction false} ShlOfZero(k: nat)
    ensures Shl(0, k) == 0
  {
    if k > 0 {
      ShlOfZero(k - 1);
    }
  }

  lemma {:induction false} TimesFrom(m: seq<bv64>, bits: nat, k: nat, v: bv64)
    requires Represents(m, bits) && k <= 64
    ensures Times(m, k, v) == ZeroBits(Shl(v, k), bits)
    decreases 64 - k
  {
    hide Xor, UpBit, DownBit, Odd, ZeroBits, Shl;
    if k == 64 {
      ShlAll(v);
      ZeroBitsOfZero(bits);
    } else {
      var bit := Select(1, Odd(v));
      SplitLowest(v);
      ShlXor(bit, UpBit(DownBit(v)), k);
      ShlOfUp(DownBit(v), k);
      ShlOfZero(k);
      ZeroBitsOfZero(bits);
      ZeroBitsLinear(Shl(bit, k), Shl(DownBit(v), k + 1), bits);
      TimesFrom(m, bits, k + 1, DownBit(v));
    }
  }

  /** Multiplying by the matrix of an operator applies the operator. */
  lemma TimesApplies(m: seq<bv64>, bits: nat, v: bv64)
    requires Represents(m, bits)
    ensures Times(m, 0, v) == ZeroBits(v, bits)
  {
    TimesFrom(m, bits, 0, v);
    assert Shl(v, 0) == v;
  }

  lemma {:induction false} TimesOfZero(m: seq<bv64>, k: nat)
    requires |m| == 64 && k <= 64
    ensures Times(m, k, 0) == 0
    decreases 64 - k
  {
    if k < 64 {
      assert DownBit(0) == 0 && !Odd(0);
      TimesOfZero(m, k + 1);
      XorUnits(0);
    }
  }

  // ---------------------------------------------------------------- four bits at a time

  function Nibble(v: bv64): bv64 {
    v & 15
  }

  function DownNibble(v: bv64): bv64 {
    v >> 4
  }

  /** The sixteen cases of gf2_matrix_times_switch. */
  function NibbleSum(a: bv64, b: bv64, c: bv64, d: bv64, nibble: bv64): bv64 {
    if nibble == 15 then Xor(a, Xor(b, Xor(c, d)))
    else if nibble == 14 then Xor(b, Xor(c, d))
    else if nibble == 13 then Xor(a, Xor(c, d))
    else if nibble == 12 then Xor(c, d)
    else if nibble == 11 then Xor(a, Xor(b, d))
    else if nibble == 10 then Xor(b, d)
    else if nibble == 9 then Xor(a, d)
    else if nibble == 8 then d
    else if nibble == 7 then Xor(a, Xor(b, c))
    else if nibble == 6 then Xor(b, c)
    else if nibble == 5 then Xor(a, c)
    else if nibble == 4 then c
    else if nibble == 3 then Xor(a, b)
    else if nibble == 2 then b
    else if nibble == 1 then a
    else 0
  }

  function Weigh(b0: bool, b1: bool, b2: bool, b3: bool): bv64 {
    (if b0 then 1 else 0) + (if b1 then 2 else 0) + (if b2 then 4 else 0) + (if b3 then 8 else 0)
  }

  lemma NibbleBits(v: bv64)
    ensures Nibble(v) == Weigh(Odd(v), Odd(DownBit(v)), Odd(DownBit(DownBit(v))),
                               Odd(DownBit(DownBit(DownBit(v)))))
    ensures DownBit(DownBit(DownBit(DownBit(v)))) == DownNibble(v)
  {
  }

  /** The weights as numbers. */
  lemma WeighIs(b0: bool, b1: bool, b2: bool, b3: bool)
    ensures Weigh(b0, b1, b2, b3)
         == if b3 then
              if b2 then if b1 then if b0 then 15 else 14 else if b0 then 13 else 12
              else if b1 then if b0 then 11 else 10 else if b0 then 9 else 8
            else
              if b2 then if b1 then if b0 then 7 else 6 else if b0 then 5 else 4
              else if b1 then if b0 then 3 else 2 else if b0 then 1 else 0
  {
  }

  lemma SelectTwo(b: bv64, c: bv64, b1: bool, b2: bool)
    ensures Xor(Select(b, b1), Select(c, b2))
         == if b1 then if b2 then Xor(b, c) else b else if b2 then c else 0
  {
    hide Xor;
    XorUnits(b);
    XorUnits(Select(c, b2));
  }

  lemma NibbleSumLow(a: bv64, b: bv64, c: bv64, d: bv64, b0: bool, b1: bool, b2: bool)
    ensures NibbleSum(a, b, c, d, Weigh(b0, b1, b2, false))
         == Xor(Select(a, b0), Xor(Select(b, b1), Select(c, b2)))
  {
    hide Xor, Weigh;
    WeighIs(b0, b1, b2, false);
    SelectTwo(b, c, b1, b2);
    if b0 {
      XorUnits(a);
    } else {
      XorUnits(Xor(Select(b, b1), Select(c, b2)));
    }
  }

  lemma NibbleSumHigh(a: bv64, b: bv64, c: bv64, d: bv64, b0: bool, b1: bool, b2: bool)
    ensures NibbleSum(a, b, c, d, Weigh(b0, b1, b2, true))
         == Xor(Select(a, b0), Xor(Select(b, b1), Xor(Select(c, b2), d)))
  {
    hide Xor, Weigh;
    WeighIs(b0, b1, b2, true);
    if !b2 {
      XorUnits(d);
    }
    if !b1 {
      XorUnits(Xor(Select(c, b2), d));
    }
    if !b0 {
      XorUnits(Xor(Select(b, b1), Xor(Select(c, b2), d)));
    }
  }

  lemma NibbleSumSelects(a: bv64, b: bv64, c: bv64, d: bv64, b0: bool, b1: bool, b2: bool, b3: bool)
    ensures NibbleSum(a, b, c, d, Weigh(b0, b1, b2, b3))
         == Xor(Select(a, b0), Xor(Select(b, b1), Xor(Select(c, b2), Select(d, b3))))
  {
    hide NibbleSum, Weigh, Xor;
    if b3 {
      NibbleSumHigh(a, b, c, d, b0, b1, b2);
    } else {
      NibbleSumLow(a, b, c, d, b0, b1, b2);
      XorUnits(Select(c, b2));
    }
  }

  /** One turn of the loop: four words of the matrix, four bits of the vector. */
  lemma TimesNibble(m: seq<bv64>, k: nat, v: bv64)
    requires |m| == 64 && k + 4 <= 64
    ensures Times(m, k, v)
         == Xor(NibbleSum(m[k], m[k + 1], m[k + 2], m[k + 3], Nibble(v)), Times(m, k + 4, DownNibble(v)))
  {
    hide Xor, Odd, DownBit, DownNibble, Nibble, NibbleSum, Weigh, Select;
    var v1 := DownBit(v);
    var v2 := DownBit(v1);
    var v3 := DownBit(v2);
    NibbleBits(v);
    NibbleSumSelects(m[k], m[k + 1], m[k + 2], m[k + 3], Odd(v), Odd(v1), Odd(v2), Odd(v3));
    var s0, s1, s2, s3 := Select(m[k], Odd(v)), Select(m[k + 1], Odd(v1)),
                          Select(m[k + 2], Odd(v2)), Select(m[k + 3], Odd(v3));
    var t := Times(m, k + 4, DownNibble(v));
    assert Times(m, k + 2, v2) == Xor(s2, Xor(s3, t));
    assert Times(m, k, v) == Xor(s0, Xor(s1, Xor(s2, Xor(s3, t))));
    XorAssociative(s2, s3, t);
    XorAssociative(s1, Xor(s2, s3), t);
    XorAssociative(s0, Xor(s1, Xor(s2, s3)), t);
  }

  /** v after j shifts by a nibble; sixteen of them leave nothing. */
  function Drop(v: bv64, j: nat): bv64 {
    if j == 0 then v else DownNibble(Drop(v, j - 1))
  }

  function DownWord(v: bv64): bv64 {
    v >> 16
  }

  lemma FourNibblesDown(v: bv64)
    ensures DownNibble(DownNibble(DownNibble(DownNibble(v)))) == DownWord(v)
  {
  }

  lemma FourWordsDown(v: bv64)
    ensures DownWord(DownWord(DownWord(DownWord(v)))) == 0
  {
  }

  lemma DropWord(v: bv64, j: nat)
    ensures Drop(v, j + 4) == DownWord(Drop(v, j))
  {
    hide DownNibble, DownWord;
    FourNibblesDown(Drop(v, j));
    assert Drop(v, j + 2) == DownNibble(DownNibble(Drop(v, j)));
  }

  lemma DropAll(v: bv64)
    ensures Drop(v, 16) == 0
  {
    hide DownNibble, DownWord;
    assert Drop(v, 0) == v;
    DropWord(v, 0);
    DropWord(v, 4);
    DropWord(v, 8);
    DropWord(v, 12);
    FourWordsDown(v);
  }

  /** gf2_matrix_times_switch: the loop ends when no bit of the vector is left. */
  method TimesSwitch(mat: array<bv64>, vector: bv64) returns (sum: bv64)
    requires mat.Length == 64
    ensures sum == Times(mat[..], 0, vector)
  {
    hide Xor, Drop, NibbleSum, Nibble, DownNibble, Times;
    sum := 0;
    var vec := vector;
    var k := 0;
    DropNone(vector);
    XorUnits(Times(mat[..], 0, vector));
    while vec != 0
      invariant 0 <= k <= 16
      invariant vec == Drop(vector, k)
      invariant Xor(sum, Times(mat[..], 4 * k, vec)) == Times(mat[..], 0, vector)
      decreases 16 - k
    {
      DropAll(vector);
      var at := 4 * k;
      var part := NibbleSum(mat[at], mat[at + 1], mat[at + 2], mat[at + 3], Nibble(vec));
      TimesNibble(mat[..], at, vec);
      XorAssociative(sum, part, Times(mat[..], at + 4, DownNibble(vec)));
      sum := Xor(sum, part);
      DropMore(vector, k);
      vec := DownNibble(vec);
      k := k + 1;
    }
    TimesOfZero(mat[..], 4 * k);
    XorUnits(sum);
  }

  lemma DropNone(v: bv64)
    ensures Drop(v, 0) == v
  {
  }

  lemma DropMore(v: bv64, k: nat)
    ensures Drop(v, k + 1) == DownNibble(Drop(v, k))
  {
  }

  /** gf2_matrix_square: the square of the matrix for n zero bits is the matrix for 2n. */
  method Square(square: array<bv64>, mat: array<bv64>, ghost bits: nat)
    requires square.Length == mat.Length == 64 && square != mat
    requires Represents(mat[..], bits)
    modifies square
    ensures Represents(square[..], 2 * bits)
  {
    hide Times, ZeroBits, Shl;
    for n := 0 to 64
      invariant mat[..] == old(mat[..])
      invariant forall i | 0 <= i < n :: square[i] == ZeroBits(Shl(1, i), 2 * bits)
    {
      var word := TimesSwitch(mat, mat[n]);
      TimesApplies(mat[..], bits, mat[n]);
      assert mat[..][n] == mat[n];
      ZeroBitsAdd(Shl(1, n), bits, bits);
      square[n] := word;
    }
  }
}
