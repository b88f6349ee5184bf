/**
  The listpack format of src/listpack/listpack.c by its bytes alone, with nothing said about how they
  are written or read: every encoding, back length and header as numbers.

    0xxxxxxx  7-bit unsigned         11110001  16-bit     10LLLLLL            L bytes
    110xxxxx xxxxxxxx  13-bit        11110010  24-bit     1110LLLL LLLLLLLL   L bytes
                                     11110011  32-bit     11110000 L (4)      L bytes
                                     11110100  64-bit
*/
module ListpackBytes {
  import opened Bytes
  import opened ListpackNumber
  import opened ListpackFormat
  import opened Listpack

  /** A number of n bytes, the low one first. */
  ghost function Number(s: seq<Byte>): int
    requires |s| in {2, 3, 4, 8}
  {
    var low := s[0] as int + 0x100 * s[1] as int;
    if |s| == 2 then low
    else if |s| == 3 then low + 0x1_0000 * s[2] as int
    else if |s| == 4 then low + 0x1_0000 * s[2] as int + 0x100_0000 * s[3] as int
    else
      low + 0x1_0000 * s[2] as int + 0x100_0000 * s[3] as int + 0x1_0000_0000 * s[4] as int
      + 0x100_0000_0000 * s[5] as int + 0x1_0000_0000_0000 * s[6] as int + 0x100_0000_0000_0000 * s[7] as int
  }

  /** Two's complement: u stands for v in a field whose numbers go from -half to half - 1. */
  ghost predicate Complement(u: int, v: int, half: int) {
    if v >= 0 then u == v < half else u == v + 2 * half && v >= -half
  }

  /** The bytes of an entry, without its back length, that stand for the value. */
  ghost predicate Means(b: seq<Byte>, x: Value) {
    && b != []
    && var tag: int := b[0];
       match x
       case Int(v) =>
         || (0 <= v <= 127 && b == [v])
         || (0xc0 <= tag <= 0xdf && |b| == 2 && Complement(0x100 * (tag - 0xc0) + b[1] as int, v, 0x1000))
         || (tag == 0xf1 && |b| == 3 && Complement(Number(b[1..]), v, 0x8000))
         || (tag == 0xf2 && |b| == 4 && Complement(Number(b[1..]), v, 0x80_0000))
         || (tag == 0xf3 && |b| == 5 && Complement(Number(b[1..]), v, 0x8000_0000))
         || (tag == 0xf4 && |b| == 9 && Complement(Number(b[1..]), v, 0x8000_0000_0000_0000))
       case Str(s) =>
         || (|s| < 0x40 && b == [0x80 + |s|] + s)
         || (|s| < 0x1000 && b == [0xe0 + |s| / 0x100, |s| % 0x100] + s)
         || (tag == 0xf0 && |b| >= 5 && Number(b[1..5]) == |s| && b[5..] == s)
  }

  // ---------------------------------------------------------------- numbers

  lemma LittleNumber(s: seq<Byte>)
    requires |s| in {2, 3, 4, 8}
    ensures FromLittle(s) == Number(s)
  {
    Peel(s, 0);
    Peel(s, 1);
    assert s[0..] == s;
    if |s| > 2 {
      Peel(s, 2);
    }
    if |s| > 3 {
      Peel(s, 3);
    }
    if |s| == 8 {
      Peel(s, 4);
      Peel(s, 5);
      Peel(s, 6);
      Peel(s, 7);
    }
  }

  lemma Peel(s: seq<Byte>, i: nat)
    requires i < |s|
    ensures FromLittle(s[i..]) == s[i] as int + 256 * FromLittle(s[i + 1..])
    ensures i + 1 == |s| ==> FromLittle(s[i + 1..]) == 0
  {
    assert s[i..][0] == s[i] && s[i..][1..] == s[i + 1..];
  }

  lemma SignedComplement(u: nat, v: int, half: nat)
    requires u < 2 * half
    ensures Signed(u, half, 2 * half - 1) == v <==> Complement(u, v, half)
  {
  }

  lemma {:induction false} LittleBound(s: seq<Byte>)
    ensures FromLittle(s) < Pow256(|s|)
    decreases |s|
  {
    if s != [] {
      LittleBound(s[1..]);
    }
  }

  // ---------------------------------------------------------------- reading

  /** The reader accepts exactly these bytes, and reads exactly this value. */
  lemma GetMeans(b: seq<Byte>, x: Value)
    ensures (BodyOk(b) && Get(b) == x) <==> Means(b, x)
  {
    hide FromLittle, Number, Complement, Signed, Pow256;
    if b != [] {
      if 0xf1 <= b[0] <= 0xf4 {
        WideMeans(b, x);
      } else if 0x80 <= b[0] < 0xc0 || 0xe0 <= b[0] <= 0xf0 {
        StringMeans(b, x);
      } else if 0xc0 <= b[0] < 0xe0 && |b| == 2 && x.Int? {
        SignedComplement((b[0] as int - 0xc0) * 256 + b[1] as int, x.v, 4096);
      }
    }
  }

  lemma StringMeans(b: seq<Byte>, x: Value)
    requires b != [] && (0x80 <= b[0] < 0xc0 || 0xe0 <= b[0] <= 0xf0)
    ensures (BodyOk(b) && Get(b) == x) <==> Means(b, x)
  {
    hide FromLittle, Number, Complement, Signed, Pow256;
    var n := CodeBytes(b[0]);
    if |b| >= n && x.Str? {
      if n == 5 {
        LittleNumber(b[1..5]);
        assert b[5..|b|] == b[5..];
      } else {
        assert b == b[..n] + b[n..];
        assert b[n..|b|] == b[n..];
        if b[..n] + x.s == b {
          assert b[n..] == x.s;
        }
      }
    }
  }

  lemma WideMeans(b: seq<Byte>, x: Value)
    requires b != [] && 0xf1 <= b[0] <= 0xf4
    ensures (BodyOk(b) && Get(b) == x) <==> Means(b, x)
  {
    hide FromLittle, Number, Complement, Signed, Pow256;
    var k := IntSize(b[0]);
    if |b| == k && x.Int? {
      var rest := b[1..];
      assert b[1..k] == rest;
      Powers256();
      LittleBound(rest);
      LittleNumber(rest);
      SignedComplement(FromLittle(rest), x.v, Pow256(k - 1) / 2);
    }
  }

  // ---------------------------------------------------------------- writing

  /** The encoding of an integer is the only one of its length, and none is shorter. */
  lemma IntLeast(v: int, b: seq<Byte>)
    requires Int64(v) && Means(b, Int(v))
    ensures Means(EncodeInt(v), Int(v)) && |EncodeInt(v)| <= |b| && (|b| == |EncodeInt(v)| ==> b == EncodeInt(v))
  {
    hide BodyOk, Get, Means, EncodeInt;
    IntBody(v);
    GetMeans(EncodeInt(v), Int(v));
    IntWidth(v);
    MeansWidth(b, v);
    if |b| == |EncodeInt(v)| {
      MeansOne(b, EncodeInt(v), v);
    }
  }

  /** The widths with their exact ranges. */
  lemma IntWidth(v: int)
    requires Int64(v)
    ensures |EncodeInt(v)| == if 0 <= v <= 127 then 1 else if -4096 <= v <= 4095 then 2 else if -32768 <= v <= 32767 then 3
                              else if -8388608 <= v <= 8388607 then 4 else if -2147483648 <= v <= 2147483647 then 5 else 9
    ensures var tag: int := EncodeInt(v)[0];
            && (|EncodeInt(v)| == 1 ==> tag == v) && (|EncodeInt(v)| == 2 ==> 0xc0 <= tag <= 0xdf)
            && (|EncodeInt(v)| == 3 ==> tag == 0xf1) && (|EncodeInt(v)| == 4 ==> tag == 0xf2)
            && (|EncodeInt(v)| == 5 ==> tag == 0xf3) && (|EncodeInt(v)| == 9 ==> tag == 0xf4)
  {
    hide Little;
  }

  lemma MeansWidth(b: seq<Byte>, v: int)
    requires Means(b, Int(v))
    ensures |b| in {1, 2, 3, 4, 5, 9}
    ensures (|b| == 1 ==> 0 <= v <= 127) && (|b| == 2 ==> -4096 <= v <= 4095) && (|b| == 3 ==> -32768 <= v <= 32767)
    ensures (|b| == 4 ==> -8388608 <= v <= 8388607) && (|b| == 5 ==> -2147483648 <= v <= 2147483647)
  {
    hide Number;
  }

  lemma MeansOne(a: seq<Byte>, b: seq<Byte>, v: int)
    requires Means(a, Int(v)) && Means(b, Int(v)) && |a| == |b|
    ensures a == b
  {
    hide Number;
    if |a| >= 3 {
      NumberOne(a[1..], b[1..]);
      assert a == [a[0]] + a[1..] && b == [b[0]] + b[1..];
    }
  }

  lemma NumberOne(s: seq<Byte>, t: seq<Byte>)
    requires |s| == |t| && |s| in {2, 3, 4, 8}
    ensures Number(s) == Number(t) ==> s == t
  {
    hide Number, FromLittle;
    LittleNumber(s);
    LittleNumber(t);
    if Number(s) == Number(t) {
      LittleOne(s, t);
    }
  }

  lemma {:induction false} LittleOne(s: seq<Byte>, t: seq<Byte>)
    requires |s| == |t| && FromLittle(s) == FromLittle(t)
    ensures s == t
    decreases |s|
  {
    if s != [] {
      assert s[0] as int == FromLittle(s) % 256 && t[0] as int == FromLittle(t) % 256;
      LittleOne(s[1..], t[1..]);
      assert s == [s[0]] + s[1..] && t == [t[0]] + t[1..];
    }
  }

  /** The same for strings, whose three headers hold 6, 12 and 32 bits of length. */
  lemma StringLeast(s: seq<Byte>, b: seq<Byte>)
    requires |s| <= 0xffff_ffff && Means(b, Str(s))
    ensures Means(EncodeString(s), Str(s)) && |EncodeString(s)| <= |b| && (|b| == |EncodeString(s)| ==> b == EncodeString(s))
  {
    hide BodyOk, Get, Number, Little;
    StringRoundTrip(s);
    GetMeans(EncodeString(s), Str(s));
    var r := EncodeString(s);
    if |s| >= 0x1000 {
      NumberOne(b[1..5], r[1..5]);
      assert b == [b[0]] + b[1..5] + b[5..] && r == [r[0]] + r[1..5] + r[5..];
    }
  }

  /** The length of an entry behind it: seven bits a byte, the high ones first, marked but for the first. */
  ghost predicate IsBacklen(r: seq<Byte>, l: nat) {
    if l <= 127 then r == [l]
    else if l < 16383 then r == [l / 128, 128 + l % 128]
    else if l < 2097151 then r == [l / 16384, 128 + l / 128 % 128, 128 + l % 128]
    else if l < 268435455 then r == [l / 2097152, 128 + l / 16384 % 128, 128 + l / 128 % 128, 128 + l % 128]
    else r == [l / 268435456 % 256, 128 + l / 2097152 % 128, 128 + l / 16384 % 128, 128 + l / 128 % 128, 128 + l % 128]
  }

  ghost function BackWidth(l: nat): nat {
    if l <= 127 then 1 else if l < 16383 then 2 else if l < 2097151 then 3 else if l < 268435455 then 4 else 5
  }

  lemma BacklenIs(l: nat)
    ensures IsBacklen(Backlen(l), l) && |Backlen(l)| == BackWidth(l)
  {
    hide Groups;
    if l <= 127 {
      OneGroup(l);
    } else if l < 16383 {
      TwoGroups(l);
    } else if l < 2097151 {
      ThreeGroups(l);
    } else if l < 268435455 {
      FourGroups(l);
    } else {
      FiveGroups(l);
    }
  }

  lemma OneGroup(l: nat)
    ensures Groups(l, 1) == [l % 256]
  {
  }

  lemma TwoGroups(l: nat)
    ensures Groups(l, 2) == [l / 128 % 256, 128 + l % 128] && (l < 16384 ==> l / 128 % 256 == l / 128)
  {
    OneGroup(l / 128);
  }

  lemma ThreeGroups(l: nat)
    ensures Groups(l, 3) == [l / 16384 % 256, 128 + l / 128 % 128, 128 + l % 128] && (l < 2097152 ==> l / 16384 % 256 == l / 16384)
  {
    TwoGroups(l / 128);
    assert l / 128 / 128 == l / 16384;
  }

  lemma FourGroups(l: nat)
    ensures Groups(l, 4) == [l / 2097152 % 256, 128 + l / 16384 % 128, 128 + l / 128 % 128, 128 + l % 128]
    ensures l < 268435456 ==> l / 2097152 % 256 == l / 2097152
  {
    ThreeGroups(l / 128);
    assert l / 128 / 128 == l / 16384 && l / 128 / 16384 == l / 2097152;
  }

  lemma FiveGroups(l: nat)
    ensures Groups(l, 5)
         == [l / 268435456 % 256, 128 + l / 2097152 % 128, 128 + l / 16384 % 128, 128 + l / 128 % 128, 128 + l % 128]
  {
    FourGroups(l / 128);
    assert l / 128 / 128 == l / 16384 && l / 128 / 16384 == l / 2097152 && l / 128 / 2097152 == l / 268435456;
  }

  // ---------------------------------------------------------------- the whole listpack

  /** Entries in a row, each with its length behind it, and the end byte 255. */
  ghost predicate IsRow(s: seq<Byte>, es: seq<seq<Byte>>)
    decreases |es|
  {
    if es == [] then s == [255]
    else
      var n, k := |es[0]|, BackWidth(|es[0]|);
      && (exists x :: Means(es[0], x))
      && n + k <= |s| && s[..n] == es[0] && IsBacklen(s[n..n + k], n) && IsRow(s[n + k..], es[1..])
  }

  /** Six bytes of header with the total and the count, which is exact or 65535, then the row. */
  ghost predicate IsListpack(lp: seq<Byte>, es: seq<seq<Byte>>) {
    && 6 < |lp| <= 0xffff_ffff && Number(lp[..4]) == |lp|
    && (Number(lp[4..6]) == |es| || Number(lp[4..6]) == 65535)
    && IsRow(lp[6..], es)
  }

  lemma {:induction false} RowIs(s: seq<Byte>, es: seq<seq<Byte>>)
    ensures IsRow(s, es) <==> AllOk(es) && s == Row(es) + [LP_EOF]
    decreases |es|
  {
    hide BodyOk, Get, Means, IsBacklen, Backlen, BackWidth;
    if es != [] {
      var b, back := es[0], Backlen(|es[0]|);
      var n, k := |b|, |back|;
      BacklenIs(n);
      BodyMeans(b);
      assert AllOk(es) <==> BodyOk(b) && AllOk(es[1..]);
      var more := Row(es[1..]) + [LP_EOF];
      assert Row(es) + [LP_EOF] == b + back + more;
      if n + k <= |s| {
        RowIs(s[n + k..], es[1..]);
        RowSplit(s, b, back, more);
        if IsBacklen(s[n..n + k], n) {
          BacklenOne(s[n..n + k], back, n);
        }
      }
    }
  }

  lemma RowSplit(s: seq<Byte>, b: seq<Byte>, back: seq<Byte>, more: seq<Byte>)
    requires |b| + |back| <= |s|
    ensures s == b + back + more <==> s[..|b|] == b && s[|b|..|b| + |back|] == back && s[|b| + |back|..] == more
  {
    assert s == s[..|b|] + s[|b|..|b| + |back|] + s[|b| + |back|..];
    if s == b + back + more {
      assert s[..|b|] == b && s[|b|..|b| + |back|] == back && s[|b| + |back|..] == more;
    }
  }

  lemma BacklenOne(a: seq<Byte>, b: seq<Byte>, l: nat)
    requires IsBacklen(a, l) && IsBacklen(b, l)
    ensures a == b
  {
  }

  lemma BodyMeans(b: seq<Byte>)
    ensures BodyOk(b) <==> exists x :: Means(b, x)
  {
    hide BodyOk, Get, Means;
    if BodyOk(b) {
      BodyReads(b);
      GetMeans(b, Get(b));
    }
    if x :| Means(b, x) {
      GetMeans(b, x);
    }
  }

  lemma BodyReads(b: seq<Byte>)
    requires BodyOk(b)
    ensures b != [] && |b| >= CodeBytes(b[0]) && |b| >= EncodeSize(b)
  {
  }

  /** What the edits keep is exactly this. */
  lemma HoldsIs(lp: seq<Byte>, es: seq<seq<Byte>>)
    ensures Holds(lp, es) <==> IsListpack(lp, es)
  {
    hide IsRow, AllOk, Row, FromLittle, Number;
    if 6 < |lp| <= 0xffff_ffff {
      RowIs(lp[6..], es);
      LittleNumber(lp[..4]);
      LittleNumber(lp[4..6]);
      Powers256();
      LittleBound(lp[4..6]);
    }
  }
}
