/**
  Integers in a listpack, src/listpack/listpack.c: which strings are stored as integers, and the
  encodings of an integer in one to nine bytes.
*/
module ListpackNumber {
  import opened Wrappers
  import opened Bytes

  const INT64_MAX := 0x7fff_ffff_ffff_ffff
  const UINT64_MAX := 0xffff_ffff_ffff_ffff
  const LONG_STR_SIZE := 21

  predicate Int64(v: int) {
    -INT64_MAX - 1 <= v <= INT64_MAX
  }

  // ---------------------------------------------------------------- decimal text

  function Digits(n: nat): (r: seq<Byte>)
    ensures r != []
  {
    if n < 10 then [48 + n] else Digits(n / 10) + [48 + n % 10]
  }

  /** The canonical decimal text of an integer, as ll2string prints it. */
  function Decimal(v: int): seq<Byte> {
    if v < 0 then [45] + Digits(-v) else Digits(v)
  }

  predicate IsDigit(b: Byte) {
    48 <= b <= 57
  }

  lemma {:induction false} DigitsOnly(n: nat)
    ensures forall i | 0 <= i < |Digits(n)| :: IsDigit(Digits(n)[i])
    ensures n > 0 ==> Digits(n)[0] != 48
  {
    if n >= 10 {
      DigitsOnly(n / 10);
    }
  }

  lemma {:induction false} DigitsInjective(a: nat, b: nat)
    requires Digits(a) == Digits(b)
    ensures a == b
  {
    var x, y := Digits(a), Digits(b);
    assert x[|x| - 1] == 48 + a % 10 && y[|y| - 1] == 48 + b % 10;
    if a >= 10 && b >= 10 {
      assert x[..|x| - 1] == Digits(a / 10) && y[..|y| - 1] == Digits(b / 10);
      DigitsInjective(a / 10, b / 10);
    }
  }

  /** What follows a proper prefix multiplies it by ten and more. */
  lemma {:induction false} DigitsPrefix(w: nat, v: nat, k: nat)
    requires k < |Digits(w)| && Digits(w)[..k] == Digits(v)
    ensures w >= 10 * v + (Digits(w)[k] as int - 48)
    ensures k + 1 == |Digits(w)| ==> w == 10 * v + (Digits(w)[k] as int - 48)
  {
    var x := Digits(w);
    if w >= 10 {
      assert x == Digits(w / 10) + [48 + w % 10];
      var n := |x| - 1;
      assert x[..n] == Digits(w / 10);
      if k == n {
        DigitsInjective(w / 10, v);
      } else {
        assert Digits(w / 10)[..k] == x[..k];
        assert Digits(w / 10)[k] == x[k];
        DigitsPrefix(w / 10, v, k);
      }
    }
  }

  function Ten(k: nat): nat {
    if k == 0 then 1 else 10 * Ten(k - 1)
  }

  lemma {:induction false} DigitsLength(n: nat, k: nat)
    requires n < Ten(k) && k > 0
    ensures |Digits(n)| <= k
  {
    if n >= 10 {
      assert n / 10 < Ten(k - 1);
      DigitsLength(n / 10, k - 1);
    }
  }

  lemma TenNineteen()
    ensures Ten(19) == 10_000_000_000_000_000_000
  {
    assert Ten(4) == 10_000 by {
      assert Ten(1) == 10 && Ten(2) == 100 && Ten(3) == 1000;
    }
    assert Ten(8) == 10_000 * Ten(4) by {
      assert Ten(8) == 10 * Ten(7) == 100 * Ten(6) == 1000 * Ten(5);
    }
    assert Ten(12) == 10_000 * Ten(8) by {
      assert Ten(12) == 10 * Ten(11) == 100 * Ten(10) == 1000 * Ten(9);
    }
    assert Ten(16) == 10_000 * Ten(12) by {
      assert Ten(16) == 10 * Ten(15) == 100 * Ten(14) == 1000 * Ten(13);
    }
    assert Ten(19) == 10 * Ten(18) == 100 * Ten(17) == 1000 * Ten(16);
  }

  /** A string is stored as an integer exactly if it is the canonical text of an int64. */
  ghost predicate IsInt64Text(s: seq<Byte>) {
    exists v :: Int64(v) && s == Decimal(v)
  }

  lemma TextShape(s: seq<Byte>, v: int)
    requires Int64(v) && s == Decimal(v)
    ensures 0 < |s| < LONG_STR_SIZE
    ensures s[0] == 45 <==> v < 0
    ensures v != 0 ==> var start := if v < 0 then 1 else 0;
              |s| > start && s[start..] == Digits(if v < 0 then -v else v) && 49 <= s[start] <= 57
    ensures v == 0 ==> s == [48]
    ensures forall i | (if v < 0 then 1 else 0) <= i < |s| :: IsDigit(s[i])
  {
    var n := if v < 0 then -v else v;
    hide Ten, Digits;
    TenNineteen();
    DigitsLength(n, 19);
    DigitsOnly(n);
    assert v == 0 ==> s == [48] by {
      ZeroText();
    }
    if v < 0 {
      assert s[1..] == Digits(n);
      assert forall i | 1 <= i < |s| :: s[i] == Digits(n)[i - 1];
    } else {
      assert s[0..] == s;
    }
  }

  lemma ZeroText()
    ensures Digits(0) == [48]
  {
  }

  /** list_pack_string_to_int64. */
  method StringToInt64(s: seq<Byte>) returns (value: Option<int>)
    ensures value.Some? <==> IsInt64Text(s)
    ensures value.Some? ==> Int64(value.value) && s == Decimal(value.value)
  {
    hide Digits;
    forall v | Int64(v) && s == Decimal(v) ensures 0 < |s| < LONG_STR_SIZE {
      TextShape(s, v);
    }
    if |s| == 0 || |s| >= LONG_STR_SIZE {
      return None;
    }
    if |s| == 1 && s[0] == 48 {
      ZeroText();
      assert s == Decimal(0);
      return Some(0);
    }
    var negative := false;
    var p := 0;
    if s[0] == 45 {
      negative := true;
      p := 1;
      if p == |s| {
        NotText(s);
        return None;
      }
    }
    if !(49 <= s[p] <= 57) {
      NotText(s);
      return None;
    }
    value := ScanDigits(s, p, negative);
  }

  /** The shapes that are not the text of any int64. */
  lemma NotText(s: seq<Byte>)
    requires s != [] && s != [48]
    requires var start := if s[0] == 45 then 1 else 0;
             start == |s| || !(49 <= s[start] <= 57) || exists i :: start <= i < |s| && !IsDigit(s[i])
    ensures !IsInt64Text(s)
  {
    hide Digits, Decimal;
    forall v | Int64(v) && s == Decimal(v)
      ensures false
    {
      TextShape(s, v);
    }
  }

  /** The digits read so far. */
  ghost predicate Read(s: seq<Byte>, start: nat, p: nat, v: nat) {
    start < p <= |s| && v <= UINT64_MAX && v > 0 && s[start..p] == Digits(v)
  }

  lemma ReadNext(s: seq<Byte>, start: nat, p: nat, v: nat)
    requires Read(s, start, p, v) && p < |s| && IsDigit(s[p]) && 10 * v + (s[p] as int - 48) <= UINT64_MAX
    ensures Read(s, start, p + 1, 10 * v + (s[p] as int - 48))
  {
    var d: int := s[p];
    var w := 10 * v + (d - 48);
    assert w / 10 == v && w % 10 == d - 48;
    assert Digits(w) == Digits(v) + [48 + w % 10];
    assert s[start..p + 1] == s[start..p] + [s[p]];
  }

  /** If the text goes on after the digits of v, its number is at least ten times v and the next digit. */
  lemma TooBig(s: seq<Byte>, start: nat, p: nat, v: nat, limit: nat)
    requires Read(s, start, p, v) && p < |s| && IsDigit(s[p]) && start == (if s[0] == 45 then 1 else 0)
    requires 10 * v + (s[p] as int - 48) > limit && limit > INT64_MAX
    ensures !IsInt64Text(s)
  {
    hide Digits, Decimal;
    forall x | Int64(x) && s == Decimal(x)
      ensures false
    {
      TextShape(s, x);
      var n := if x < 0 then -x else x;
      assert x != 0;
      assert s[start..][..p - start] == s[start..p];
      assert s[start..][p - start] == s[p];
      DigitsPrefix(n, v, p - start);
    }
  }

  lemma WholeText(s: seq<Byte>, start: nat, v: nat, x: int)
    requires Read(s, start, |s|, v) && start == (if s[0] == 45 then 1 else 0)
    requires Int64(x) && s == Decimal(x)
    ensures (if x < 0 then -x else x) == v && (x < 0 <==> start == 1)
  {
    hide Digits, Decimal;
    TextShape(s, x);
    assert s[start..|s|] == s[start..];
    if x == 0 {
      ZeroText();
      DigitsInjective(0, v);
    } else {
      DigitsInjective(if x < 0 then -x else x, v);
    }
  }

  lemma TextOf(s: seq<Byte>, start: nat, v: nat)
    requires Read(s, start, |s|, v) && start == (if s[0] == 45 then 1 else 0)
    ensures s == Decimal(if start == 1 then 0 - v else v)
  {
    hide Digits;
    assert s == s[..start] + s[start..|s|];
    if start == 1 {
      assert s[..1] == [45];
    } else {
      assert s[..0] == [];
    }
  }

  lemma OneDigit(s: seq<Byte>, start: nat)
    requires start < |s| && 49 <= s[start] <= 57
    ensures Read(s, start, start + 1, s[start] as int - 48)
  {
    assert s[start..start + 1] == [s[start]];
  }

  method ScanDigits(s: seq<Byte>, start: nat, negative: bool) returns (value: Option<int>)
    requires start < |s| && 49 <= s[start] <= 57 && start == (if s[0] == 45 then 1 else 0) && negative == (s[0] == 45)
    ensures value.Some? <==> IsInt64Text(s)
    ensures value.Some? ==> Int64(value.value) && s == Decimal(value.value)
  {
    hide Digits, Decimal, Read;
    var first: int := s[start];
    var v: nat := first - 48;
    var p := start + 1;
    OneDigit(s, start);
    while p < |s| && IsDigit(s[p])
      invariant start < p <= |s| && Read(s, start, p, v) && v <= UINT64_MAX
    {
      var d: int := s[p];
      if v > UINT64_MAX / 10 {
        TooBig(s, start, p, v, UINT64_MAX);
        return None;
      }
      if v * 10 > UINT64_MAX - (d - 48) {
        TooBig(s, start, p, v, UINT64_MAX);
        return None;
      }
      ReadNext(s, start, p, v);
      v := v * 10 + (d - 48);
      p := p + 1;
    }
    if p < |s| {
      NotText(s);
      return None;
    }
    forall x | Int64(x) && s == Decimal(x) ensures (if x < 0 then -x else x) == v && (x < 0 <==> start == 1) {
      WholeText(s, start, v, x);
    }
    TextOf(s, start, v);
    if negative {
      if v > INT64_MAX + 1 {
        return None;
      }
      return Some(0 - v);
    }
    if v > INT64_MAX {
      return None;
    }
    return Some(v);
  }

  // ---------------------------------------------------------------- integer encodings

  /** The low k bytes of v, least significant first. */
  function Little(v: nat, k: nat): (r: seq<Byte>)
    ensures |r| == k
    decreases k
  {
    if k == 0 then [] else [v % 256] + Little(v / 256, k - 1)
  }

  function FromLittle(s: seq<Byte>): nat {
    if s == [] then 0 else
      var b: int := s[0];
      b + 256 * FromLittle(s[1..])
  }

  function Pow256(k: nat): nat {
    if k == 0 then 1 else 256 * Pow256(k - 1)
  }

  lemma {:induction false} LittleRoundTrip(v: nat, k: nat)
    requires v < Pow256(k)
    ensures FromLittle(Little(v, k)) == v
    decreases k
  {
    if k > 0 {
      assert v / 256 < Pow256(k - 1);
      LittleRoundTrip(v / 256, k - 1);
      assert Little(v, k)[1..] == Little(v / 256, k - 1);
    }
  }

  lemma Powers256()
    ensures Pow256(2) == 0x1_0000 && Pow256(3) == 0x100_0000 && Pow256(4) == 0x1_0000_0000
    ensures Pow256(8) == UINT64_MAX + 1
  {
    assert Pow256(1) == 256;
    assert Pow256(5) == 0x100_0000_0000 && Pow256(6) == 0x1_0000_0000_0000 && Pow256(7) == 0x100_0000_0000_0000;
  }

  /** Two's complement in a field of the given range. */
  function Wrap(v: int, range: nat): int {
    if v < 0 then range + v else v
  }

  /** list_pack_encode_integer_get_type. */
  function EncodeInt(v: int): (r: seq<Byte>)
    requires Int64(v)
    ensures 0 < |r| <= 9
  {
    if 0 <= v <= 127 then [v]
    else if -4096 <= v <= 4095 then
      var u := Wrap(v, 8192);
      [u / 256 + 0xc0, u % 256]
    else if -0x8000 <= v <= 0x7fff then [0xf1] + Little(Wrap(v, 0x1_0000), 2)
    else if -0x80_0000 <= v <= 0x7f_ffff then [0xf2] + Little(Wrap(v, 0x100_0000), 3)
    else if -0x8000_0000 <= v <= 0x7fff_ffff then [0xf3] + Little(Wrap(v, 0x1_0000_0000), 4)
    else [0xf4] + Little(Wrap(v, UINT64_MAX + 1), 8)
  }

  /** The conversion at the end of list_pack_get_with_buffer. */
  function Signed(u: nat, negstart: nat, negmax: nat): int {
    if u >= negstart then -(negmax - u) - 1 else u
  }

  /** The integer branches of list_pack_get_with_buffer. */
  function DecodeInt(s: seq<Byte>): int
    requires s != [] && !(128 <= s[0] <= 191) && !(224 <= s[0] <= 240)
    requires |s| >= IntSize(s[0])
  {
    var e: int := s[0];
    if e < 128 then e
    else if e < 224 then
      var b: int := s[1];
      Signed((e - 0xc0) * 256 + b, 4096, 8191)
    else if e == 0xf1 then Signed(FromLittle(s[1..3]), 0x8000, 0xffff)
    else if e == 0xf2 then Signed(FromLittle(s[1..4]), 0x80_0000, 0xff_ffff)
    else if e == 0xf3 then Signed(FromLittle(s[1..5]), 0x8000_0000, 0xffff_ffff)
    else if e == 0xf4 then Signed(FromLittle(s[1..9]), INT64_MAX + 1, UINT64_MAX)
    else 12345678900000000 + e
  }

  function IntSize(e: Byte): nat {
    if e < 192 then 1 else if e < 224 then 2 else if e == 0xf1 then 3 else if e == 0xf2 then 4
    else if e == 0xf3 then 5 else if e == 0xf4 then 9 else 1
  }

  predicate IsIntCode(e: Byte) {
    e < 128 || 192 <= e < 224 || 0xf1 <= e <= 0xf4
  }

  /** Every int64 survives its encoding, whatever follows it. */
  lemma IntRoundTrip(v: int, rest: seq<Byte>)
    requires Int64(v)
    ensures var s := EncodeInt(v) + rest;
            IsIntCode(s[0]) && IntSize(s[0]) == |EncodeInt(v)| && DecodeInt(s) == v
  {
    hide Little, FromLittle, Pow256;
    var s := EncodeInt(v) + rest;
    if -4096 <= v <= 4095 {
    } else {
      Powers256();
      var k, range := |EncodeInt(v)| - 1, if -0x8000 <= v <= 0x7fff then 0x1_0000 else if -0x80_0000 <= v <= 0x7f_ffff then 0x100_0000
        else if -0x8000_0000 <= v <= 0x7fff_ffff then 0x1_0000_0000 else UINT64_MAX + 1;
      assert s[1..k + 1] == Little(Wrap(v, range), k);
      LittleRoundTrip(Wrap(v, range), k);
    }
  }
}
