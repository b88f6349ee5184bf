/**
  The listpack format of src/listpack/listpack.c: a header with the total bytes and the number of
  elements, entries that end with their own length, readable backwards, and an end byte.
*/
module ListpackFormat {
  import opened Wrappers
  import opened Bytes
  import opened ListpackNumber

  const LP_HDR_SIZE := 6
  const LP_EOF := 255
  const UINT16_MAX := 65535
  const UINT32_MAX := 0xffff_ffff

  // ---------------------------------------------------------------- entry sizes

  /** list_pack_current_encode_size_bytes: the bytes that tell an entry's size, or 0 for a bad one. */
  function CodeBytes(e: Byte): nat {
    if e < 224 then 1
    else if e < 240 then 2
    else if e == 240 then 5
    else if e < 0xf5 || e == LP_EOF then 1
    else 0
  }

  /** The size an entry's first bytes tell. */
  function EncodeSize(s: seq<Byte>): nat
    requires s != [] && |s| >= CodeBytes(s[0])
  {
    var e: int := s[0];
    if e < 128 then 1
    else if e < 192 then 1 + (e - 128)
    else if e < 224 then 2
    else if e < 240 then
      var b: int := s[1];
      2 + (e - 224) * 256 + b
    else if e == 240 then 5 + FromLittle(s[1..5])
    else if e == 0xf1 then 3
    else if e == 0xf2 then 4
    else if e == 0xf3 then 5
    else if e == 0xf4 then 9
    else if e == LP_EOF then 1
    else 0
  }

  /** list_pack_current_encode_size_unsafe, which returns 32 bits of it. */
  function CodedSize(s: seq<Byte>): nat
    requires s != [] && |s| >= CodeBytes(s[0])
  {
    EncodeSize(s) % (UINT32_MAX + 1)
  }

  /** The bytes of one entry before its back length. */
  predicate BodyOk(b: seq<Byte>) {
    && b != [] && b[0] != LP_EOF && 0 < CodeBytes(b[0]) <= |b| && EncodeSize(b) == |b|
  }

  lemma SizePrefix(b: seq<Byte>, rest: seq<Byte>)
    requires BodyOk(b)
    ensures EncodeSize(b + rest) == |b| && (b + rest)[0] == b[0]
  {
    if b[0] == 240 {
      assert (b + rest)[1..5] == b[1..5];
    }
  }

  // ---------------------------------------------------------------- values

  datatype Value = Int(v: int) | Str(s: seq<Byte>)

  /** list_pack_get_with_buffer. */
  function Get(s: seq<Byte>): Value
    requires s != [] && |s| >= CodeBytes(s[0]) && |s| >= EncodeSize(s)
  {
    var e: int := s[0];
    if 128 <= e < 192 then Str(s[1..1 + (e - 128)])
    else if 224 <= e < 240 then Str(s[2..EncodeSize(s)])
    else if e == 240 then Str(s[5..EncodeSize(s)])
    else Int(DecodeInt(s))
  }

  /** The element as the text that was put in. */
  function Text(x: Value): seq<Byte> {
    match x
    case Int(v) => Decimal(v)
    case Str(s) => s
  }

  /** list_pack_encode_string. */
  function EncodeString(s: seq<Byte>): (r: seq<Byte>)
    requires |s| <= UINT32_MAX
    ensures |r| == (if |s| < 64 then 1 else if |s| < 4096 then 2 else 5) + |s|
  {
    if |s| < 64 then [128 + |s|] + s
    else if |s| < 4096 then [224 + |s| / 256, |s| % 256] + s
    else [240] + Little(|s|, 4) + s
  }

  lemma StringRoundTrip(s: seq<Byte>)
    requires |s| <= UINT32_MAX
    ensures BodyOk(EncodeString(s)) && Get(EncodeString(s)) == Str(s)
  {
    hide Little, FromLittle, Pow256;
    var r := EncodeString(s);
    if |s| >= 4096 {
      Powers256();
      LittleRoundTrip(|s|, 4);
      assert r[1..5] == Little(|s|, 4);
      assert r[5..|r|] == s;
    } else if |s| >= 64 {
      assert r[2..|r|] == s;
    } else {
      assert r[1..|r|] == s;
    }
  }

  lemma IntBody(v: int)
    requires Int64(v)
    ensures BodyOk(EncodeInt(v)) && Get(EncodeInt(v)) == Int(v)
  {
    hide Little, FromLittle, Pow256, DecodeInt;
    IntRoundTrip(v, []);
    assert EncodeInt(v) + [] == EncodeInt(v);
    IntFirst(v);
  }

  lemma IntFirst(v: int)
    requires Int64(v)
    ensures EncodeInt(v)[0] < 128 || 192 <= EncodeInt(v)[0] < 224 || 0xf1 <= EncodeInt(v)[0] <= 0xf4
    ensures |EncodeInt(v)| == IntSize(EncodeInt(v)[0])
  {
    hide Little;
  }

  /** The bytes list_pack_encode_get_type and its caller make of a string. */
  ghost predicate Stored(s: seq<Byte>, body: seq<Byte>) {
    if IsInt64Text(s) then exists v :: Int64(v) && s == Decimal(v) && body == EncodeInt(v)
    else |s| <= UINT32_MAX && body == EncodeString(s)
  }

  /** Whatever is stored reads back as the text that was put in. */
  lemma StoredReadsBack(s: seq<Byte>, body: seq<Byte>)
    requires Stored(s, body)
    ensures BodyOk(body) && Text(Get(body)) == s
    ensures Get(body).Int? <==> IsInt64Text(s)
  {
    hide BodyOk, Get, EncodeString, EncodeInt;
    if IsInt64Text(s) {
      var v :| Int64(v) && s == Decimal(v) && body == EncodeInt(v);
      IntBody(v);
    } else {
      StringRoundTrip(s);
    }
  }

  method EncodeElement(s: seq<Byte>) returns (body: seq<Byte>)
    requires |s| <= UINT32_MAX
    ensures Stored(s, body)
  {
    var v := StringToInt64(s);
    if v.Some? {
      body := EncodeInt(v.value);
    } else {
      body := EncodeString(s);
    }
  }

  // ---------------------------------------------------------------- back lengths

  /** list_pack_encode_backlen_bytes. */
  function BacklenBytes(l: nat): (n: nat)
    ensures 1 <= n <= 5
  {
    if l <= 127 then 1 else if l < 16383 then 2 else if l < 2097151 then 3 else if l < 268435455 then 4 else 5
  }

  /** Groups of seven bits, the most significant first; all but the first carry the high bit. */
  function Groups(l: nat, n: nat): (r: seq<Byte>)
    requires n >= 1
    ensures |r| == n
    decreases n
  {
    if n == 1 then [l % 256] else Groups(l / 128, n - 1) + [128 + l % 128]
  }

  /** list_pack_encode_backlen. */
  function Backlen(l: nat): (r: seq<Byte>)
    ensures |r| == BacklenBytes(l)
  {
    Groups(l, BacklenBytes(l))
  }

  /** list_pack_decode_backlen on at most n more bytes, from p backwards; None is UINT64_MAX. */
  function ReadBack(lp: seq<Byte>, p: int, n: nat): Option<nat>
    requires n >= 1 && n - 1 <= p < |lp|
    decreases n
  {
    var b: int := lp[p];
    if b < 128 then Some(b)
    else if n == 1 then None
    else
      var more := ReadBack(lp, p - 1, n - 1);
      if more.None? then None else Some((b - 128) + 128 * more.value)
  }

  function Pow128(k: nat): (r: nat)
    ensures r > 0
  {
    if k == 0 then 1 else 128 * Pow128(k - 1)
  }

  /** Reading backwards inverts writing. */
  lemma {:induction false} GroupsReadBack(lp: seq<Byte>, at: nat, l: nat, n: nat, max: nat)
    requires 1 <= n <= max && max <= at + n <= |lp| && l < Pow128(n) && lp[at..at + n] == Groups(l, n)
    ensures ReadBack(lp, at + n - 1, max) == Some(l)
    decreases n
  {
    var g := Groups(l, n);
    assert lp[at + n - 1] == g[n - 1];
    if n == 1 {
      assert Pow128(1) == 128;
    } else {
      assert l / 128 < Pow128(n - 1);
      assert lp[at..at + (n - 1)] == g[..n - 1] == Groups(l / 128, n - 1);
      GroupsReadBack(lp, at, l / 128, n - 1, max - 1);
    }
  }

  lemma {:induction false} ReadBackBound(lp: seq<Byte>, p: int, n: nat)
    requires n >= 1 && n - 1 <= p < |lp|
    ensures ReadBack(lp, p, n).Some? ==> ReadBack(lp, p, n).value < Pow128(n)
    decreases n
  {
    if n > 1 && lp[p] >= 128 {
      ReadBackBound(lp, p - 1, n - 1);
    }
  }

  lemma PowersOf128()
    ensures Pow128(1) == 128 && Pow128(2) == 16384 && Pow128(3) == 2097152 && Pow128(4) == 268435456
    ensures Pow128(5) == 0x8_0000_0000
  {
  }

  lemma BacklenFits(l: nat)
    requires l < 0x8_0000_0000
    ensures l < Pow128(BacklenBytes(l))
  {
    PowersOf128();
  }

  lemma BacklenReadsBack(lp: seq<Byte>, at: nat, l: nat)
    requires l < 0x8_0000_0000 && at >= 4 && at + BacklenBytes(l) <= |lp| && lp[at..at + BacklenBytes(l)] == Backlen(l)
    ensures ReadBack(lp, at + BacklenBytes(l) - 1, 5) == Some(l)
  {
    hide Groups, ReadBack, Pow128;
    BacklenFits(l);
    GroupsReadBack(lp, at, l, BacklenBytes(l), 5);
  }

  /** list_pack_decode_backlen: the loop. */
  method DecodeBacklen(lp: seq<Byte>, p0: nat) returns (val: nat)
    requires 4 <= p0 < |lp|
    ensures val == match ReadBack(lp, p0, 5) case Some(l) => l case None => UINT64_MAX
  {
    var p, shift, scale := p0, 0, 1;
    val := 0;
    ghost var n: nat := 5;
    ghost var all := ReadBack(lp, p0, 5);
    while true
      invariant 1 <= n <= 5 && shift == 7 * (5 - n) && n - 1 <= p < |lp| && scale > 0
      invariant var more := ReadBack(lp, p, n);
                all.Some? == more.Some? && (more.Some? ==> all.value == val + scale * more.value)
      decreases n
    {
      var b: int := lp[p];
      var more := ReadBack(lp, p, n);
      val := val + b % 128 * scale;
      if b < 128 {
        return;
      }
      shift := shift + 7;
      if shift > 28 {
        return UINT64_MAX;
      }
      if more.Some? {
        Distribute(scale, b - 128, ReadBack(lp, p - 1, n - 1).value);
      }
      p := p - 1;
      n := n - 1;
      scale := scale * 128;
    }
  }

  lemma Distribute(scale: nat, low: nat, high: nat)
    ensures scale * (low + 128 * high) == low * scale + (scale * 128) * high
  {
  }
}
