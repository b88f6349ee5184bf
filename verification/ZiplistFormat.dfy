/**
  The ziplist format of src/list/ziplist.c: entries in a row, each one starting with the length
  of the one before it, in one byte or in five, and an end byte.
*/
module ZiplistFormat {
  import opened Bytes

  const ZIP_END := 255
  const BIG_PREVLEN := 254
  const HEADER_SIZE := 10
  const UINT32_LIMIT := 0x1_0000_0000
  const UINT16_MAX := 65535

  /** An entry: whether its back length takes five bytes, and its encoding and data bytes. */
  datatype Entry = Entry(wide: bool, body: seq<Byte>)

  function PrevSize(wide: bool): nat {
    if wide then 5 else 1
  }

  /** The bytes needed for a back length. */
  function NeedsWide(len: nat): bool {
    len >= BIG_PREVLEN
  }

  function RawLen(e: Entry): nat {
    PrevSize(e.wide) + |e.body|
  }

  function LittleEndian(v: nat): (r: seq<Byte>)
    requires v < UINT32_LIMIT
    ensures |r| == 4
  {
    [v % 256, v / 256 % 256, v / 65536 % 256, v / 16777216]
  }

  /** The back length of an entry: one byte, or 254 and four bytes. */
  function PrevBytes(wide: bool, len: nat): (r: seq<Byte>)
    requires len < UINT32_LIMIT && (wide || len < BIG_PREVLEN)
    ensures |r| == PrevSize(wide)
  {
    if wide then [BIG_PREVLEN] + LittleEndian(len) else [len]
  }

  // ---------------------------------------------------------------- decoding

  /** ZIP_DECODE_PREVLENSIZE and ZIP_DECODE_PREVLEN. */
  function DecodePrevSize(first: Byte): nat {
    if first < BIG_PREVLEN then 1 else 5
  }

  function DecodePrev(s: seq<Byte>): nat
    requires s != [] && DecodePrevSize(s[0]) <= |s|
  {
    if s[0] < BIG_PREVLEN then s[0]
    else
      var a: int, b: int, c: int, d: int := s[1], s[2], s[3], s[4];
      d * 16777216 + c * 65536 + b * 256 + a
  }

  /** zip_encoding_len_size: the size of an entry's encoding header, or 0 for a bad one. */
  function HeaderSize(encoding: Byte): nat {
    if encoding < 64 then 1
    else if encoding < 128 then 2
    else if encoding < 192 then 5
    else if encoding in {0xfe, 0xc0, 0xf0, 0xd0, 0xe0} || 0xf1 <= encoding <= 0xfd then 1
    else 0
  }

  /** ZIP_DECODE_LENGTH: the number of data bytes behind the encoding header. */
  function DataSize(s: seq<Byte>): nat
    requires s != [] && 0 < HeaderSize(s[0]) <= |s|
  {
    var e: int := s[0];
    if e < 64 then e
    else if e < 128 then
      var b: int := s[1];
      (e - 64) * 256 + b
    else if e < 192 then
      var a: int, b: int, c: int, d: int := s[1], s[2], s[3], s[4];
      a * 16777216 + b * 65536 + c * 256 + d
    else if e == 0xfe then 1
    else if e == 0xc0 then 2
    else if e == 0xf0 then 3
    else if e == 0xd0 then 4
    else if e == 0xe0 then 8
    else 0
  }

  /** The bytes are one encoding header with exactly its data. */
  predicate BodyOk(body: seq<Byte>) {
    && body != [] && 0 < HeaderSize(body[0]) <= |body|
    && HeaderSize(body[0]) + DataSize(body) == |body|
  }

  // ---------------------------------------------------------------- rows of entries

  /** Every back length can be stored in the room its entry has, the first one being prev. */
  ghost predicate Fits(es: seq<Entry>, prev: nat) {
    prev < UINT32_LIMIT &&
    (es != [] ==>
       && (es[0].wide || prev < BIG_PREVLEN) && BodyOk(es[0].body)
       && Fits(es[1..], RawLen(es[0])))
  }

  function EncodeOne(e: Entry, prev: nat): (r: seq<Byte>)
    requires prev < UINT32_LIMIT && (e.wide || prev < BIG_PREVLEN)
    ensures |r| == RawLen(e)
  {
    PrevBytes(e.wide, prev) + e.body
  }

  /** Entries in a row, every back length being the true length of the entry before. */
  ghost function Encode(es: seq<Entry>, prev: nat): seq<Byte>
    requires Fits(es, prev)
  {
    if es == [] then [] else EncodeOne(es[0], prev) + Encode(es[1..], RawLen(es[0]))
  }

  /** The length of the last entry, or prev if there is none. */
  function LastLen(es: seq<Entry>, prev: nat): nat {
    if es == [] then prev else RawLen(es[|es| - 1])
  }

  function TotalLen(es: seq<Entry>): nat {
    if es == [] then 0 else RawLen(es[0]) + TotalLen(es[1..])
  }

  lemma {:induction false} EncodeLength(es: seq<Entry>, prev: nat)
    requires Fits(es, prev)
    ensures |Encode(es, prev)| == TotalLen(es)
    decreases |es|
  {
    if es != [] {
      EncodeLength(es[1..], RawLen(es[0]));
    }
  }

  lemma {:induction false} TotalLenConcat(a: seq<Entry>, b: seq<Entry>)
    ensures TotalLen(a + b) == TotalLen(a) + TotalLen(b)
    decreases |a|
  {
    if a == [] {
      assert a + b == b;
    } else {
      assert (a + b)[1..] == a[1..] + b;
      TotalLenConcat(a[1..], b);
    }
  }

  /** A row splits anywhere: the second part starts from the last length of the first. */
  lemma {:induction false} EncodeConcat(a: seq<Entry>, b: seq<Entry>, prev: nat)
    ensures Fits(a + b, prev) <==> Fits(a, prev) && Fits(b, LastLen(a, prev))
    ensures Fits(a + b, prev) ==> Encode(a + b, prev) == Encode(a, prev) + Encode(b, LastLen(a, prev))
    decreases |a|
  {
    hide RawLen, BodyOk, EncodeOne;
    if a == [] {
      assert a + b == b;
    } else {
      assert (a + b)[1..] == a[1..] + b;
      EncodeConcat(a[1..], b, RawLen(a[0]));
      assert LastLen(a, prev) == LastLen(a[1..], RawLen(a[0]));
    }
  }

  /** What every reader of an entry sees, whatever follows it. */
  lemma ReadEntry(s: seq<Byte>, e: Entry, prev: nat, rest: seq<Byte>)
    requires prev < UINT32_LIMIT && (e.wide || prev < BIG_PREVLEN) && BodyOk(e.body)
    requires s == EncodeOne(e, prev) + rest
    ensures s != [] && s[0] != ZIP_END
    ensures DecodePrevSize(s[0]) == PrevSize(e.wide) < |s| && DecodePrev(s) == prev
    ensures s[PrevSize(e.wide)] == e.body[0]
    ensures s[PrevSize(e.wide)..] == e.body + rest
    ensures DataSize(s[PrevSize(e.wide)..]) == DataSize(e.body)
  {
    var size := PrevSize(e.wide);
    var tail := s[size..];
    assert tail == e.body + rest;
    assert s[..size] == PrevBytes(e.wide, prev);
    if e.wide {
      assert s[1..5] == LittleEndian(prev);
      DecodeLittle(s, prev);
    }
    DataSizePrefix(e.body, rest);
  }

  lemma LittleDigits(v: nat)
    ensures v / 65536 == v / 256 / 256 && v / 16777216 == v / 256 / 256 / 256
    ensures v / 16777216 * 16777216 + v / 65536 % 256 * 65536 + v / 256 % 256 * 256 + v % 256 == v
  {
    var v1 := v / 256;
    var v2 := v1 / 256;
    var v3 := v2 / 256;
    assert v == 256 * v1 + v % 256 && v1 == 256 * v2 + v1 % 256 && v2 == 256 * v3 + v2 % 256;
    assert v / 65536 == v2;
    assert v / 16777216 == v3;
  }

  lemma DecodeLittle(s: seq<Byte>, v: nat)
    requires v < UINT32_LIMIT && |s| >= 5 && s[1..5] == LittleEndian(v)
    ensures s[4] as int * 16777216 + s[3] as int * 65536 + s[2] as int * 256 + s[1] as int == v
  {
    LittleDigits(v);
    var t := s[1..5];
    assert t[0] == v % 256 && t[1] == v / 256 % 256 && t[2] == v / 65536 % 256 && t[3] == v / 16777216;
    assert s[1] == t[0] && s[2] == t[1] && s[3] == t[2] && s[4] == t[3];
  }

  lemma DataSizePrefix(body: seq<Byte>, rest: seq<Byte>)
    requires BodyOk(body)
    ensures DataSize(body + rest) == DataSize(body)
  {
    var s := body + rest;
    assert forall i | 0 <= i < |body| :: s[i] == body[i];
  }

  // ---------------------------------------------------------------- the bytes by themselves

  /**
    What an entry without its back length may be, with nothing said about how it is read:

      00LLLLLL                     L bytes         11111110  1 byte      11010000  4 bytes
      01LLLLLL LLLLLLLL            L bytes         11000000  2 bytes     11100000  8 bytes
      10------ and L in 4 bytes    L bytes         11110000  3 bytes     11110001 to 11111101 alone
  */
  ghost predicate IsBody(b: seq<Byte>) {
    && b != []
    && var tag: int := b[0];
    || (tag < 0x40 && |b| == 1 + tag)
    || (0x40 <= tag < 0x80 && |b| >= 2 && |b| == 2 + 256 * (tag - 0x40) + b[1] as int)
    || (0x80 <= tag < 0xc0 && |b| >= 5
        && |b| == 5 + 0x100_0000 * b[1] as int + 0x1_0000 * b[2] as int + 0x100 * b[3] as int + b[4] as int)
    || (tag == 0xfe && |b| == 2) || (tag == 0xc0 && |b| == 3) || (tag == 0xf0 && |b| == 4)
    || (tag == 0xd0 && |b| == 5) || (tag == 0xe0 && |b| == 9)
    || (0xf1 <= tag <= 0xfd && |b| == 1)
  }

  /** The reader's headers and sizes accept exactly these. */
  lemma BodyShapes(b: seq<Byte>)
    ensures BodyOk(b) <==> IsBody(b)
  {
  }

  /** A back length: one byte below 254, or 254 and four bytes, the low one first. */
  ghost predicate IsBack(s: seq<Byte>, prev: nat) {
    || (prev < 254 && s == [prev])
    || (prev < 0x1_0000_0000 && s == [254, prev % 256, prev / 256 % 256, prev / 65536 % 256, prev / 16777216])
  }

  /** Entries in a row and the end byte 255; each entry begins with the length of the one before. */
  ghost predicate IsRow(d: seq<Byte>, bodies: seq<seq<Byte>>, prev: nat)
    decreases |bodies|
  {
    if bodies == [] then d == [255]
    else
      && IsBody(bodies[0])
      && exists n | n in {1, 5} :: RowFrom(d, bodies, prev, n)
  }

  ghost predicate RowFrom(d: seq<Byte>, bodies: seq<seq<Byte>>, prev: nat, n: nat)
    requires bodies != []
    decreases |bodies|, 0
  {
    var len := n + |bodies[0]|;
    len <= |d| && IsBack(d[..n], prev) && d[n..len] == bodies[0] && IsRow(d[len..], bodies[1..], len)
  }

  /** Where the last entry starts: each one before it takes its bytes and one or five more. */
  ghost function LastAt(d: seq<Byte>, bodies: seq<seq<Byte>>): nat
    decreases |bodies|
  {
    if |bodies| <= 1 || d == [] then 0
    else
      var len := |bodies[0]| + if d[0] == 254 then 5 else 1;
      if len > |d| then 0 else len + LastAt(d[len..], bodies[1..])
  }

  function Bodies(es: seq<Entry>): seq<seq<Byte>> {
    seq(|es|, i requires 0 <= i < |es| => es[i].body)
  }

  lemma {:induction false} EntriesAreRow(es: seq<Entry>, prev: nat)
    requires Fits(es, prev)
    ensures IsRow(Encode(es, prev) + [ZIP_END], Bodies(es), prev)
    decreases |es|
  {
    hide BodyOk, IsBody, LittleEndian;
    if es != [] {
      var e, n, len := es[0], PrevSize(es[0].wide), RawLen(es[0]);
      BodyShapes(e.body);
      EntriesAreRow(es[1..], len);
      var more := Encode(es[1..], len) + [ZIP_END];
      var d := Encode(es, prev) + [ZIP_END];
      assert d == PrevBytes(e.wide, prev) + e.body + more;
      BackBytes(e.wide, prev);
      assert d[..n] == PrevBytes(e.wide, prev) && d[n..len] == e.body && d[len..] == more;
      assert Bodies(es)[1..] == Bodies(es[1..]);
      assert RowFrom(d, Bodies(es), prev, n);
    }
  }

  lemma {:induction false} EntriesLastAt(es: seq<Entry>, prev: nat)
    requires Fits(es, prev)
    ensures LastAt(Encode(es, prev) + [ZIP_END], Bodies(es)) == if es == [] then 0 else TotalLen(es[..|es| - 1])
    decreases |es|
  {
    hide BodyOk, LittleEndian;
    if |es| > 1 {
      var e, len := es[0], RawLen(es[0]);
      EntriesLastAt(es[1..], len);
      var more := Encode(es[1..], len) + [ZIP_END];
      var d := Encode(es, prev) + [ZIP_END];
      assert d == PrevBytes(e.wide, prev) + e.body + more;
      assert d[0] == PrevBytes(e.wide, prev)[0] && d[len..] == more;
      assert Bodies(es)[1..] == Bodies(es[1..]);
      assert es[..|es| - 1][1..] == es[1..][..|es| - 2];
    }
  }

  lemma BackBytes(wide: bool, prev: nat)
    requires prev < UINT32_LIMIT && (wide || prev < BIG_PREVLEN)
    ensures IsBack(PrevBytes(wide, prev), prev)
  {
  }

  /** Every such row is one of entries. */
  lemma {:induction false} RowIsEntries(d: seq<Byte>, bodies: seq<seq<Byte>>, prev: nat) returns (es: seq<Entry>)
    requires IsRow(d, bodies, prev) && prev < UINT32_LIMIT && |d| < UINT32_LIMIT
    ensures Fits(es, prev) && d == Encode(es, prev) + [ZIP_END] && Bodies(es) == bodies
    decreases |bodies|
  {
    hide BodyOk, IsBody, IsBack, PrevBytes, Fits, Encode;
    EncodeFirst(Entry(false, []), [], prev);
    if bodies == [] {
      es := [];
    } else {
      var n :| n in {1, 5} && RowFrom(d, bodies, prev, n);
      var e := Entry(n == 5, bodies[0]);
      var len := n + |bodies[0]|;
      BodyShapes(bodies[0]);
      BackIs(d[..n], e.wide, prev);
      var rest := RowIsEntries(d[len..], bodies[1..], len);
      es := [e] + rest;
      EncodeFirst(e, rest, prev);
      assert d == d[..n] + d[n..len] + d[len..];
    }
  }

  lemma EncodeFirst(e: Entry, rest: seq<Entry>, prev: nat)
    ensures prev < UINT32_LIMIT ==> Fits([], prev) && Encode([], prev) == []
    ensures prev < UINT32_LIMIT && (e.wide || prev < BIG_PREVLEN) && BodyOk(e.body) && Fits(rest, RawLen(e)) ==>
              && Fits([e] + rest, prev)
              && Encode([e] + rest, prev) + [ZIP_END] == PrevBytes(e.wide, prev) + e.body + (Encode(rest, RawLen(e)) + [ZIP_END])
  {
    hide BodyOk, PrevBytes;
    assert ([e] + rest)[1..] == rest;
  }

  lemma BackIs(s: seq<Byte>, wide: bool, prev: nat)
    requires IsBack(s, prev) && |s| == PrevSize(wide)
    ensures prev < UINT32_LIMIT && (wide || prev < BIG_PREVLEN) && s == PrevBytes(wide, prev)
  {
  }
}
