/**
  __zip_list_cascade_update of src/list/ziplist.c on the bytes behind the header: when an entry has
  changed its length, the back length of the next one may need more room, and so on.
*/
module ZiplistCascade {
  import opened Wrappers
  import opened Bytes
  import opened ZiplistFormat

  const DELTA := 4

  // ---------------------------------------------------------------- what the cascade means

  function Widen(e: Entry): Entry {
    e.(wide := true)
  }

  function WidenAll(es: seq<Entry>): seq<Entry> {
    seq(|es|, i requires 0 <= i < |es| => Widen(es[i]))
  }

  /** The entries after one of length len: those that must grow do, up to the first that need not. */
  function Ripple(es: seq<Entry>, len: nat): seq<Entry> {
    if es != [] && NeedsWide(len) && !es[0].wide
    then [Widen(es[0])] + Ripple(es[1..], RawLen(es[0]) + DELTA)
    else es
  }

  /** How far a stored back length may be off before the cascade: the entry grew, shrank or is new. */
  predicate Stale(stored: nat, len: nat) {
    stored == 0 || stored + DELTA == len || stored == len || stored == len + DELTA
  }

  /** The cascade leaves every back length room enough. */
  lemma {:induction false} RippleFits(es: seq<Entry>, stored: nat, len: nat)
    requires Fits(es, stored) && Stale(stored, len) && len < UINT32_LIMIT
    requires TotalLen(Ripple(es, len)) < UINT32_LIMIT
    ensures Fits(Ripple(es, len), len)
    decreases |es|
  {
    if es != [] && NeedsWide(len) && !es[0].wide {
      assert ([Widen(es[0])] + Ripple(es[1..], RawLen(es[0]) + DELTA))[1..] == Ripple(es[1..], RawLen(es[0]) + DELTA);
      RippleFits(es[1..], RawLen(es[0]), RawLen(es[0]) + DELTA);
    }
  }

  /** No encoding or data byte changes. */
  lemma {:induction false} RippleBodies(es: seq<Entry>, len: nat)
    ensures |Ripple(es, len)| == |es|
    ensures forall i | 0 <= i < |es| :: Ripple(es, len)[i].body == es[i].body
    decreases |es|
  {
    if es != [] && NeedsWide(len) && !es[0].wide {
      RippleBodies(es[1..], RawLen(es[0]) + DELTA);
    }
  }

  /** Exactly the entries behind one of 254 bytes or more get a wide back length; none loses it. */
  lemma {:induction false} RippleWidths(es: seq<Entry>, stored: nat, len: nat, j: nat)
    requires Fits(es, stored) && j < |es|
    ensures |Ripple(es, len)| == |es|
    ensures Ripple(es, len)[j].wide <==> es[j].wide || (if j == 0 then len else RawLen(Ripple(es, len)[j - 1])) >= 254
    decreases |es|
  {
    RippleBodies(es, len);
    if NeedsWide(len) && !es[0].wide {
      if j > 0 {
        RippleWidths(es[1..], RawLen(es[0]), RawLen(es[0]) + DELTA, j - 1);
      }
    } else if j > 0 {
      RowWide(es, stored, j);
    }
  }

  lemma {:induction false} RowWide(es: seq<Entry>, prev: nat, j: nat)
    requires Fits(es, prev) && 0 < j < |es|
    ensures es[j].wide || RawLen(es[j - 1]) < 254
    decreases |es|
  {
    if j > 1 {
      RowWide(es[1..], RawLen(es[0]), j - 1);
    }
  }

  // ---------------------------------------------------------------- reading entries safely

  datatype Info = Info(prevSize: nat, prevLen: nat, headerSize: nat, dataSize: nat) {
    function Raw(): nat {
      headerSize + dataSize
    }
  }

  predicate OutOfRange(d: seq<Byte>, p: int) {
    p < 0 || p > |d| - 1
  }

  /** zip_entry_safe, positions counted from the first entry: never reads outside the entries. */
  function EntrySafe(d: seq<Byte>, p: int, validatePrev: bool): Option<Info>
    requires d != []
  {
    if p >= 0 && p + 10 < |d| - 1 then
      var ps := DecodePrevSize(d[p]);
      var hs := HeaderSize(d[p + ps]);
      if hs == 0 then None
      else
        var info := Info(ps, DecodePrev(d[p..]), ps + hs, DataSize(d[p + ps..]));
        if OutOfRange(d, p + info.Raw()) || (validatePrev && OutOfRange(d, p - info.prevLen)) then None
        else Some(info)
    else if OutOfRange(d, p) then None
    else
      var ps := DecodePrevSize(d[p]);
      if OutOfRange(d, p + ps) then None
      else
        var hs := HeaderSize(d[p + ps]);
        if hs == 0 || OutOfRange(d, p + ps + hs) then None
        else
          var info := Info(ps, DecodePrev(d[p..]), ps + hs, DataSize(d[p + ps..]));
          if OutOfRange(d, p + info.Raw()) || (validatePrev && OutOfRange(d, p - info.prevLen)) then None
          else Some(info)
  }

  function InfoOf(e: Entry, prev: nat): Info
    requires BodyOk(e.body)
  {
    Info(PrevSize(e.wide), prev, PrevSize(e.wide) + HeaderSize(e.body[0]), DataSize(e.body))
  }

  /** On an entry in place the safe reader succeeds and returns what was written. */
  lemma EntryReads(d: seq<Byte>, p: nat, e: Entry, prev: nat, rest: seq<Byte>, validatePrev: bool)
    requires p <= |d| && prev < UINT32_LIMIT && (e.wide || prev < BIG_PREVLEN) && BodyOk(e.body)
    requires d[p..] == EncodeOne(e, prev) + rest && rest != []
    requires validatePrev ==> prev <= p
    ensures p < |d| && d[p] != ZIP_END
    ensures EntrySafe(d, p, validatePrev) == Some(InfoOf(e, prev))
    ensures InfoOf(e, prev).Raw() == RawLen(e) && p + RawLen(e) < |d|
  {
    hide EncodeOne, DecodePrev, DataSize, HeaderSize;
    ReadEntry(d[p..], e, prev, rest);
    assert |d[p..]| == |d| - p;
    var ps := PrevSize(e.wide);
    assert d[p..][0] == d[p] && d[p..][ps] == d[p + ps];
    assert d[p..][ps..] == d[p + ps..];
    BodyParts(e.body);
  }

  lemma BodyParts(body: seq<Byte>)
    requires BodyOk(body)
    ensures 0 < HeaderSize(body[0]) <= |body| && HeaderSize(body[0]) + DataSize(body) == |body|
  {
  }

  /** zip_entry: the same on a position that is known to be good. */
  function EntryAt(d: seq<Byte>, p: nat): Info
    requires p < |d| && EntrySafe(d, p, false).Some?
  {
    EntrySafe(d, p, false).value
  }

  // ---------------------------------------------------------------- writing back lengths

  /** zip_store_prev_entry_length_large and zip_store_prev_entry_length. */
  function Store(d: seq<Byte>, p: nat, wide: bool, len: nat): (r: seq<Byte>)
    requires len < UINT32_LIMIT && (wide || len < BIG_PREVLEN) && p + PrevSize(wide) <= |d|
    ensures |r| == |d|
  {
    d[..p] + PrevBytes(wide, len) + d[p + PrevSize(wide)..]
  }

  lemma StoreRewrites(d: seq<Byte>, p: nat, e: Entry, prev: nat, len: nat, rest: seq<Byte>)
    requires p <= |d| && prev < UINT32_LIMIT && len < UINT32_LIMIT
    requires (e.wide || prev < BIG_PREVLEN) && (e.wide || len < BIG_PREVLEN)
    requires d[p..] == EncodeOne(e, prev) + rest
    ensures p + PrevSize(e.wide) <= |d|
    ensures Store(d, p, e.wide, len) == d[..p] + (EncodeOne(e, len) + rest)
  {
    var ps := PrevSize(e.wide);
    assert |d[p..]| == |d| - p;
    assert d[p + ps..] == d[p..][ps..];
    assert d[p..][ps..] == e.body + rest;
  }

  // ---------------------------------------------------------------- the forward scan

  /** Where the scan stands after k entries that must grow. */
  ghost predicate Scanned(d: seq<Byte>, base: nat, rest: seq<Entry>, stored: nat, len: nat, k: nat, p: nat, prevlen: nat)
  {
    && k <= |rest| && Fits(rest, stored) && prevlen < UINT32_LIMIT
    && p == base + TotalLen(rest[..k]) && p <= |d|
    && Fits(rest[k..], LastLen(rest[..k], stored))
    && d[p..] == Encode(rest[k..], LastLen(rest[..k], stored)) + [ZIP_END]
    && Ripple(rest, len) == WidenAll(rest[..k]) + Ripple(rest[k..], prevlen)
    && prevlen == (if k == 0 then len else RawLen(rest[k - 1]) + DELTA)
    && (forall j | 0 <= j < k :: !rest[j].wide && NeedsWide(NewPrev(rest, len, j)))
  }

  /** The back length of entry j once the entries before it have grown. */
  function NewPrev(rest: seq<Entry>, len: nat, j: nat): nat
    requires j <= |rest|
  {
    if j == 0 then len else RawLen(rest[j - 1]) + DELTA
  }

  lemma ScanStart(d: seq<Byte>, base: nat, rest: seq<Entry>, stored: nat, len: nat)
    requires Fits(rest, stored) && len < UINT32_LIMIT && base <= |d|
    requires d[base..] == Encode(rest, stored) + [ZIP_END]
    ensures Scanned(d, base, rest, stored, len, 0, base, len)
  {
    assert rest[..0] == [] && rest[0..] == rest;
    assert WidenAll([]) + Ripple(rest, len) == Ripple(rest, len);
  }

  /** The entry the scan looks at, in place. */
  lemma ScanSees(d: seq<Byte>, base: nat, rest: seq<Entry>, stored: nat, len: nat, k: nat, p: nat, prevlen: nat)
    requires Scanned(d, base, rest, stored, len, k, p, prevlen)
    ensures p < |d| && (d[p] == ZIP_END <==> k == |rest|)
    ensures k < |rest| ==> var prev := LastLen(rest[..k], stored);
              && prev < UINT32_LIMIT && (rest[k].wide || prev < BIG_PREVLEN) && BodyOk(rest[k].body)
              && Fits(rest[k + 1..], RawLen(rest[k]))
              && d[p..] == EncodeOne(rest[k], prev) + (Encode(rest[k + 1..], RawLen(rest[k])) + [ZIP_END])
              && EntrySafe(d, p, false) == Some(InfoOf(rest[k], prev))
              && InfoOf(rest[k], prev).Raw() == RawLen(rest[k])
  {
    hide EncodeOne, EntrySafe, InfoOf, BodyOk, Ripple, WidenAll, NewPrev;
    assert |d[p..]| == |d| - p;
    if k < |rest| {
      var prev := LastLen(rest[..k], stored);
      var tail := rest[k..];
      assert tail[0] == rest[k] && tail[1..] == rest[k + 1..];
      var more := Encode(rest[k + 1..], RawLen(rest[k])) + [ZIP_END];
      assert d[p..] == EncodeOne(rest[k], prev) + more;
      EntryReads(d, p, rest[k], prev, more, false);
    } else {
      assert rest[k..] == [];
      assert d[p..][0] == d[p];
    }
  }

  lemma ScanStep(d: seq<Byte>, base: nat, rest: seq<Entry>, stored: nat, len: nat, k: nat, p: nat, prevlen: nat)
    requires Scanned(d, base, rest, stored, len, k, p, prevlen)
    requires k < |rest| && !rest[k].wide && NeedsWide(prevlen) && RawLen(rest[k]) + DELTA < UINT32_LIMIT
    ensures Scanned(d, base, rest, stored, len, k + 1, p + RawLen(rest[k]), RawLen(rest[k]) + DELTA)
  {
    hide EncodeOne, EntrySafe, InfoOf, BodyOk, Encode;
    ScanSees(d, base, rest, stored, len, k, p, prevlen);
    var next := p + RawLen(rest[k]);
    assert rest[..k + 1] == rest[..k] + [rest[k]];
    TotalLenConcat(rest[..k], [rest[k]]);
    assert TotalLen([rest[k]]) == RawLen(rest[k]);
    assert |d[p..]| == |d| - p;
    assert d[next..] == d[p..][RawLen(rest[k])..];
    RippleStep(rest, len, k, prevlen);
  }

  lemma RippleStep(rest: seq<Entry>, len: nat, k: nat, prevlen: nat)
    requires k < |rest| && !rest[k].wide && NeedsWide(prevlen)
    requires Ripple(rest, len) == WidenAll(rest[..k]) + Ripple(rest[k..], prevlen)
    ensures Ripple(rest, len) == WidenAll(rest[..k + 1]) + Ripple(rest[k + 1..], RawLen(rest[k]) + DELTA)
  {
    var tail := rest[k..];
    assert tail[0] == rest[k] && tail[1..] == rest[k + 1..];
    assert WidenAll(rest[..k + 1]) == WidenAll(rest[..k]) + [Widen(rest[k])];
  }

  /**
    The loop that finds out how many entries must grow. It stops at the end, or at an entry whose
    back length is right or has room enough, which it then stores.
  */
  method Scan(d0: seq<Byte>, ghost base: nat, ghost rest: seq<Entry>, ghost stored: nat, len: nat, start: nat, first: nat)
    returns (d: seq<Byte>, k: nat, p: nat, prevoffset: nat, ghost prevlen: nat)
    requires Fits(rest, stored) && Stale(stored, len) && len < UINT32_LIMIT && base <= |d0|
    requires d0[base..] == Encode(rest, stored) + [ZIP_END] && start == base
    requires TotalLen(Ripple(rest, len)) < UINT32_LIMIT
    ensures Scanned(d0, base, rest, stored, len, k, p, prevlen)
    ensures Fits(rest[k..], prevlen) && d == d0[..p] + (Encode(rest[k..], prevlen) + [ZIP_END])
    ensures Ripple(rest, len) == WidenAll(rest[..k]) + rest[k..]
    ensures k > 0 ==> prevoffset == base + TotalLen(rest[..k - 1])
  {
    hide Scanned, EncodeOne, EntrySafe, InfoOf, BodyOk, Encode, Ripple, WidenAll, Stale, RawLen, LastLen, Fits;
    ScanStart(d0, base, rest, stored, len);
    d, k, p, prevoffset := d0, 0, start, first;
    var last: nat := len;
    ScanSees(d0, base, rest, stored, len, k, p, last);
    while d[p] != ZIP_END
      invariant d == d0 && Scanned(d0, base, rest, stored, len, k, p, last)
      invariant p < |d| && (d[p] == ZIP_END <==> k == |rest|) && k <= |rest|
      invariant k > 0 ==> prevoffset == base + TotalLen(rest[..k - 1])
      decreases |rest| - k
    {
      ScanEntry(d, base, rest, stored, len, k, p, last);
      ScanPosition(d, base, rest, stored, len, k, p, last);
      var entry := EntrySafe(d, p, false);
      assert entry.Some?;
      var cur := entry.value;
      if cur.prevLen == last {
        StopUnchanged(d, base, rest, stored, len, k, p, last);
        prevlen := last;
        return;
      }
      if cur.prevSize >= PrevSize(NeedsWide(last)) {
        StopStores(d, base, rest, stored, len, k, p, last);
        if cur.prevSize == PrevSize(NeedsWide(last)) {
          d := Store(d, p, NeedsWide(last), last);
        } else {
          d := Store(d, p, true, last);
        }
        prevlen := last;
        return;
      }
      assert cur.prevLen == 0 || cur.prevLen + DELTA == last;
      ScanStep(d, base, rest, stored, len, k, p, last);
      var raw := cur.Raw();
      last := raw + DELTA;
      prevoffset := p;
      p := p + raw;
      k := k + 1;
      ScanSees(d, base, rest, stored, len, k, p, last);
    }
    StopAtEnd(d, base, rest, stored, len, k, p, last);
    prevlen := last;
  }

  lemma ScanEntry(d: seq<Byte>, base: nat, rest: seq<Entry>, stored: nat, len: nat, k: nat, p: nat, prevlen: nat)
    requires Scanned(d, base, rest, stored, len, k, p, prevlen) && k < |rest| && p < |d|
    ensures EntrySafe(d, p, false).Some?
    ensures var cur := EntrySafe(d, p, false).value;
            && cur.prevLen == LastLen(rest[..k], stored) && cur.prevSize == PrevSize(rest[k].wide)
            && cur.Raw() == RawLen(rest[k]) && (rest[k].wide || cur.prevLen < BIG_PREVLEN)
  {
    hide Scanned, EncodeOne, EntrySafe, BodyOk, Encode, LastLen, RawLen, Fits;
    ScanSees(d, base, rest, stored, len, k, p, prevlen);
  }

  /** What the loop body needs of its position, in numbers. */
  lemma ScanPosition(d: seq<Byte>, base: nat, rest: seq<Entry>, stored: nat, len: nat, k: nat, p: nat, prevlen: nat)
    requires Scanned(d, base, rest, stored, len, k, p, prevlen) && k < |rest|
    requires Stale(stored, len) && TotalLen(Ripple(rest, len)) < UINT32_LIMIT
    ensures p == base + TotalLen(rest[..k]) && prevlen < UINT32_LIMIT
    ensures !rest[k].wide && NeedsWide(prevlen) ==> RawLen(rest[k]) + DELTA < UINT32_LIMIT
    ensures var prev := LastLen(rest[..k], stored);
            prev == 0 || prev + DELTA == prevlen || prev == prevlen || prev == prevlen + DELTA
  {
    hide Encode, Ripple, WidenAll, Fits, RawLen, NewPrev;
    if !rest[k].wide && NeedsWide(prevlen) {
      RippleGrows(rest, len, k, prevlen);
    }
    assert k > 0 ==> rest[..k][|rest[..k]| - 1] == rest[k - 1];
  }

  lemma RippleGrows(rest: seq<Entry>, len: nat, k: nat, prevlen: nat)
    requires k < |rest| && !rest[k].wide && NeedsWide(prevlen)
    requires Ripple(rest, len) == WidenAll(rest[..k]) + Ripple(rest[k..], prevlen)
    ensures RawLen(rest[k]) + DELTA <= TotalLen(Ripple(rest, len))
  {
    hide WidenAll;
    assert Ripple(rest[k..], prevlen)[0] == Widen(rest[k]);
    TotalLenConcat(WidenAll(rest[..k]), Ripple(rest[k..], prevlen));
  }

  lemma StopUnchanged(d: seq<Byte>, base: nat, rest: seq<Entry>, stored: nat, len: nat, k: nat, p: nat, prevlen: nat)
    requires Scanned(d, base, rest, stored, len, k, p, prevlen) && k < |rest|
    requires LastLen(rest[..k], stored) == prevlen
    ensures Fits(rest[k..], prevlen) && d == d[..p] + (Encode(rest[k..], prevlen) + [ZIP_END])
    ensures Ripple(rest, len) == WidenAll(rest[..k]) + rest[k..]
  {
    assert d == d[..p] + d[p..];
    assert rest[k..][0] == rest[k];
  }

  lemma StopStores(d: seq<Byte>, base: nat, rest: seq<Entry>, stored: nat, len: nat, k: nat, p: nat, prevlen: nat)
    requires Scanned(d, base, rest, stored, len, k, p, prevlen) && k < |rest|
    requires PrevSize(rest[k].wide) >= PrevSize(NeedsWide(prevlen))
    ensures p + PrevSize(rest[k].wide) <= |d| && Fits(rest[k..], prevlen)
    ensures Store(d, p, rest[k].wide, prevlen) == d[..p] + (Encode(rest[k..], prevlen) + [ZIP_END])
    ensures Ripple(rest, len) == WidenAll(rest[..k]) + rest[k..]
  {
    hide EncodeOne, EntrySafe, InfoOf, BodyOk, Store;
    ScanSees(d, base, rest, stored, len, k, p, prevlen);
    var tail := rest[k..];
    assert tail[0] == rest[k] && tail[1..] == rest[k + 1..];
    var more := Encode(rest[k + 1..], RawLen(rest[k])) + [ZIP_END];
    StoreRewrites(d, p, rest[k], LastLen(rest[..k], stored), prevlen, more);
    assert Encode(tail, prevlen) + [ZIP_END] == EncodeOne(rest[k], prevlen) + more;
  }

  lemma StopAtEnd(d: seq<Byte>, base: nat, rest: seq<Entry>, stored: nat, len: nat, k: nat, p: nat, prevlen: nat)
    requires Scanned(d, base, rest, stored, len, k, p, prevlen) && k == |rest|
    ensures Fits(rest[k..], prevlen) && d == d[..p] + (Encode(rest[k..], prevlen) + [ZIP_END])
    ensures Ripple(rest, len) == WidenAll(rest[..k]) + rest[k..]
  {
    assert rest[k..] == [];
    assert d == d[..p] + d[p..];
  }

  // ---------------------------------------------------------------- the backward rewrite

  /** The row after the cascade: its first k entries have grown, the others are as they were. */
  ghost predicate Grown(rest: seq<Entry>, row: seq<Entry>, stored: nat, len: nat, k: nat) {
    && |row| == |rest| && k <= |rest| && Fits(rest, stored) && Fits(row, len) && Stale(stored, len)
    && (forall i | 0 <= i < k :: row[i] == Widen(rest[i]) && !rest[i].wide && NeedsWide(NewPrev(rest, len, i)))
  }

  /** The backward loop with j entries still to move: they stand as before, then a gap, then the new row. */
  ghost predicate Rewriting(b: seq<Byte>, before: seq<Byte>, rest: seq<Entry>, row: seq<Entry>, stored: nat, len: nat,
                            j: nat, q: nat)
  {
    && j <= |rest| == |row| && Fits(rest[..j], stored) && Fits(row[j..], NewPrev(rest, len, j))
    && q == |before| + TotalLen(rest[..j]) + DELTA * j && q <= |b|
    && b[..q - DELTA * j] == before + Encode(rest[..j], stored)
    && b[q..] == Encode(row[j..], NewPrev(rest, len, j)) + [ZIP_END]
  }

  lemma OldLast(rest: seq<Entry>, stored: nat, j: nat)
    requires Fits(rest, stored) && 0 < j <= |rest|
    ensures Fits(rest[..j - 1], stored) && Fits(rest[..j], stored) && BodyOk(rest[j - 1].body)
    ensures LastLen(rest[..j - 1], stored) < UINT32_LIMIT
    ensures rest[j - 1].wide || LastLen(rest[..j - 1], stored) < BIG_PREVLEN
    ensures Encode(rest[..j], stored) == Encode(rest[..j - 1], stored) + EncodeOne(rest[j - 1], LastLen(rest[..j - 1], stored))
    ensures TotalLen(rest[..j]) == TotalLen(rest[..j - 1]) + RawLen(rest[j - 1])
    ensures j > 1 ==> LastLen(rest[..j - 1], stored) == RawLen(rest[j - 2])
    ensures j > 1 ==> TotalLen(rest[..j - 1]) == TotalLen(rest[..j - 2]) + RawLen(rest[j - 2])
  {
    hide EncodeOne, BodyOk, RawLen;
    var e := rest[j - 1];
    assert rest == rest[..j] + rest[j..];
    EncodeConcat(rest[..j], rest[j..], stored);
    assert rest[..j] == rest[..j - 1] + [e];
    EncodeConcat(rest[..j - 1], [e], stored);
    assert [e][1..] == [];
    TotalLenConcat(rest[..j - 1], [e]);
    if j > 1 {
      assert rest[..j - 1] == rest[..j - 2] + [rest[j - 2]];
      TotalLenConcat(rest[..j - 2], [rest[j - 2]]);
      assert [rest[j - 2]][1..] == [];
    }
  }

  lemma NewFirst(rest: seq<Entry>, row: seq<Entry>, stored: nat, len: nat, k: nat, j: nat)
    requires Grown(rest, row, stored, len, k) && 0 < j <= k
    ensures RawLen(row[j - 1]) == NewPrev(rest, len, j) && row[j - 1] == Widen(rest[j - 1]) && !rest[j - 1].wide
    ensures NewPrev(rest, len, j - 1) < UINT32_LIMIT && NeedsWide(NewPrev(rest, len, j - 1))
    ensures Fits(row[j..], NewPrev(rest, len, j)) && Fits(row[j - 1..], NewPrev(rest, len, j - 1))
    ensures (Encode(row[j - 1..], NewPrev(rest, len, j - 1))
             == EncodeOne(row[j - 1], NewPrev(rest, len, j - 1)) + Encode(row[j..], NewPrev(rest, len, j)))
  {
    hide EncodeOne, BodyOk;
    assert row == row[..j - 1] + row[j - 1..];
    EncodeConcat(row[..j - 1], row[j - 1..], len);
    assert row[j - 1..][0] == row[j - 1] && row[j - 1..][1..] == row[j..];
    assert j > 1 ==> row[..j - 1][|row[..j - 1]| - 1] == row[j - 2];
  }

  /** The stored back length of an entry that grows, brought up to date as the code does. */
  lemma UpdatedPrev(rest: seq<Entry>, stored: nat, len: nat, j: nat)
    requires Fits(rest, stored) && 0 < j <= |rest| && Stale(stored, len)
    requires !rest[j - 1].wide && NeedsWide(NewPrev(rest, len, j - 1))
    ensures var prev := LastLen(rest[..j - 1], stored);
            NewPrev(rest, len, j - 1) == if prev == 0 then len else prev + DELTA
  {
    hide Encode;
    OldLast(rest, stored, j);
  }

  /** One turn of the loop on the bytes: the body moves up and the wide back length goes before it. */
  lemma MoveOne(b: seq<Byte>, head: seq<Byte>, e: Entry, prev: nat, np: nat, q: nat)
    requires !e.wide && prev < BIG_PREVLEN && np < UINT32_LIMIT && BodyOk(e.body)
    requires |head| + RawLen(e) + DELTA <= q < |b|
    requires b[..|head| + RawLen(e)] == head + EncodeOne(e, prev)
    ensures var o, n := |head|, |e.body|;
            && EntrySafe(b, o, false) == Some(InfoOf(e, prev)) && InfoOf(e, prev).Raw() == n + 1
            && var r := Store(Move(b, q - n, o + 1, n), q - n - 5, true, np);
               r[..q - n - 5] == b[..q - n - 5] && r[q - n - 5..] == EncodeOne(Widen(e), np) + b[q..]
  {
    hide EntrySafe, InfoOf, BodyOk, EncodeOne, Move, Store;
    var o, n := |head|, |e.body|;
    var o2 := o + n + 1;
    Beyond(b, head, EncodeOne(e, prev), o2);
    EntryReads(b, o, e, prev, b[o2..], false);
    MoveBody(b, o, e, prev, q);
    StoreSplits(Move(b, q - n, o + 1, n), q - n - 5, np);
    WideOne(e, np, b[q..]);
    var moved := Move(b, q - n, o + 1, n);
    assert moved[..q - n - 5] == moved[..q - n][..q - n - 5] == b[..q - n - 5];
  }

  lemma Beyond(b: seq<Byte>, head: seq<Byte>, one: seq<Byte>, o2: nat)
    requires o2 == |head| + |one| <= |b| && b[..o2] == head + one
    ensures b[|head|..] == one + b[o2..] && b[|head|..o2] == one
  {
    forall i | 0 <= i < |one| ensures b[|head| + i] == one[i] {
      assert b[..o2][|head| + i] == b[|head| + i];
    }
  }

  lemma MoveBody(b: seq<Byte>, o: nat, e: Entry, prev: nat, q: nat)
    requires !e.wide && prev < BIG_PREVLEN && o + RawLen(e) + DELTA <= q < |b|
    requires b[o..o + RawLen(e)] == EncodeOne(e, prev)
    ensures var n := |e.body|;
            var moved := Move(b, q - n, o + 1, n);
            moved[..q - n] == b[..q - n] && moved[q - n..] == e.body + b[q..]
  {
    var n := |e.body|;
    assert b[o + 1..o + 1 + n] == b[o..o + RawLen(e)][1..] == e.body;
  }

  lemma WideOne(e: Entry, np: nat, more: seq<Byte>)
    requires np < UINT32_LIMIT
    ensures EncodeOne(Widen(e), np) + more == PrevBytes(true, np) + (e.body + more)
  {
  }

  lemma StoreSplits(s: seq<Byte>, p: nat, np: nat)
    requires p + 5 <= |s| && np < UINT32_LIMIT
    ensures Store(s, p, true, np)[..p] == s[..p] && Store(s, p, true, np)[p..] == PrevBytes(true, np) + s[p + 5..]
  {
  }

  lemma RewriteStep(b: seq<Byte>, before: seq<Byte>, rest: seq<Entry>, row: seq<Entry>, stored: nat, len: nat,
                    k: nat, j: nat, q: nat, r: seq<Byte>)
    requires Grown(rest, row, stored, len, k) && 0 < j <= k && Rewriting(b, before, rest, row, stored, len, j, q)
    requires BodyOk(rest[j - 1].body)
    requires var n := |rest[j - 1].body|;
             && n + 5 <= q <= |r| && NewPrev(rest, len, j - 1) < UINT32_LIMIT
             && r[..q - n - 5] == b[..q - n - 5] && r[q - n - 5..] == EncodeOne(row[j - 1], NewPrev(rest, len, j - 1)) + b[q..]
    ensures Rewriting(r, before, rest, row, stored, len, j - 1, q - |rest[j - 1].body| - 5)
  {
    hide EncodeOne, BodyOk, Encode, Fits, NewPrev, Grown, RawLen, TotalLen, LastLen, Widen;
    var n, kept := |rest[j - 1].body|, rest[..j - 1];
    GrownFits(rest, row, stored, len, k);
    OldLast(rest, stored, j);
    NewFirst(rest, row, stored, len, k, j);
    EncodeLength(kept, stored);
    var o, o2 := |before| + TotalLen(kept), q - DELTA * j;
    NarrowLen(rest[j - 1]);
    assert o <= q - n - 5 && o2 == o + n + 1 && q - n - 5 == o + DELTA * (j - 1);
    Prefixes(r, b, before + Encode(kept, stored), EncodeOne(rest[j - 1], LastLen(kept, stored)), q - n - 5, o2);
    assert |r[q - n - 5..]| == |r| - (q - n - 5);
  }

  lemma NarrowLen(e: Entry)
    requires !e.wide
    ensures RawLen(e) == |e.body| + 1
  {
  }

  lemma GrownFits(rest: seq<Entry>, row: seq<Entry>, stored: nat, len: nat, k: nat)
    requires Grown(rest, row, stored, len, k)
    ensures Fits(rest, stored) && |row| == |rest|
  {
  }

  lemma Prefixes(r: seq<Byte>, b: seq<Byte>, head: seq<Byte>, more: seq<Byte>, a: nat, c: nat)
    requires |head| <= a <= |r| && a <= |b| && r[..a] == b[..a]
    requires c <= |b| && b[..c] == head + more
    ensures r[..|head|] == head
  {
    assert r[..a][..|head|] == r[..|head|] && b[..a][..|head|] == b[..|head|] && b[..c][..|head|] == b[..|head|];
  }

  /** Moves every entry that grows to its new place, from the last to the first. */
  method Rewrite(b0: seq<Byte>, ghost before: seq<Byte>, ghost rest: seq<Entry>, ghost row: seq<Entry>,
                 ghost stored: nat, len: nat, k: nat, p: nat, offset: nat)
    returns (b: seq<Byte>)
    requires Grown(rest, row, stored, len, k) && Rewriting(b0, before, rest, row, stored, len, k, p)
    requires k > 0 ==> offset == |before| + TotalLen(rest[..k - 1])
    ensures b == before + (Encode(row, len) + [ZIP_END])
  {
    hide Grown, Rewriting, EntrySafe, InfoOf, BodyOk, EncodeOne, Encode, Store, Move, NewPrev, Stale;
    b := b0;
    var cnt: nat, q: nat, off: int := k, p, offset;
    GrownFits(rest, row, stored, len, k);
    RewritingBounds(b, before, rest, row, stored, len, cnt, q);
    while cnt > 0
      invariant cnt <= k && Rewriting(b, before, rest, row, stored, len, cnt, q)
      invariant cnt > 0 ==> off == |before| + TotalLen(rest[..cnt - 1])
    {
      b, q, off := RewriteOne(b, before, rest, row, stored, len, k, cnt, q, off);
      cnt := cnt - 1;
    }
    RewriteDone(b, before, rest, row, stored, len, q);
  }

  lemma RewritingBounds(b: seq<Byte>, before: seq<Byte>, rest: seq<Entry>, row: seq<Entry>, stored: nat, len: nat, j: nat, q: nat)
    requires Rewriting(b, before, rest, row, stored, len, j, q)
    ensures j <= |rest| && q < |b| && q == |before| + TotalLen(rest[..j]) + DELTA * j
    ensures Fits(rest[..j], stored) && b[..q - DELTA * j] == before + Encode(rest[..j], stored)
  {
    assert |b[q..]| == |b| - q;
  }

  lemma RewriteDone(b: seq<Byte>, before: seq<Byte>, rest: seq<Entry>, row: seq<Entry>, stored: nat, len: nat, q: nat)
    requires Rewriting(b, before, rest, row, stored, len, 0, q)
    ensures Fits(row, len) && b == before + (Encode(row, len) + [ZIP_END])
  {
    hide EncodeOne, BodyOk;
    assert rest[..0] == [] && row[0..] == row;
    assert b == b[..q] + b[q..];
    assert b[..q] == before;
  }

  method RewriteOne(b0: seq<Byte>, ghost before: seq<Byte>, ghost rest: seq<Entry>, ghost row: seq<Entry>,
                    ghost stored: nat, len: nat, ghost k: nat, ghost j: nat, p: nat, offset: nat)
    returns (b: seq<Byte>, q: nat, next: int)
    requires Grown(rest, row, stored, len, k) && 0 < j <= k && Rewriting(b0, before, rest, row, stored, len, j, p)
    requires offset == |before| + TotalLen(rest[..j - 1])
    ensures Rewriting(b, before, rest, row, stored, len, j - 1, q)
    ensures j > 1 ==> next == |before| + TotalLen(rest[..j - 2])
  {
    hide Rewriting, EntrySafe, BodyOk, EncodeOne, Encode, Store, Move, NewPrev, Fits, LastLen, TotalLen;
    RewritingBounds(b0, before, rest, row, stored, len, j, p);
    OldLast(rest, stored, j);
    NewFirst(rest, row, stored, len, k, j);
    UpdatedPrev(rest, stored, len, j);
    EncodeLength(rest[..j - 1], stored);
    ghost var e, prev, np := rest[j - 1], LastLen(rest[..j - 1], stored), NewPrev(rest, len, j - 1);
    ghost var head := before + Encode(rest[..j - 1], stored);
    assert b0[..p - DELTA * j] == head + EncodeOne(e, prev);
    MoveOne(b0, head, e, prev, np, p);
    var cur := EntryAt(b0, offset);
    var raw := cur.Raw();
    var n := raw - cur.prevSize;
    b := Move(b0, p - n, offset + cur.prevSize, n);
    q := p - (raw + DELTA);
    var updated := if cur.prevLen == 0 then len else cur.prevLen + DELTA;
    b := Store(b, q, NeedsWide(updated), updated);
    RewriteStep(b0, before, rest, row, stored, len, k, j, p, b);
    next := offset - cur.prevLen;
  }
}
