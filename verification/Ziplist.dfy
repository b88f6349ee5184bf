/**
  The ziplist of src/list/ziplist.c: its header fields, and deletion of a run of entries with the
  cascade of back length updates behind it.
*/
module Ziplist {
  import opened Wrappers
  import opened Bytes
  import opened ZiplistFormat
  import opened ZiplistCascade

  const UINT32_MAX := 0xffff_ffff

  // ---------------------------------------------------------------- positions and bodies

  /** Where the last entry starts, counted from the first. */
  function TailPos(es: seq<Entry>): nat {
    if es == [] then 0 else TotalLen(es[..|es| - 1])
  }

  /** The row behind an entry of length prev whose first entry has lost its old neighbour. */
  function Relink(rest: seq<Entry>, prev: nat): seq<Entry> {
    if rest == [] then []
    else
      var e := rest[0].(wide := NeedsWide(prev));
      [e] + Ripple(rest[1..], RawLen(e))
  }

  function RunEnd(es: seq<Entry>, i: nat, num: nat): (end: nat)
    requires i <= |es|
    ensures i <= end <= |es|
  {
    if num < |es| - i then i + num else |es|
  }

  /** What deleting num entries from index i leaves. */
  function Deleted(es: seq<Entry>, i: nat, num: nat): seq<Entry>
    requires i <= |es|
  {
    if RunEnd(es, i, num) == i then es else es[..i] + Relink(es[RunEnd(es, i, num)..], LastLen(es[..i], 0))
  }

  /** The encodings and data are the old ones without the run. */
  lemma DeletedBodies(es: seq<Entry>, i: nat, num: nat)
    requires i <= |es|
    ensures Bodies(Deleted(es, i, num)) == Bodies(es)[..i] + Bodies(es)[RunEnd(es, i, num)..]
  {
    var end := RunEnd(es, i, num);
    var rest := es[end..];
    if rest != [] {
      var e := rest[0].(wide := NeedsWide(LastLen(es[..i], 0)));
      RippleBodies(rest[1..], RawLen(e));
    }
  }

  /**
    The back lengths: the first entry behind the run gets exactly the room it needs, the others keep
    theirs and grow exactly behind an entry of 254 bytes or more.
  */
  lemma DeletedWidths(es: seq<Entry>, i: nat, num: nat, k: nat)
    requires i < |es| && Fits(es, 0) && num > 0 && k < |Deleted(es, i, num)|
    ensures var r, end := Deleted(es, i, num), RunEnd(es, i, num);
            && (k < i ==> r[k] == es[k])
            && |r| == i + |es| - end
            && (k == i ==> (r[k].wide <==> i > 0 && RawLen(es[i - 1]) >= 254))
            && (k > i ==> (r[k].wide <==> es[end + k - i].wide || RawLen(r[k - 1]) >= 254))
  {
    hide RawLen, BodyOk, Encode, Fits, Relink;
    var end := RunEnd(es, i, num);
    var rest, prev := es[end..], LastLen(es[..i], 0);
    assert es == es[..end] + rest;
    EncodeConcat(es[..end], rest, 0);
    RelinkWidths(rest, LastLen(es[..end], 0), prev, if k < i then 0 else k - i);
  }

  lemma RelinkWidths(rest: seq<Entry>, stored: nat, prev: nat, k: nat)
    requires Fits(rest, stored)
    ensures |Relink(rest, prev)| == |rest|
    ensures k == 0 && rest != [] ==> (Relink(rest, prev)[0].wide <==> prev >= 254)
    ensures 0 < k < |rest| ==> (Relink(rest, prev)[k].wide <==> rest[k].wide || RawLen(Relink(rest, prev)[k - 1]) >= 254)
  {
    hide RawLen, BodyOk;
    if rest != [] {
      var e := rest[0].(wide := NeedsWide(prev));
      RippleBodies(rest[1..], RawLen(e));
      if 0 < k < |rest| {
        RippleWidths(rest[1..], RawLen(rest[0]), RawLen(e), k - 1);
      }
    }
  }

  /** Every entry of a row stands at its offset, and reads back with the length of the one before. */
  lemma EntriesInPlace(es: seq<Entry>, j: nat, validatePrev: bool)
    requires Fits(es, 0) && j < |es|
    ensures BodyOk(es[j].body)
    ensures var d, p := Encode(es, 0) + [ZIP_END], TotalLen(es[..j]);
            && p < |d| && d[p] != ZIP_END
            && EntrySafe(d, p, validatePrev) == Some(InfoOf(es[j], LastLen(es[..j], 0)))
            && InfoOf(es[j], LastLen(es[..j], 0)).Raw() == RawLen(es[j])
            && InfoOf(es[j], LastLen(es[..j], 0)).prevLen == LastLen(es[..j], 0)
            && (j > 0 ==> p - LastLen(es[..j], 0) == TotalLen(es[..j - 1]))
  {
    hide EncodeOne, BodyOk, EntrySafe, RawLen;
    var d, p := Encode(es, 0) + [ZIP_END], TotalLen(es[..j]);
    var prev := LastLen(es[..j], 0);
    RowParts(d, es, j);
    var more := Encode(es[j + 1..], RawLen(es[j])) + [ZIP_END];
    PrevWithin(es, j);
    assert j > 0 ==> es[..j][..j - 1] == es[..j - 1];
    EntryReads(d, p, es[j], prev, more, validatePrev);
  }

  lemma PrevWithin(es: seq<Entry>, j: nat)
    requires j <= |es|
    ensures LastLen(es[..j], 0) <= TotalLen(es[..j])
    ensures TailPos(es[..j]) + LastLen(es[..j], 0) == TotalLen(es[..j])
  {
    hide RawLen;
    if j > 0 {
      TotalLenNext(es, j - 1);
      assert es[..j][..j - 1] == es[..j - 1];
    }
  }

  lemma TotalLenNext(es: seq<Entry>, j: nat)
    requires j < |es|
    ensures TotalLen(es[..j + 1]) == TotalLen(es[..j]) + RawLen(es[j])
  {
    hide RawLen;
    assert es[..j + 1] == es[..j] + [es[j]];
    TotalLenConcat(es[..j], [es[j]]);
    assert [es[j]][1..] == [];
  }

  lemma SplitRow(es: seq<Entry>, j: nat)
    requires Fits(es, 0) && j < |es|
    ensures Fits(es[..j], 0) && BodyOk(es[j].body) && LastLen(es[..j], 0) < UINT32_LIMIT
    ensures es[j].wide || LastLen(es[..j], 0) < BIG_PREVLEN
    ensures Fits(es[j..], LastLen(es[..j], 0)) && Fits(es[j + 1..], RawLen(es[j]))
    ensures |Encode(es[..j], 0)| == TotalLen(es[..j])
    ensures Encode(es, 0) == Encode(es[..j], 0) + Encode(es[j..], LastLen(es[..j], 0))
    ensures (Encode(es[j..], LastLen(es[..j], 0))
             == EncodeOne(es[j], LastLen(es[..j], 0)) + Encode(es[j + 1..], RawLen(es[j])))
  {
    hide EncodeOne, BodyOk, RawLen;
    assert es == es[..j] + es[j..];
    EncodeConcat(es[..j], es[j..], 0);
    EncodeLength(es[..j], 0);
    assert es[j..][0] == es[j] && es[j..][1..] == es[j + 1..];
  }

  lemma RowParts(d: seq<Byte>, es: seq<Entry>, j: nat)
    requires Fits(es, 0) && d == Encode(es, 0) + [ZIP_END] && j < |es|
    ensures Fits(es[..j], 0) && BodyOk(es[j].body) && LastLen(es[..j], 0) < UINT32_LIMIT
    ensures es[j].wide || LastLen(es[..j], 0) < BIG_PREVLEN
    ensures Fits(es[j + 1..], RawLen(es[j]))
    ensures TotalLen(es[..j]) < |d| && d[..TotalLen(es[..j])] == Encode(es[..j], 0)
    ensures (d[TotalLen(es[..j])..]
             == EncodeOne(es[j], LastLen(es[..j], 0)) + (Encode(es[j + 1..], RawLen(es[j])) + [ZIP_END]))
  {
    hide EncodeOne, BodyOk, RawLen, TotalLen, LastLen, Encode, Fits;
    SplitRow(es, j);
    var a, b, c := Encode(es[..j], 0), EncodeOne(es[j], LastLen(es[..j], 0)), Encode(es[j + 1..], RawLen(es[j]));
    assert d == a + (b + (c + [ZIP_END]));
  }

  // ---------------------------------------------------------------- the lengths of a grown row

  lemma {:induction false} GrownTotal(rest: seq<Entry>, k: nat, m: nat)
    requires k <= |rest| && m <= |rest| && (forall j | 0 <= j < k :: !rest[j].wide)
    ensures |WidenAll(rest[..k]) + rest[k..]| == |rest|
    ensures TotalLen((WidenAll(rest[..k]) + rest[k..])[..m]) == TotalLen(rest[..m]) + DELTA * (if m < k then m else k)
    decreases m
  {
    var row := WidenAll(rest[..k]) + rest[k..];
    if m > 0 {
      GrownTotal(rest, k, m - 1);
      TotalLenNext(rest, m - 1);
      TotalLenNext(row, m - 1);
    }
  }

  lemma {:induction false} TotalLenGrows(es: seq<Entry>, a: nat, b: nat)
    requires a <= b <= |es|
    ensures a < b ==> TotalLen(es[..a]) < TotalLen(es[..b])
    decreases b - a
  {
    if a < b {
      TotalLenNext(es, b - 1);
      TotalLenGrows(es, a, b - 1);
    }
  }

  /** How the tail moves when the first k entries of the row behind done grow. */
  lemma TailMoves(done: seq<Entry>, rest: seq<Entry>, row: seq<Entry>, k: nat)
    requires 0 < k <= |rest| && (forall j | 0 <= j < k :: !rest[j].wide) && row == WidenAll(rest[..k]) + rest[k..]
    ensures TailPos(done + rest) == TotalLen(done) + TotalLen(rest[..k - 1]) <==> k == |rest|
    ensures TailPos(done + row) == TailPos(done + rest) + DELTA * (if k == |rest| then k - 1 else k)
    ensures TotalLen(done + row) == TotalLen(done + rest) + DELTA * k
  {
    hide WidenAll, TotalLen, TailPos;
    GrownTotals(rest, row, k);
    TailMovesBy(done, rest, row, k);
  }

  lemma TailMovesBy(done: seq<Entry>, rest: seq<Entry>, row: seq<Entry>, k: nat)
    requires 0 < k <= |rest| == |row| && TotalLen(row) == TotalLen(rest) + DELTA * k
    requires (TotalLen(row[..|rest| - 1])
              == TotalLen(rest[..|rest| - 1]) + DELTA * (if k == |rest| then k - 1 else k))
    ensures TailPos(done + rest) == TotalLen(done) + TotalLen(rest[..k - 1]) <==> k == |rest|
    ensures TailPos(done + row) == TailPos(done + rest) + DELTA * (if k == |rest| then k - 1 else k)
    ensures TotalLen(done + row) == TotalLen(done + rest) + DELTA * k
  {
    hide TotalLen, TailPos;
    TailBehind(done, rest);
    TailBehind(done, row);
    TotalLenGrows(rest, k - 1, |rest| - 1);
  }

  lemma GrownTotals(rest: seq<Entry>, row: seq<Entry>, k: nat)
    requires 0 < k <= |rest| && (forall j | 0 <= j < k :: !rest[j].wide) && row == WidenAll(rest[..k]) + rest[k..]
    ensures |row| == |rest| && TotalLen(row) == TotalLen(rest) + DELTA * k
    ensures (TotalLen(row[..|rest| - 1])
             == TotalLen(rest[..|rest| - 1]) + DELTA * (if k == |rest| then k - 1 else k))
  {
    hide WidenAll, TotalLen;
    GrownTotal(rest, k, |rest| - 1);
    GrownTotal(rest, k, |rest|);
    assert rest[..|rest|] == rest && row[..|rest|] == row;
  }

  lemma TailBehind(done: seq<Entry>, rest: seq<Entry>)
    ensures TotalLen(done + rest) == TotalLen(done) + TotalLen(rest)
    ensures rest != [] ==> TailPos(done + rest) == TotalLen(done) + TotalLen(rest[..|rest| - 1])
  {
    hide TotalLen;
    TotalLenConcat(done, rest);
    if rest != [] {
      assert (done + rest)[..|done| + |rest| - 1] == done + rest[..|rest| - 1];
      TotalLenConcat(done, rest[..|rest| - 1]);
    }
  }

  // ---------------------------------------------------------------- the buffer around the rewrite

  /** The row so far is right; behind it, rest still stores a stale length of the entry before. */
  ghost predicate Pending(d: seq<Byte>, done: seq<Entry>, rest: seq<Entry>, stored: nat) {
    && Fits(done, 0) && Fits(rest, stored) && LastLen(done, 0) < UINT32_LIMIT
    && d == Encode(done, 0) + (Encode(rest, stored) + [ZIP_END])
  }

  lemma PendingParts(d: seq<Byte>, done: seq<Entry>, rest: seq<Entry>, stored: nat)
    requires Pending(d, done, rest, stored)
    ensures Fits(done, 0) && Fits(rest, stored) && |Encode(done, 0)| == TotalLen(done) <= |d|
    ensures d[..TotalLen(done)] == Encode(done, 0) && d[TotalLen(done)..] == Encode(rest, stored) + [ZIP_END]
    ensures |d| == TotalLen(done) + TotalLen(rest) + 1
  {
    EncodeLength(done, 0);
    EncodeLength(rest, stored);
  }

  lemma EncodeNone(prev: nat)
    requires prev < UINT32_LIMIT
    ensures Fits([], prev) && Encode([], prev) == []
  {
  }

  lemma PendingLast(d: seq<Byte>, done: seq<Entry>, rest: seq<Entry>, stored: nat)
    requires Pending(d, done, rest, stored) && done != []
    ensures TailPos(done) < |d| && d[TailPos(done)] != ZIP_END
    ensures EntrySafe(d, TailPos(done), false).Some?
    ensures EntrySafe(d, TailPos(done), false).value.Raw() == LastLen(done, 0)
    ensures TailPos(done) + LastLen(done, 0) == TotalLen(done)
  {
    hide EncodeOne, BodyOk, EntrySafe, InfoOf, RawLen, TotalLen, Encode;
    var j := |done| - 1;
    SplitRow(done, j);
    PrevWithin(done, |done|);
    assert done[..|done|] == done && done[j + 1..] == [];
    EncodeNone(RawLen(done[j]));
    var more := Encode(rest, stored) + [ZIP_END];
    var p := TotalLen(done[..j]);
    assert d[p..] == EncodeOne(done[j], LastLen(done[..j], 0)) + more;
    EntryReads(d, p, done[j], LastLen(done[..j], 0), more, false);
  }

  /** After the scan: the entries that grow still stand in place before the cut. */
  lemma ScannedPrefix(d: seq<Byte>, base: nat, rest: seq<Entry>, stored: nat, len: nat, k: nat, p: nat, prevlen: nat)
    requires Scanned(d, base, rest, stored, len, k, p, prevlen) && base <= |d|
    requires d[base..] == Encode(rest, stored) + [ZIP_END]
    ensures p <= |d| && Fits(rest[..k], stored) && prevlen == NewPrev(rest, len, k) && p == base + TotalLen(rest[..k])
    ensures d[..p] == d[..base] + Encode(rest[..k], stored)
    ensures forall j | 0 <= j < k :: !rest[j].wide && NeedsWide(NewPrev(rest, len, j))
  {
    hide Ripple, WidenAll, RawLen, BodyOk, EncodeOne;
    assert rest == rest[..k] + rest[k..];
    EncodeConcat(rest[..k], rest[k..], stored);
    EncodeLength(rest[..k], stored);
    var a := TotalLen(rest[..k]);
    assert d[base..][..a] == Encode(rest[..k], stored);
    assert d[..p] == d[..base] + d[base..][..a];
  }

  /** Resizing and moving the part behind the cut makes room for what grows. */
  lemma OpenGap(d: seq<Byte>, head: seq<Byte>, back: seq<Byte>, fill: seq<Byte>)
    requires d == head + (back + [ZIP_END])
    ensures var b := (d + fill)[|d + fill| - 1 := ZIP_END];
            var r := Move(b, |head| + |fill|, |head|, |back|);
            r[..|head|] == head && r[|head| + |fill|..] == back + [ZIP_END]
  {
  }

  lemma StartRewriting(b: seq<Byte>, before: seq<Byte>, rest: seq<Entry>, row: seq<Entry>, stored: nat, len: nat, k: nat, p: nat)
    requires k <= |rest| && row == WidenAll(rest[..k]) + rest[k..]
    requires Fits(rest[..k], stored) && Fits(rest[k..], NewPrev(rest, len, k))
    requires p == |before| + TotalLen(rest[..k]) && p + DELTA * k <= |b|
    requires b[..p] == before + Encode(rest[..k], stored)
    requires b[p + DELTA * k..] == Encode(rest[k..], NewPrev(rest, len, k)) + [ZIP_END]
    ensures Rewriting(b, before, rest, row, stored, len, k, p + DELTA * k)
  {
    assert row[k..] == rest[k..];
  }

  lemma StartGrown(rest: seq<Entry>, row: seq<Entry>, stored: nat, len: nat, k: nat)
    requires Fits(rest, stored) && Stale(stored, len) && len < UINT32_LIMIT && k <= |rest|
    requires row == Ripple(rest, len) == WidenAll(rest[..k]) + rest[k..] && TotalLen(row) < UINT32_LIMIT
    requires forall j | 0 <= j < k :: !rest[j].wide && NeedsWide(NewPrev(rest, len, j))
    ensures Grown(rest, row, stored, len, k)
  {
    hide Fits, TotalLen, RawLen;
    RippleFits(rest, stored, len);
  }

  /** The grown row closes the buffer again. */
  lemma Settled(d: seq<Byte>, done: seq<Entry>, row: seq<Entry>)
    requires Fits(done, 0) && Fits(row, LastLen(done, 0))
    requires d == Encode(done, 0) + (Encode(row, LastLen(done, 0)) + [ZIP_END])
    ensures Fits(done + row, 0) && d == Encode(done + row, 0) + [ZIP_END]
  {
    EncodeConcat(done, row, 0);
  }

  /** The count of 16 bits goes down unless it has given up. */
  ghost predicate CountedDown(before: nat, after: nat, deleted: nat) {
    after == if before < 65535 then before - deleted else before
  }

  class Ziplist {
    var bytes: nat
    var tail: nat
    var count: nat
    var data: seq<Byte>

    /** The fields and the bytes are those of the entries. */
    ghost predicate Holds(es: seq<Entry>)
      reads this
    {
      && Fits(es, 0) && data == Encode(es, 0) + [ZIP_END]
      && bytes == HEADER_SIZE + |data| < UINT32_MAX && tail == HEADER_SIZE + TailPos(es)
      && CountOk(es)
    }

    ghost predicate CountOk(es: seq<Entry>)
      reads this
    {
      (count == |es| && count < UINT16_MAX) || count == UINT16_MAX
    }

    /** The same in terms of the bytes alone: a row of these entries behind a header of ten bytes. */
    ghost predicate Stores(bodies: seq<seq<Byte>>)
      reads this
    {
      && IsRow(data, bodies, 0) && bytes == 10 + |data| < 0xffff_ffff && tail == 10 + LastAt(data, bodies)
      && ((count == |bodies| && count < 65535) || count == 65535)
    }

    lemma HoldsStores(es: seq<Entry>)
      requires Holds(es)
      ensures Stores(Bodies(es))
    {
      hide Encode, Fits;
      EntriesAreRow(es, 0);
      EntriesLastAt(es, 0);
    }

    lemma StoresHolds(bodies: seq<seq<Byte>>) returns (es: seq<Entry>)
      requires Stores(bodies)
      ensures Holds(es) && Bodies(es) == bodies
    {
      hide Encode, Fits;
      es := RowIsEntries(data, bodies, 0);
      EntriesLastAt(es, 0);
    }

    constructor ()
      ensures Holds([])
    {
      bytes := HEADER_SIZE + 1;
      tail := HEADER_SIZE;
      count := 0;
      data := [ZIP_END];
    }

    /** zip_list_resize: new bytes are whatever the allocator left there, except the end byte. */
    method Resize(len: nat) returns (ghost fill: seq<Byte>)
      requires HEADER_SIZE < len < UINT32_MAX
      modifies this`bytes, this`data
      ensures bytes == len && |data| == len - HEADER_SIZE
      ensures len - HEADER_SIZE >= |old(data)| ==> |fill| == len - HEADER_SIZE - |old(data)|
      ensures len - HEADER_SIZE >= |old(data)| ==> data == (old(data) + fill)[len - HEADER_SIZE - 1 := ZIP_END]
      ensures len - HEADER_SIZE < |old(data)| ==> data == old(data)[..len - HEADER_SIZE - 1] + [ZIP_END]
    {
      var size := len - HEADER_SIZE;
      if size >= |data| {
        var more := new Byte[size - |data|];
        fill := more[..];
        data := data + more[..];
      } else {
        fill := [];
        data := data[..size];
      }
      bytes := len;
      data := data[..size - 1] + [ZIP_END];
    }

    /** __zip_list_cascade_update, from an entry whose length has changed. */
    method CascadeUpdate(p: nat, ghost done: seq<Entry>, ghost rest: seq<Entry>, ghost stored: nat)
      requires Pending(data, done, rest, stored) && Stale(stored, LastLen(done, 0))
      requires if done != [] then p == TailPos(done) else rest == [] && p == 0
      requires bytes == HEADER_SIZE + |data| && tail == HEADER_SIZE + TailPos(done + rest)
      requires HEADER_SIZE + TotalLen(done + Ripple(rest, LastLen(done, 0))) + 1 < UINT32_MAX
      modifies this`bytes, this`tail, this`data
      ensures var es := done + Ripple(rest, LastLen(done, 0));
              && Fits(es, 0) && data == Encode(es, 0) + [ZIP_END]
              && bytes == HEADER_SIZE + |data| && tail == HEADER_SIZE + TailPos(es)
    {
      hide Pending, Encode, EncodeOne, BodyOk, EntrySafe, RawLen, Ripple, WidenAll, Stale, Scanned, Fits, TailPos, NewPrev,
        Rewriting, Grown, Move;
      ghost var len0 := LastLen(done, 0);
      PendingParts(data, done, rest, stored);
      CascadeAt(data, p, done, rest, stored);
      if data[p] == ZIP_END {
        CascadeNothing(data, p, done, rest, stored);
        return;
      }
      CascadeStart(data, p, done, rest, stored);
      var cur := EntryAt(data, p);
      var len: nat := cur.Raw();
      ghost var base := TotalLen(done);
      TotalLenConcat(done, Ripple(rest, len));
      ghost var d0 := data;
      var d, k, at, prevoffset; ghost var last;
      d, k, at, prevoffset, last := Scan(data, base, rest, stored, len, p + len, p);
      data := d;
      ScanLeaves(d0, d, done, rest, stored, len, k, at, last);
      if k == 0 {
        Settled(data, done, rest);
        CascadeStill(rest, len);
        return;
      }
      GrowFrom(done, rest, stored, len, k, at, prevoffset, last);
    }

    /** The part of the cascade behind the scan, for at least one entry that grows. */
    method GrowFrom(ghost done: seq<Entry>, ghost rest: seq<Entry>, ghost stored: nat, len: nat, k: nat, at: nat,
                    prevoffset: nat, ghost last: nat)
      requires 0 < k <= |rest| && len == LastLen(done, 0) < UINT32_LIMIT && Stale(stored, len)
      requires Fits(done, 0) && Fits(rest, stored) && Fits(rest[..k], stored) && Fits(rest[k..], last)
      requires last == NewPrev(rest, len, k) && at == TotalLen(done) + TotalLen(rest[..k])
      requires prevoffset == TotalLen(done) + TotalLen(rest[..k - 1])
      requires Ripple(rest, len) == WidenAll(rest[..k]) + rest[k..]
      requires forall j | 0 <= j < k :: !rest[j].wide && NeedsWide(NewPrev(rest, len, j))
      requires data == Encode(done, 0) + Encode(rest[..k], stored) + (Encode(rest[k..], last) + [ZIP_END])
      requires bytes == HEADER_SIZE + |data| && |data| == TotalLen(done) + TotalLen(rest) + 1
      requires tail == HEADER_SIZE + TailPos(done + rest)
      requires HEADER_SIZE + TotalLen(done + Ripple(rest, len)) + 1 < UINT32_MAX
      modifies this`bytes, this`tail, this`data
      ensures var es := done + Ripple(rest, len);
              && Fits(es, 0) && data == Encode(es, 0) + [ZIP_END]
              && bytes == HEADER_SIZE + |data| && tail == HEADER_SIZE + TailPos(es)
    {
      hide Encode, EncodeOne, BodyOk, EntrySafe, RawLen, Ripple, WidenAll, Stale, Fits, TailPos, NewPrev, Rewriting, Grown, Move;
      ghost var row := Ripple(rest, len);
      var extra := DELTA * k;
      TailMoves(done, rest, row, k);
      TotalLenConcat(done, rest);
      TotalLenConcat(done, row);
      EncodeLength(done, 0);
      EncodeLength(rest[..k], stored);
      if tail == HEADER_SIZE + prevoffset {
        if extra - DELTA != 0 {
          tail := tail + extra - DELTA;
        }
      } else {
        tail := tail + extra;
      }
      var curlen := bytes;
      ghost var head, back := Encode(done, 0) + Encode(rest[..k], stored), Encode(rest[k..], last);
      ghost var d0 := data;
      ghost var fill := Resize(curlen + extra);
      assert d0 == head + (back + [ZIP_END]) && |fill| == extra;
      OpenGap(d0, head, back, fill);
      var q := at + extra;
      data := Move(data, q, at, curlen - HEADER_SIZE - at - 1);
      StartRewriting(data, Encode(done, 0), rest, row, stored, len, k, at);
      StartGrown(rest, row, stored, len, k);
      ghost var size := |data|;
      data := Rewrite(data, Encode(done, 0), rest, row, stored, len, k, q, prevoffset);
      GrownRow(rest, row, stored, len, k);
      Settled(data, done, row);
      EncodeLength(done + row, 0);
    }

    /** The loop that finds the end of the run. */
    method Skip(p: nat, num: nat, ghost es: seq<Entry>, ghost i: nat) returns (q: nat, deleted: nat)
      requires Fits(es, 0) && data == Encode(es, 0) + [ZIP_END] && i <= |es| && p == TotalLen(es[..i])
      ensures i + deleted == RunEnd(es, i, num) && q == TotalLen(es[..i + deleted]) && q < |data|
      ensures data[q] == ZIP_END <==> i + deleted == |es|
    {
      hide Encode, EncodeOne, BodyOk, EntrySafe, RawLen, Fits, TotalLen, InfoOf;
      q, deleted := p, 0;
      RowAt(data, es, i);
      while data[q] != ZIP_END && deleted < num
        invariant i + deleted <= |es| && deleted <= num && q == TotalLen(es[..i + deleted]) && q < |data|
        invariant data[q] == ZIP_END <==> i + deleted == |es|
        decreases |es| - i - deleted
      {
        EntriesInPlace(es, i + deleted, false);
        TotalLenNext(es, i + deleted);
        RowAt(data, es, i + deleted + 1);
        q := q + EntryAt(data, q).Raw();
        deleted := deleted + 1;
      }
    }

    /** The part of __zip_list_delete for a run with entries behind it, up to the resize. */
    method Close(p: nat, q: nat, prev: nat, ghost es: seq<Entry>, ghost i: nat, ghost end: nat)
      returns (nextdiff: int, setTail: nat)
      requires Fits(es, 0) && data == Encode(es, 0) + [ZIP_END] && i < end < |es|
      requires bytes == HEADER_SIZE + |data| && tail == HEADER_SIZE + TailPos(es)
      requires p == TotalLen(es[..i]) && q == TotalLen(es[..end]) && prev == LastLen(es[..i], 0)
      modifies this`data
      ensures nextdiff == PrevSize(NeedsWide(prev)) - PrevSize(es[end].wide) && p < q - nextdiff <= |data| - 1
      ensures Fits(es[end + 1..], RawLen(es[end])) && prev < UINT32_LIMIT && |data| == |old(data)|
      ensures var e := es[end].(wide := NeedsWide(prev));
              && setTail == HEADER_SIZE + TailPos(es[..i] + [e] + es[end + 1..])
              && data[..p + (|data| - 1 - (q - nextdiff))] + [ZIP_END]
                 == old(data)[..p] + (EncodeOne(e, prev) + (Encode(es[end + 1..], RawLen(es[end])) + [ZIP_END]))
    {
      hide Encode, EncodeOne, BodyOk, EntrySafe, RawLen, Fits, Store, Move, TotalLen, TailPos, LastLen;
      var wide := NeedsWide(prev);
      RowByte(data, es, end);
      nextdiff := PrevSize(wide) - DecodePrevSize(data[q]);
      CloseRoom(es, i, end);
      CloseBytes(data, es, i, end, prev);
      var at: nat := q - nextdiff;
      data := Store(data, at, wide, prev);
      CloseTail(es, i, end, prev);
      var newTail: int := tail - (q - p);
      var info := EntrySafe(data, at, true);
      assert info.Some?;
      if data[at + info.value.Raw()] != ZIP_END {
        newTail := newTail + nextdiff;
      }
      setTail := newTail;
      var n := bytes - HEADER_SIZE - at - 1;
      data := Move(data, p, at, n);
    }

    /** __zip_list_delete: removes up to num entries from the one at p on. */
    method Delete(p: nat, num: nat, ghost es: seq<Entry>, ghost i: nat)
      requires Holds(es) && i < |es| && p == TotalLen(es[..i])
      requires HEADER_SIZE + TotalLen(Deleted(es, i, num)) + 1 < UINT32_MAX
      modifies this
      ensures Holds(Deleted(es, i, num))
      ensures Stores(Bodies(es)[..i] + Bodies(es)[if num < |es| - i then i + num else |es|..])
      ensures count == if old(count) < 65535 then old(count) - (if num < |es| - i then num else |es| - i) else old(count)
    {
      DeleteEntries(p, num, es, i);
      DeletedBodies(es, i, num);
      HoldsStores(Deleted(es, i, num));
    }

    method DeleteEntries(p: nat, num: nat, ghost es: seq<Entry>, ghost i: nat)
      requires Holds(es) && i < |es| && p == TotalLen(es[..i])
      requires HEADER_SIZE + TotalLen(Deleted(es, i, num)) + 1 < UINT32_MAX
      modifies this
      ensures Holds(Deleted(es, i, num)) && CountedDown(old(count), count, RunEnd(es, i, num) - i)
    {
      hide Encode, EncodeOne, BodyOk, EntrySafe, RawLen, Fits, TotalLen, TailPos, LastLen, Deleted, Bodies, InfoOf;
      EntriesInPlace(es, i, false);
      var first := EntryAt(data, p);
      var q, deleted := Skip(p, num, es, i);
      TotalLenGrows(es, i, i + deleted);
      var totlen := q - p;
      if totlen > 0 {
        if data[q] != ZIP_END {
          DeleteMiddle(p, q, first.prevLen, deleted, num, es, i);
        } else {
          assert es[..i + deleted] == es;
          DeleteEnd(p, q, first.prevLen, deleted, num, es, i);
        }
      } else {
        DeleteNone(es, i, num);
      }
    }

    method CountDown(deleted: nat, ghost es: seq<Entry>, ghost left: seq<Entry>)
      requires CountOk(es) && |left| + deleted == |es|
      modifies this`count
      ensures CountOk(left) && CountedDown(old(count), count, deleted)
    {
      if count < UINT16_MAX {
        count := count - deleted;
      }
    }

    method DeleteEnd(p: nat, q: nat, prev: nat, deleted: nat, ghost num: nat, ghost es: seq<Entry>, ghost i: nat)
      requires Holds(es) && i < |es| && RunEnd(es, i, num) == |es| == i + deleted
      requires p == TotalLen(es[..i]) && q == TotalLen(es) && prev == LastLen(es[..i], 0)
      modifies this
      ensures Holds(Deleted(es, i, num)) && CountedDown(old(count), count, deleted)
    {
      hide Encode, EncodeOne, BodyOk, RawLen, Fits, TotalLen, TailPos, LastLen, Deleted;
      PrevWithin(es, i);
      SplitRow(es, i);
      EncodeLength(es, 0);
      CutRow(data, es, i);
      var setTail := p + HEADER_SIZE - prev;
      DeletedEnd(es, i, num);
      assert q == |data| - 1;
      var zlbytes := bytes - (q - p);
      ghost var junk := Resize(zlbytes);
      CountDown(deleted, es, es[..i]);
      assert setTail <= zlbytes - 1;
      tail := setTail;
    }

    method DeleteMiddle(p: nat, q: nat, prev: nat, deleted: nat, ghost num: nat, ghost es: seq<Entry>, ghost i: nat)
      requires Holds(es) && i < |es| && i + deleted == RunEnd(es, i, num) < |es| && deleted > 0
      requires p == TotalLen(es[..i]) && q == TotalLen(es[..i + deleted]) && prev == LastLen(es[..i], 0)
      requires HEADER_SIZE + TotalLen(Deleted(es, i, num)) + 1 < UINT32_MAX
      modifies this
      ensures Holds(Deleted(es, i, num)) && CountedDown(old(count), count, deleted)
    {
      hide Encode, EncodeOne, BodyOk, RawLen, Fits, TotalLen, TailPos, LastLen, Deleted, Ripple, Pending;
      ghost var end := i + deleted;
      ghost var e := es[end].(wide := NeedsWide(prev));
      ghost var done, rest := es[..i] + [e], es[end + 1..];
      ghost var d0 := data;
      var nextdiff, setTail := Close(p, q, prev, es, i, end);
      var zlbytes := bytes - (q - p - nextdiff);
      RelinkedSize(es, i, num, prev);
      ghost var d := data[..p + (|data| - 1 - (q - nextdiff))] + [ZIP_END];
      Relinked(d0, d, es, i, end, prev, e);
      PendingParts(d, done, rest, RawLen(es[end]));
      ResizeSize(es, i, num, prev);
      ghost var junk := Resize(zlbytes);
      CountDown(deleted, es, done + rest);
      TailWithin(done, rest);
      assert setTail <= zlbytes - 1;
      tail := setTail;
      SameCount(es, i, num, prev);
      if nextdiff != 0 {
        CascadeUpdate(p, done, rest, RawLen(es[end]));
      } else {
        Settled(data, done, rest);
        CascadeStill(rest, LastLen(done, 0));
      }
      EncodeLength(done + Ripple(rest, LastLen(done, 0)), 0);
    }
  }

  lemma GrownRow(rest: seq<Entry>, row: seq<Entry>, stored: nat, len: nat, k: nat)
    requires Grown(rest, row, stored, len, k)
    ensures Fits(row, len)
  {
  }

  lemma CascadeAt(d: seq<Byte>, p: nat, done: seq<Entry>, rest: seq<Entry>, stored: nat)
    requires Pending(d, done, rest, stored)
    requires if done != [] then p == TailPos(done) else rest == [] && p == 0
    ensures p < |d|
  {
    if done != [] {
      PendingLast(d, done, rest, stored);
    }
  }

  lemma CascadeNothing(d: seq<Byte>, p: nat, done: seq<Entry>, rest: seq<Entry>, stored: nat)
    requires Pending(d, done, rest, stored) && p < |d| && d[p] == ZIP_END
    requires if done != [] then p == TailPos(done) else rest == [] && p == 0
    ensures done == [] && Ripple(rest, LastLen(done, 0)) == [] && Fits([], 0) && d == Encode([], 0) + [ZIP_END]
  {
    if done != [] {
      PendingLast(d, done, rest, stored);
    }
  }

  lemma CascadeStart(d: seq<Byte>, p: nat, done: seq<Entry>, rest: seq<Entry>, stored: nat)
    requires Pending(d, done, rest, stored) && p < |d| && d[p] != ZIP_END
    requires if done != [] then p == TailPos(done) else rest == [] && p == 0
    ensures done != [] && EntrySafe(d, p, false).Some? && EntrySafe(d, p, false).value.Raw() == LastLen(done, 0) < UINT32_LIMIT
    ensures p + LastLen(done, 0) == TotalLen(done)
  {
    hide EntrySafe, RawLen, EncodeOne, BodyOk;
    if done != [] {
      PendingLast(d, done, rest, stored);
    }
  }

  lemma ScanLeaves(d0: seq<Byte>, d: seq<Byte>, done: seq<Entry>, rest: seq<Entry>, stored: nat, len: nat, k: nat, at: nat, last: nat)
    requires Pending(d0, done, rest, stored)
    requires Scanned(d0, TotalLen(done), rest, stored, len, k, at, last)
    requires Fits(rest[k..], last) && d == d0[..at] + (Encode(rest[k..], last) + [ZIP_END])
    ensures k <= |rest| && last == NewPrev(rest, len, k) && at == TotalLen(done) + TotalLen(rest[..k]) && Fits(rest[..k], stored)
    ensures forall j | 0 <= j < k :: !rest[j].wide && NeedsWide(NewPrev(rest, len, j))
    ensures d == Encode(done, 0) + Encode(rest[..k], stored) + (Encode(rest[k..], last) + [ZIP_END])
    ensures |d| == TotalLen(done) + TotalLen(rest) + 1
    ensures k == 0 ==> Fits(rest, len) && d == Encode(done, 0) + (Encode(rest, len) + [ZIP_END])
  {
    hide Encode, EncodeOne, BodyOk, RawLen, Ripple, WidenAll;
    PendingParts(d0, done, rest, stored);
    ScannedPrefix(d0, TotalLen(done), rest, stored, len, k, at, last);
    EncodeLength(rest[..k], stored);
    EncodeLength(rest[k..], last);
    assert rest == rest[..k] + rest[k..];
    TotalLenConcat(rest[..k], rest[k..]);
    if k == 0 {
      assert rest[..0] == [] && rest[0..] == rest;
      assert |Encode(rest[..0], stored)| == 0;
    }
  }

  /** A row that fits already does not change. */
  lemma CascadeStill(rest: seq<Entry>, len: nat)
    requires Fits(rest, len)
    ensures Ripple(rest, len) == rest
  {
  }

  // ---------------------------------------------------------------- deletion on the bytes

  lemma RowAt(d: seq<Byte>, es: seq<Entry>, j: nat)
    requires Fits(es, 0) && d == Encode(es, 0) + [ZIP_END] && j <= |es|
    ensures TotalLen(es[..j]) < |d| && (d[TotalLen(es[..j])] == ZIP_END <==> j == |es|)
  {
    if j < |es| {
      EntriesInPlace(es, j, false);
    } else {
      assert es[..j] == es;
      EncodeLength(es, 0);
    }
  }

  lemma RowByte(d: seq<Byte>, es: seq<Entry>, j: nat)
    requires Fits(es, 0) && d == Encode(es, 0) + [ZIP_END] && j < |es|
    ensures TotalLen(es[..j]) < |d| && DecodePrevSize(d[TotalLen(es[..j])]) == PrevSize(es[j].wide)
  {
    hide EncodeOne, BodyOk, RawLen, TotalLen, LastLen, Encode, Fits;
    RowParts(d, es, j);
    var p, prev := TotalLen(es[..j]), LastLen(es[..j], 0);
    var more := Encode(es[j + 1..], RawLen(es[j])) + [ZIP_END];
    ReadEntry(d[p..], es[j], prev, more);
    assert d[p..][0] == d[p];
  }

  /** A wide back length that is needed again was stored by the first entry of the run. */
  lemma CloseRoom(es: seq<Entry>, i: nat, end: nat)
    requires Fits(es, 0) && i < end <= |es|
    ensures var prev := LastLen(es[..i], 0);
            && prev < UINT32_LIMIT && TotalLen(es[..i]) + 1 < TotalLen(es[..end])
            && (NeedsWide(prev) ==> TotalLen(es[..i]) + 5 < TotalLen(es[..end]))
  {
    hide TotalLen, LastLen, Encode, EncodeOne;
    SplitRow(es, i);
    TotalLenNext(es, i);
    TotalLenGrows(es, i + 1, end);
  }

  /** Writing the new back length in front of the next entry's body. */
  lemma CloseBytes(d: seq<Byte>, es: seq<Entry>, i: nat, end: nat, prev: nat)
    requires Fits(es, 0) && d == Encode(es, 0) + [ZIP_END] && i < end < |es| && prev == LastLen(es[..i], 0)
    ensures prev < UINT32_LIMIT && Fits(es[end + 1..], RawLen(es[end])) && BodyOk(es[end].body)
    ensures var p, q, wide := TotalLen(es[..i]), TotalLen(es[..end]), NeedsWide(prev);
            var e, more := es[end].(wide := wide), Encode(es[end + 1..], RawLen(es[end])) + [ZIP_END];
            var at := q - PrevSize(wide) + PrevSize(es[end].wide);
            && p < at && at + PrevSize(wide) <= |d| && at < |d|
            && var s := Store(d, at, wide, prev);
               && s[..p] == d[..p] && s[at..] == EncodeOne(e, prev) + more
               && EntrySafe(s, at, true) == Some(InfoOf(e, prev)) && InfoOf(e, prev).Raw() == RawLen(e)
               && at + RawLen(e) < |s| && (s[at + RawLen(e)] == ZIP_END <==> end + 1 == |es|)
               && Move(s, p, at, |s| - 1 - at)[..p + (|s| - 1 - at)] + [ZIP_END] == d[..p] + (EncodeOne(e, prev) + more)
  {
    hide Encode, BodyOk, EntrySafe, InfoOf, RawLen, TotalLen, LastLen, EncodeOne, Move, Fits, Store;
    RowParts(d, es, end);
    CloseRoom(es, i, end);
    PrevWithin(es, i);
    var rest := es[end + 1..];
    FirstByte(rest, RawLen(es[end]));
    CloseAt(d, TotalLen(es[..i]), TotalLen(es[..end]), es[end], LastLen(es[..end], 0), prev, Encode(rest, RawLen(es[end])));
  }

  lemma CloseAt(d: seq<Byte>, p: nat, q: nat, e0: Entry, stored: nat, prev: nat, row: seq<Byte>)
    requires q <= |d| && stored < UINT32_LIMIT && (e0.wide || stored < BIG_PREVLEN) && prev < UINT32_LIMIT && BodyOk(e0.body)
    requires d[q..] == EncodeOne(e0, stored) + (row + [ZIP_END])
    requires p + 1 < q && (NeedsWide(prev) ==> p + 5 < q) && prev <= p
    ensures var wide := NeedsWide(prev);
            var e, at := e0.(wide := wide), q - PrevSize(wide) + PrevSize(e0.wide);
            && p < at && at + PrevSize(wide) <= |d| && at < |d|
            && var s := Store(d, at, wide, prev);
               && s[..p] == d[..p] && s[at..] == EncodeOne(e, prev) + (row + [ZIP_END])
               && EntrySafe(s, at, true) == Some(InfoOf(e, prev)) && InfoOf(e, prev).Raw() == RawLen(e)
               && at + RawLen(e) < |s| && s[at + RawLen(e)] == (row + [ZIP_END])[0]
               && Move(s, p, at, |s| - 1 - at)[..p + (|s| - 1 - at)] + [ZIP_END] == d[..p] + (EncodeOne(e, prev) + (row + [ZIP_END]))
  {
    hide BodyOk, EntrySafe, InfoOf, RawLen, EncodeOne, Move, Store;
    var wide, more := NeedsWide(prev), row + [ZIP_END];
    var e, at: nat := e0.(wide := wide), q - PrevSize(wide) + PrevSize(e0.wide);
    StoreBefore(d, p, q, e0, stored, prev, more);
    var s := Store(d, at, wide, prev);
    EntryReads(s, at, e, prev, more, true);
    assert s[at + RawLen(e)] == s[at..][RawLen(e)] == more[0];
    assert EncodeOne(e, prev) + more == (EncodeOne(e, prev) + row) + [ZIP_END];
    Slide(s, p, at, EncodeOne(e, prev) + row);
  }

  lemma FirstByte(es: seq<Entry>, prev: nat)
    requires Fits(es, prev)
    ensures (Encode(es, prev) + [ZIP_END])[0] == ZIP_END <==> es == []
  {
    if es != [] {
      assert Encode(es, prev)[0] == EncodeOne(es[0], prev)[0];
    }
  }

  lemma StoreBefore(d: seq<Byte>, p: nat, q: nat, e: Entry, stored: nat, prev: nat, more: seq<Byte>)
    requires q <= |d| && stored < UINT32_LIMIT && (e.wide || stored < BIG_PREVLEN) && prev < UINT32_LIMIT
    requires d[q..] == EncodeOne(e, stored) + more
    requires p < q - PrevSize(NeedsWide(prev)) + PrevSize(e.wide)
    ensures var at: nat := q - PrevSize(NeedsWide(prev)) + PrevSize(e.wide);
            && at + PrevSize(NeedsWide(prev)) <= |d|
            && var s := Store(d, at, NeedsWide(prev), prev);
               s[..p] == d[..p] && s[at..] == EncodeOne(e.(wide := NeedsWide(prev)), prev) + more
  {
    hide PrevBytes;
    var wide := NeedsWide(prev);
    var at: nat := q - PrevSize(wide) + PrevSize(e.wide);
    assert |d[q..]| == |d| - q;
    var behind := q + PrevSize(e.wide);
    assert at + PrevSize(wide) == behind;
    Behind(d, q, PrevBytes(e.wide, stored), e.body, more);
    StoreParts(d, p, at, wide, prev);
  }

  lemma Behind(d: seq<Byte>, q: nat, head: seq<Byte>, body: seq<Byte>, more: seq<Byte>)
    requires q <= |d| && d[q..] == (head + body) + more
    ensures q + |head| <= |d| && d[q + |head|..] == body + more
  {
    assert |d[q..]| == |d| - q;
    assert d[q + |head|..] == d[q..][|head|..];
  }

  lemma StoreParts(d: seq<Byte>, p: nat, at: nat, wide: bool, len: nat)
    requires len < UINT32_LIMIT && (wide || len < BIG_PREVLEN) && at + PrevSize(wide) <= |d| && p <= at
    ensures Store(d, at, wide, len)[..p] == d[..p]
    ensures Store(d, at, wide, len)[at..] == PrevBytes(wide, len) + d[at + PrevSize(wide)..]
  {
    hide PrevBytes;
  }

  lemma Slide(s: seq<Byte>, p: nat, at: nat, row: seq<Byte>)
    requires p < at < |s| && s[at..] == row + [ZIP_END]
    ensures Move(s, p, at, |s| - 1 - at)[..p + (|s| - 1 - at)] + [ZIP_END] == s[..p] + (row + [ZIP_END])
  {
    var n := |s| - 1 - at;
    assert |s[at..]| == n + 1;
    assert s[at..at + n] == s[at..][..n] == row;
    assert Move(s, p, at, n)[..p + n] == s[..p] + row;
  }

  /** Where the last entry is once the run is gone and the next entry has its new back length. */
  lemma CloseTail(es: seq<Entry>, i: nat, end: nat, prev: nat)
    requires i < end < |es|
    ensures var e := es[end].(wide := NeedsWide(prev));
            var nextdiff := PrevSize(NeedsWide(prev)) - PrevSize(es[end].wide);
            TailPos(es[..i] + [e] + es[end + 1..])
            == TailPos(es) - (TotalLen(es[..end]) - TotalLen(es[..i])) + (if end + 1 == |es| then 0 else nextdiff)
  {
    hide TotalLen, TailPos;
    var e, rest := es[end].(wide := NeedsWide(prev)), es[end + 1..];
    assert es == es[..end] + [es[end]] + rest;
    TailOfParts(es[..end], es[end], rest);
    TailOfParts(es[..i], e, rest);
  }

  lemma TailOfParts(a: seq<Entry>, e: Entry, rest: seq<Entry>)
    ensures (TailPos(a + [e] + rest)
             == TotalLen(a) + (if rest == [] then 0 else RawLen(e) + TotalLen(rest[..|rest| - 1])))
  {
    hide RawLen, TailPos;
    TailBehind(a + [e], rest);
    TailBehind(a, [e]);
    assert [e][..0] == [] && [e][1..] == [];
    assert rest == [] ==> a + [e] + rest == a + [e];
  }

  /** The buffer behind the closed gap: right up to the entry with the new back length. */
  lemma Relinked(d0: seq<Byte>, d: seq<Byte>, es: seq<Entry>, i: nat, end: nat, prev: nat, e: Entry)
    requires Fits(es, 0) && d0 == Encode(es, 0) + [ZIP_END] && i < end < |es| && prev == LastLen(es[..i], 0)
    requires prev < UINT32_LIMIT && TotalLen(es[..i]) <= |d0|
    requires e == es[end].(wide := NeedsWide(prev)) && RawLen(e) < UINT32_LIMIT
    requires Fits(es[end + 1..], RawLen(es[end]))
    requires (d == d0[..TotalLen(es[..i])]
                   + (EncodeOne(e, prev) + (Encode(es[end + 1..], RawLen(es[end])) + [ZIP_END])))
    ensures Pending(d, es[..i] + [e], es[end + 1..], RawLen(es[end]))
    ensures LastLen(es[..i] + [e], 0) == RawLen(e) && TailPos(es[..i] + [e]) == TotalLen(es[..i])
    ensures Stale(RawLen(es[end]), RawLen(e))
  {
    hide EncodeOne, BodyOk, Encode, Fits, TotalLen;
    RowParts(d0, es, i);
    RowParts(d0, es, end);
    EncodeConcat(es[..i], [e], 0);
    EncodeSingle(e, prev);
    assert (es[..i] + [e])[..i] == es[..i];
    Regroup(Encode(es[..i], 0), EncodeOne(e, prev), Encode(es[end + 1..], RawLen(es[end])) + [ZIP_END]);
  }

  lemma Regroup(a: seq<Byte>, b: seq<Byte>, c: seq<Byte>)
    ensures a + (b + c) == (a + b) + c
  {
  }

  lemma EncodeSingle(e: Entry, prev: nat)
    requires prev < UINT32_LIMIT && (e.wide || prev < BIG_PREVLEN) && BodyOk(e.body) && RawLen(e) < UINT32_LIMIT
    ensures Fits([e], prev) && Encode([e], prev) == EncodeOne(e, prev)
  {
    assert [e][1..] == [];
  }

  lemma CutRow(d: seq<Byte>, es: seq<Entry>, i: nat)
    requires Fits(es, 0) && d == Encode(es, 0) + [ZIP_END] && i < |es|
    ensures Fits(es[..i], 0) && TotalLen(es[..i]) < |d| - 1
    ensures d[..TotalLen(es[..i])] + [ZIP_END] == Encode(es[..i], 0) + [ZIP_END]
  {
    hide EncodeOne, BodyOk, RawLen, Encode, TotalLen, Fits, LastLen;
    RowParts(d, es, i);
    EncodeLength(es, 0);
    TotalLenGrows(es, i, |es|);
    assert es[..|es|] == es;
  }

  // ---------------------------------------------------------------- deletion on the entries

  lemma DeleteNone(es: seq<Entry>, i: nat, num: nat)
    requires i <= |es| && RunEnd(es, i, num) == i
    ensures Deleted(es, i, num) == es
  {
  }

  lemma DeletedEnd(es: seq<Entry>, i: nat, num: nat)
    requires i < |es| && RunEnd(es, i, num) == |es|
    ensures Deleted(es, i, num) == es[..i]
  {
  }

  lemma SameCount(es: seq<Entry>, i: nat, num: nat, prev: nat)
    requires i < |es| && i < RunEnd(es, i, num) < |es| && prev == LastLen(es[..i], 0)
    ensures var end := RunEnd(es, i, num);
            var done, rest := es[..i] + [es[end].(wide := NeedsWide(prev))], es[end + 1..];
            && Deleted(es, i, num) == done + Ripple(rest, LastLen(done, 0))
            && |Deleted(es, i, num)| == |done + rest|
  {
    hide RawLen, Ripple;
    var end := RunEnd(es, i, num);
    var e := es[end].(wide := NeedsWide(prev));
    RelinkSplits(es[end], es[end + 1..], es[end..], prev);
    RippleBodies(es[end + 1..], RawLen(e));
    assert es[..i] + ([e] + Ripple(es[end + 1..], RawLen(e))) == (es[..i] + [e]) + Ripple(es[end + 1..], RawLen(e));
  }

  lemma RelinkSplits(e: Entry, rest: seq<Entry>, all: seq<Entry>, prev: nat)
    requires all == [e] + rest
    ensures Relink(all, prev) == [e.(wide := NeedsWide(prev))] + Ripple(rest, RawLen(e.(wide := NeedsWide(prev))))
  {
    hide Ripple, RawLen;
    assert all[1..] == rest;
  }

  lemma {:induction false} RippleNoShorter(es: seq<Entry>, len: nat)
    ensures TotalLen(Ripple(es, len)) >= TotalLen(es)
    decreases |es|
  {
    if es != [] && NeedsWide(len) && !es[0].wide {
      RippleNoShorter(es[1..], RawLen(es[0]) + DELTA);
      TotalLenConcat([Widen(es[0])], Ripple(es[1..], RawLen(es[0]) + DELTA));
      assert [Widen(es[0])][1..] == [];
    }
  }

  /** The sizes on the way stay below the final one. */
  lemma ResizeSize(es: seq<Entry>, i: nat, num: nat, prev: nat)
    requires i < |es| && i < RunEnd(es, i, num) < |es| && prev == LastLen(es[..i], 0)
    ensures var end := RunEnd(es, i, num);
            var done, rest := es[..i] + [es[end].(wide := NeedsWide(prev))], es[end + 1..];
            TotalLen(done) + TotalLen(rest) <= TotalLen(Deleted(es, i, num))
  {
    hide RawLen, Ripple;
    var end := RunEnd(es, i, num);
    var done, rest := es[..i] + [es[end].(wide := NeedsWide(prev))], es[end + 1..];
    SameCount(es, i, num, prev);
    RippleNoShorter(rest, LastLen(done, 0));
    TotalLenConcat(done, Ripple(rest, LastLen(done, 0)));
  }

  lemma RelinkedSize(es: seq<Entry>, i: nat, num: nat, prev: nat)
    requires i < |es| && i < RunEnd(es, i, num) < |es| && prev == LastLen(es[..i], 0)
    requires TotalLen(Deleted(es, i, num)) < UINT32_LIMIT
    ensures RawLen(es[RunEnd(es, i, num)].(wide := NeedsWide(prev))) < UINT32_LIMIT
  {
    hide RawLen;
    var end := RunEnd(es, i, num);
    var e := es[end].(wide := NeedsWide(prev));
    ResizeSize(es, i, num, prev);
    TotalLenConcat(es[..i], [e]);
    assert [e][1..] == [];
  }

  lemma TailWithin(done: seq<Entry>, rest: seq<Entry>)
    ensures TailPos(done + rest) <= TotalLen(done) + TotalLen(rest)
  {
    hide TotalLen;
    var es := done + rest;
    TotalLenConcat(done, rest);
    if es != [] {
      TotalLenGrows(es, |es| - 1, |es|);
      assert es[..|es|] == es;
    }
  }
}
