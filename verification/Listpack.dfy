/**
  The listpack of src/listpack/listpack.c: one buffer edited in place that must act like a sequence
  of elements, walked in both directions.
*/
module Listpack {
  import opened Wrappers
  import opened Bytes
  import opened ListpackNumber
  import opened ListpackFormat

  // ---------------------------------------------------------------- rows of entries

  function EntryBytes(b: seq<Byte>): (r: seq<Byte>)
    ensures |r| == |b| + BacklenBytes(|b|)
  {
    b + Backlen(|b|)
  }

  function Row(es: seq<seq<Byte>>): seq<Byte> {
    if es == [] then [] else EntryBytes(es[0]) + Row(es[1..])
  }

  predicate AllOk(es: seq<seq<Byte>>) {
    forall i | 0 <= i < |es| :: BodyOk(es[i])
  }

  lemma {:induction false} RowConcat(a: seq<seq<Byte>>, b: seq<seq<Byte>>)
    ensures Row(a + b) == Row(a) + Row(b)
    decreases |a|
  {
    hide EntryBytes;
    if a == [] {
      assert a + b == b;
    } else {
      assert (a + b)[1..] == a[1..] + b;
      RowConcat(a[1..], b);
    }
  }

  // ---------------------------------------------------------------- the header

  function GetTotal(lp: seq<Byte>): nat
    requires |lp| >= LP_HDR_SIZE
  {
    FromLittle(lp[..4])
  }

  function GetCount(lp: seq<Byte>): nat
    requires |lp| >= LP_HDR_SIZE
  {
    FromLittle(lp[4..6])
  }

  function SetTotal(lp: seq<Byte>, v: nat): (r: seq<Byte>)
    requires |lp| >= LP_HDR_SIZE
    ensures |r| == |lp|
  {
    Little(v, 4) + lp[4..]
  }

  function SetCount(lp: seq<Byte>, v: nat): (r: seq<Byte>)
    requires |lp| >= LP_HDR_SIZE
    ensures |r| == |lp|
  {
    lp[..4] + Little(v, 2) + lp[6..]
  }

  lemma HeaderSet(lp: seq<Byte>, total: nat, count: nat)
    requires |lp| >= LP_HDR_SIZE
    ensures var r := SetTotal(lp, total);
            && r[6..] == lp[6..] && r[4..6] == lp[4..6] && (total <= UINT32_MAX ==> GetTotal(r) == total)
    ensures var r := SetCount(lp, count);
            && r[6..] == lp[6..] && r[..4] == lp[..4] && (count <= UINT16_MAX ==> GetCount(r) == count)
  {
    hide Little, FromLittle, Pow256;
    Powers256();
    if total <= UINT32_MAX {
      LittleRoundTrip(total, 4);
    }
    if count <= UINT16_MAX {
      LittleRoundTrip(count, 2);
    }
    assert SetTotal(lp, total)[..4] == Little(total, 4);
    assert SetTotal(lp, total)[6..] == lp[6..] && SetTotal(lp, total)[4..6] == lp[4..6];
    assert SetCount(lp, count)[4..6] == Little(count, 2);
    assert SetCount(lp, count)[..4] == lp[..4];
  }

  /** The count is exact or says that it is unknown. */
  predicate CountOk(count: nat, n: nat) {
    count == n || count == UINT16_MAX
  }

  /** How an edit changes the count: by the difference, unless it has given up. */
  ghost predicate Recounted(before: int, after: int, diff: int) {
    after == if before == 65535 then 65535 else before + diff
  }

  /** The buffer is a listpack of these entries. */
  ghost predicate Holds(lp: seq<Byte>, es: seq<seq<Byte>>) {
    && AllOk(es) && |lp| <= UINT32_MAX && |lp| > LP_HDR_SIZE && lp[6..] == Row(es) + [LP_EOF]
    && GetTotal(lp) == |lp| && GetCount(lp) <= UINT16_MAX && CountOk(GetCount(lp), |es|)
  }

  /** Where entry i starts; the end byte is entry |es|. */
  function Off(es: seq<seq<Byte>>, i: nat): nat
    requires i <= |es|
  {
    LP_HDR_SIZE + |Row(es[..i])|
  }

  lemma OffNext(es: seq<seq<Byte>>, i: nat)
    requires i < |es|
    ensures Off(es, i + 1) == Off(es, i) + |EntryBytes(es[i])|
  {
    hide EntryBytes;
    var one: seq<seq<Byte>> := [es[i]];
    assert es[..i + 1] == es[..i] + one;
    RowConcat(es[..i], one);
    RowHead(one);
    assert one[1..] == [];
  }

  lemma {:induction false} OffGrows(es: seq<seq<Byte>>, i: nat, j: nat)
    requires i <= j <= |es|
    ensures Off(es, i) <= Off(es, j) && (i < j ==> Off(es, i) < Off(es, j))
    decreases j - i
  {
    hide Row, Off;
    if i < j {
      OffGrows(es, i, j - 1);
      OffNext(es, j - 1);
    }
  }

  /** The bytes from an offset on. */
  lemma RowFrom(lp: seq<Byte>, es: seq<seq<Byte>>, i: nat)
    requires Holds(lp, es) && i <= |es|
    ensures Off(es, i) < |lp| && lp[Off(es, i)..] == Row(es[i..]) + [LP_EOF]
    ensures lp[6..Off(es, i)] == Row(es[..i])
  {
    hide EntryBytes, BodyOk;
    assert es == es[..i] + es[i..];
    RowConcat(es[..i], es[i..]);
    var a, b := Row(es[..i]), Row(es[i..]);
    assert lp[6..] == a + (b + [LP_EOF]);
    assert |lp[6..]| == |lp| - 6;
    assert lp[6 + |a|..] == lp[6..][|a|..];
    assert lp[6..6 + |a|] == lp[6..][..|a|];
  }

  /** An entry in place: its size, what follows, and its back length. */
  lemma EntryAt(lp: seq<Byte>, es: seq<seq<Byte>>, i: nat)
    requires Holds(lp, es) && i < |es|
    ensures var p, b := Off(es, i), es[i];
            && p + |b| + BacklenBytes(|b|) == Off(es, i + 1) < |lp|
            && BodyOk(b) && lp[p] == b[0] != LP_EOF && |lp[p..]| >= CodeBytes(lp[p]) && EncodeSize(lp[p..]) == |b|
            && ReadBack(lp, Off(es, i + 1) - 1, 5) == Some(|b|)
            && lp[p..p + |b|] == b
  {
    hide BodyOk, EncodeSize, ReadBack, Row, Off, Backlen;
    var p, b := Off(es, i), es[i];
    RowFrom(lp, es, i);
    RowFrom(lp, es, i + 1);
    OffNext(es, i);
    RowHead(es[i..]);
    assert es[i..][1..] == es[i + 1..];
    var rest := Row(es[i + 1..]) + [LP_EOF];
    OffGrows(es, 0, i);
    FirstOff(es);
    EntryBytesAt(lp, p, b, rest);
  }

  lemma FirstOff(es: seq<seq<Byte>>)
    ensures Off(es, 0) == LP_HDR_SIZE
  {
  }

  lemma RowHead(es: seq<seq<Byte>>)
    requires es != []
    ensures Row(es) == EntryBytes(es[0]) + Row(es[1..])
  {
  }

  lemma EntryBytesAt(lp: seq<Byte>, p: nat, b: seq<Byte>, rest: seq<Byte>)
    requires 6 <= p <= |lp| && lp[p..] == EntryBytes(b) + rest && BodyOk(b) && |lp| <= UINT32_MAX
    ensures p < |lp| && lp[p] == b[0] && b[0] != LP_EOF && |lp[p..]| >= CodeBytes(lp[p]) && EncodeSize(lp[p..]) == |b|
    ensures p + |b| + BacklenBytes(|b|) <= |lp| && lp[p..p + |b|] == b
    ensures ReadBack(lp, p + |b| + BacklenBytes(|b|) - 1, 5) == Some(|b|)
  {
    hide EncodeSize, ReadBack, Backlen, CodeBytes;
    var back := Backlen(|b|);
    Pieces(lp, p, b, back, rest);
    CodeWithin(b);
    SizePrefix(b, back + rest);
    BacklenReadsBack(lp, p + |b|, |b|);
  }

  lemma Pieces(lp: seq<Byte>, p: nat, a: seq<Byte>, c: seq<Byte>, rest: seq<Byte>)
    requires p <= |lp| && lp[p..] == (a + c) + rest && a != []
    ensures p + |a| + |c| <= |lp| && lp[p] == a[0] && |lp[p..]| == |lp| - p
    ensures lp[p..] == a + (c + rest) && lp[p..p + |a|] == a && lp[p + |a|..p + |a| + |c|] == c
  {
    assert |lp[p..]| == |lp| - p;
    var t := lp[p..];
    assert t[..|a|] == a && t[|a|..|a| + |c|] == c;
    Within(lp, p, 0, |a|);
    Within(lp, p, |a|, |a| + |c|);
    assert t[0] == lp[p];
  }

  lemma Within(s: seq<Byte>, p: nat, a: nat, b: nat)
    requires a <= b && p + b <= |s|
    ensures s[p..][a..b] == s[p + a..p + b]
  {
    forall k | 0 <= k < b - a
      ensures s[p..][a..b][k] == s[p + a..p + b][k]
    {
      assert s[p..][a + k] == s[p + a + k];
    }
  }

  lemma EndAt(lp: seq<Byte>, es: seq<seq<Byte>>)
    requires Holds(lp, es)
    ensures Off(es, |es|) == |lp| - 1 && lp[|lp| - 1] == LP_EOF
  {
    hide EntryBytes, BodyOk;
    RowFrom(lp, es, |es|);
    assert es[|es|..] == [];
    assert |lp[Off(es, |es|)..]| == |lp| - Off(es, |es|);
    assert lp[Off(es, |es|)..][0] == LP_EOF;
  }

  /** What a position in the row looks like to a walk: the end byte, or an entry. */
  lemma At(lp: seq<Byte>, es: seq<seq<Byte>>, i: nat)
    requires Holds(lp, es) && i <= |es|
    ensures 6 <= Off(es, i) < |lp| && (lp[Off(es, i)] == LP_EOF <==> i == |es|)
  {
    if i < |es| {
      EntryAt(lp, es, i);
    } else {
      EndAt(lp, es);
    }
  }

  // ---------------------------------------------------------------- walking

  /** list_pack_skip. */
  function Skip(lp: seq<Byte>, p: nat): nat
    requires p < |lp| && |lp[p..]| >= CodeBytes(lp[p])
  {
    var n := CodedSize(lp[p..]);
    p + n + BacklenBytes(n)
  }

  /**
    list_pack_validate_next on any bytes whatsoever. What it accepts can be walked back: the back
    length before the next position leads to this one again.
  */
  method ValidateNext(lp: seq<Byte>, p: nat, bytes: nat) returns (ok: bool, next: Option<nat>)
    requires LP_HDR_SIZE < bytes <= |lp|
    ensures ok && next.None? ==> LP_HDR_SIZE <= p < bytes && lp[p] == LP_EOF
    ensures ok && next.Some? ==>
              && LP_HDR_SIZE <= p < next.value < bytes && |lp[p..]| >= CodeBytes(lp[p]) && next.value == Skip(lp, p)
              && ReadBack(lp, next.value - 1, 5) == Some(CodedSize(lp[p..]))
    ensures !ok && LP_HDR_SIZE <= p < bytes && |lp[p..]| >= CodeBytes(lp[p]) > 0 && p + CodeBytes(lp[p]) < bytes ==>
              lp[p] != LP_EOF && (Skip(lp, p) >= bytes || ReadBack(lp, Skip(lp, p) - 1, 5) != Some(CodedSize(lp[p..])))
  {
    hide EncodeSize, ReadBack, Pow128;
    ok, next := false, None;
    if p < LP_HDR_SIZE || p > bytes - 1 {
      return;
    }
    if lp[p] == LP_EOF {
      return true, None;
    }
    var lenbytes := CodeBytes(lp[p]);
    if lenbytes == 0 || p + lenbytes > bytes - 1 {
      return;
    }
    var size := CodedSize(lp[p..]);
    var backlen := BacklenBytes(size);
    var entrylen := size + backlen;
    if p + entrylen > bytes - 1 {
      return;
    }
    ReadBackBound(lp, p + entrylen - 1, 5);
    PowersOf128();
    var prevlen := DecodeBacklen(lp, p + entrylen - 1);
    if (prevlen + backlen) % (UINT64_MAX + 1) != entrylen {
      return;
    }
    return true, Some(p + entrylen);
  }

  /** On a listpack every entry is accepted, and the next one is where the next entry is. */
  lemma Accepts(lp: seq<Byte>, es: seq<seq<Byte>>, i: nat)
    requires Holds(lp, es) && i < |es|
    ensures var p := Off(es, i);
            && LP_HDR_SIZE <= p < |lp| && lp[p] != LP_EOF && |lp[p..]| >= CodeBytes(lp[p]) > 0
            && p + CodeBytes(lp[p]) < |lp| && Skip(lp, p) == Off(es, i + 1) < |lp|
            && ReadBack(lp, Skip(lp, p) - 1, 5) == Some(CodedSize(lp[p..])) && CodedSize(lp[p..]) == |es[i]|
  {
    hide EncodeSize, ReadBack, Row, Off;
    EntryAt(lp, es, i);
    HoldsSize(lp, es);
    At(lp, es, i);
    CodeWithin(es[i]);
  }

  lemma CodeWithin(b: seq<Byte>)
    requires BodyOk(b)
    ensures 0 < CodeBytes(b[0]) <= |b|
  {
  }

  // ---------------------------------------------------------------- edits on the bytes

  /** The buffer with the bytes from p to q replaced. */
  function Splice(s: seq<Byte>, p: nat, q: nat, mid: seq<Byte>): (r: seq<Byte>)
    requires p <= q <= |s|
    ensures |r| == |s| - (q - p) + |mid|
  {
    s[..p] + mid + s[q..]
  }

  /** Growing, moving the tail, cutting and writing amounts to a splice. */
  lemma MoveIsSplice(s: seq<Byte>, fill: seq<Byte>, p: nat, q: nat, mid: seq<Byte>)
    requires p <= q <= |s| && |s| + |fill| == (if |mid| > q - p then |s| + |mid| - (q - p) else |s|)
    ensures p + |mid| + (|s| - q) <= |s + fill|
    ensures var moved := Move(s + fill, p + |mid|, q, |s| - q);
            var cut := moved[..|s| - (q - p) + |mid|];
            cut[..p] + mid + cut[p + |mid|..] == Splice(s, p, q, mid)
  {
    var moved := Move(s + fill, p + |mid|, q, |s| - q);
    var cut := moved[..|s| - (q - p) + |mid|];
    assert cut[p + |mid|..] == s[q..];
    assert cut[..p] == s[..p];
  }

  /** A splice of whole entries, header brought up to date, is the same splice of the elements. */
  lemma SpliceHolds(lp: seq<Byte>, es: seq<seq<Byte>>, i: nat, j: nat, mid: seq<seq<Byte>>, count: nat, r: seq<Byte>)
    requires Holds(lp, es) && i <= j <= |es| && AllOk(mid)
    requires Off(es, i) <= Off(es, j) <= |lp| && r == SetTotal(SetCount(Splice(lp, Off(es, i), Off(es, j), Row(mid)), count),
      |Splice(lp, Off(es, i), Off(es, j), Row(mid))|)
    requires |r| <= UINT32_MAX && count <= UINT16_MAX && CountOk(count, i + |mid| + |es| - j)
    requires Off(es, i) >= LP_HDR_SIZE
    ensures Holds(r, es[..i] + mid + es[j..]) && GetCount(r) == count
  {
    hide Row, Off, BodyOk, GetTotal, GetCount, SetTotal, SetCount;
    var s := Splice(lp, Off(es, i), Off(es, j), Row(mid));
    RowFrom(lp, es, i);
    RowFrom(lp, es, j);
    HeaderSet(s, 0, count);
    HeaderSet(SetCount(s, count), |s|, 0);
    CountKept(SetCount(s, count), |s|, count);
    RowConcat(es[..i], mid);
    RowConcat(es[..i] + mid, es[j..]);
    SpliceBody(lp, Off(es, i), Off(es, j), Row(mid), Row(es[..i]), Row(es[j..]));
    At(lp, es, j);
    AllOkParts(es, i, j, mid);
  }

  lemma CountKept(s: seq<Byte>, total: nat, count: nat)
    requires |s| >= LP_HDR_SIZE && GetCount(s) == count
    ensures GetCount(SetTotal(s, total)) == count
  {
    hide FromLittle, Little;
    HeaderSet(s, total, 0);
  }

  lemma SpliceBody(lp: seq<Byte>, p: nat, q: nat, mid: seq<Byte>, front: seq<Byte>, back: seq<Byte>)
    requires 6 <= p <= q <= |lp| && lp[6..p] == front && lp[q..] == back + [LP_EOF]
    ensures Splice(lp, p, q, mid)[6..] == front + mid + back + [LP_EOF]
  {
    assert Splice(lp, p, q, mid)[6..] == lp[6..p] + mid + lp[q..];
  }

  lemma AllOkParts(es: seq<seq<Byte>>, i: nat, j: nat, mid: seq<seq<Byte>>)
    requires AllOk(es) && AllOk(mid) && i <= j <= |es|
    ensures AllOk(es[..i] + mid + es[j..])
  {
    hide BodyOk;
  }

  datatype Where = Before | After | Replace

  /** What an insertion stores: a string, the bytes of an encoded integer, or nothing, to delete. */
  datatype Element = Plain(s: seq<Byte>) | Encoded(bytes: seq<Byte>) | Nothing

  /** The indices an edit at entry i replaces. */
  function From(i: nat, where: Where, ele: Element): nat {
    if where == After && !ele.Nothing? then i + 1 else i
  }

  function To(i: nat, where: Where, ele: Element): nat {
    if where == Before && !ele.Nothing? then i else i + 1
  }

  class Listpack {
    var lp: seq<Byte>

    /** list_pack_new. */
    constructor ()
      ensures Holds(lp, [])
    {
      hide Little, FromLittle;
      var empty: seq<Byte> := [0, 0, 0, 0, 0, 0, LP_EOF];
      HeaderSet(empty, LP_HDR_SIZE + 1, 0);
      HeaderSet(SetTotal(empty, LP_HDR_SIZE + 1), 0, 0);
      lp := SetCount(SetTotal(empty, LP_HDR_SIZE + 1), 0);
    }

    /**
      _list_pack_insert: inserts before or after an entry, replaces it or deletes it. When the result
      would be too large the code asserts, and returns null where assertions are off; ok is then false.
    */
    method Insert(ele: Element, p0: nat, where: Where, ghost es: seq<seq<Byte>>, ghost i: nat)
      returns (ok: bool, newp: Option<nat>, ghost mid: seq<seq<Byte>>)
      requires Holds(lp, es) && i <= |es| && p0 == Off(es, i)
      requires (where != Before || ele.Nothing?) ==> i < |es|
      requires ele.Plain? ==> |ele.s| <= UINT32_MAX
      requires ele.Encoded? ==> BodyOk(ele.bytes)
      modifies this
      ensures match ele
              case Plain(s) => |mid| == 1 && Stored(s, mid[0]) && BodyOk(mid[0]) && Text(Get(mid[0])) == s
              case Encoded(b) => mid == [b]
              case Nothing => mid == []
      ensures var a, b := From(i, where, ele), To(i, where, ele);
              && a <= b <= |es|
              && (ok <==> |old(lp)| - (Off(es, b) - Off(es, a)) + |Row(mid)| <= UINT32_MAX)
              && (ok ==> Holds(lp, es[..a] + mid + es[b..]) && Recounted(GetCount(old(lp)), GetCount(lp), |mid| - (b - a)))
              && (ok ==> newp == if ele.Nothing? && b == |es| then None else Some(Off(es, a)))
      ensures !ok ==> lp == old(lp)
    {
      hide Row, Off, Holds, BodyOk, Stored, EncodeSize, Backlen, Text, Get;
      var p := p0;
      var w := if ele.Nothing? then Replace else where;
      ghost var a, b := From(i, where, ele), To(i, where, ele);
      p := Target(p, w, es, i);
      var entry: seq<Byte>;
      entry, mid := EntryFor(ele);
      var replaced := ReplacedLen(p, w, es, a, b);
      EditBounds(lp, es, a, b);
      ok := |lp| + |entry| - replaced <= UINT32_MAX;
      if !ok {
        return false, None, mid;
      }
      newp := Edit(p, replaced, entry, ele.Nothing?, w == Replace && !ele.Nothing?, es, a, b, mid);
    }

    /** list_pack_append_string. */
    method Append(s: seq<Byte>, ghost es: seq<seq<Byte>>) returns (ok: bool, ghost body: seq<Byte>)
      requires Holds(lp, es) && |s| <= UINT32_MAX
      modifies this
      ensures Stored(s, body) && BodyOk(body) && Text(Get(body)) == s
      ensures ok <==> |old(lp)| + |EntryBytes(body)| <= UINT32_MAX
      ensures if ok then Holds(lp, es + [body]) else lp == old(lp)
    {
      hide Row, Off, BodyOk, Holds, Stored, Text, Get, EntryBytes;
      EndAt(lp, es);
      TotalIs(lp, es);
      var newp; ghost var mid;
      ok, newp, mid := Insert(Plain(s), GetTotal(lp) - 1, Before, es, |es|);
      body := mid[0];
      RowOne(body);
      assert mid == [body] && es[..|es|] + mid + es[|es|..] == es + [body];
    }

    /** list_pack_prepend_string. */
    method Prepend(s: seq<Byte>, ghost es: seq<seq<Byte>>) returns (ok: bool, ghost body: seq<Byte>)
      requires Holds(lp, es) && |s| <= UINT32_MAX
      modifies this
      ensures Stored(s, body) && BodyOk(body) && Text(Get(body)) == s
      ensures ok <==> |old(lp)| + |EntryBytes(body)| <= UINT32_MAX
      ensures if ok then Holds(lp, [body] + es) else lp == old(lp)
    {
      hide Row, Off, BodyOk, Holds, Stored, Text, Get, EntryBytes;
      var p := First(es);
      if p.None? {
        ok, body := Append(s, es);
        assert es + [body] == [body] + es;
        return;
      }
      var newp; ghost var mid;
      ok, newp, mid := Insert(Plain(s), p.value, Before, es, 0);
      body := mid[0];
      RowOne(body);
      assert mid == [body] && es[..0] + mid + es[0..] == [body] + es;
    }

    /** Inserting after an entry is inserting before the next one. */
    method Target(p: nat, where: Where, ghost es: seq<seq<Byte>>, ghost i: nat) returns (q: nat)
      requires Holds(lp, es) && i <= |es| && p == Off(es, i) && (where == After ==> i < |es|)
      ensures q == Off(es, if where == After then i + 1 else i)
    {
      hide Row, Off, Holds, BodyOk, EncodeSize, ReadBack;
      q := p;
      if where == After {
        Accepts(lp, es, i);
        q := Skip(lp, p);
        assert LP_HDR_SIZE <= q < |lp|;
      }
    }

    method EntryFor(ele: Element) returns (entry: seq<Byte>, ghost mid: seq<seq<Byte>>)
      requires ele.Plain? ==> |ele.s| <= UINT32_MAX
      requires ele.Encoded? ==> BodyOk(ele.bytes)
      ensures entry == Row(mid) && AllOk(mid) && (ele.Nothing? ==> entry == [])
      ensures match ele
              case Plain(s) => |mid| == 1 && Stored(s, mid[0]) && BodyOk(mid[0]) && Text(Get(mid[0])) == s
              case Encoded(b) => mid == [b]
              case Nothing => mid == []
    {
      hide BodyOk, Stored, EntryBytes, Text, Get;
      match ele
      case Plain(s) =>
        var body := EncodeElement(s);
        StoredReadsBack(s, body);
        RowOne(body);
        entry, mid := EntryBytes(body), [body];
      case Encoded(b) =>
        RowOne(b);
        entry, mid := EntryBytes(b), [b];
      case Nothing =>
        entry, mid := [], [];
    }

    method ReplacedLen(p: nat, where: Where, ghost es: seq<seq<Byte>>, ghost a: nat, ghost b: nat) returns (n: nat)
      requires Holds(lp, es) && a <= b <= |es| && p == Off(es, a)
      requires if where == Replace then b == a + 1 else b == a
      ensures n == Off(es, b) - Off(es, a)
    {
      hide Row, Off, Holds, BodyOk, EncodeSize, ReadBack;
      n := 0;
      if where == Replace {
        Accepts(lp, es, a);
        n := CodedSize(lp[p..]);
        n := n + BacklenBytes(n);
        assert LP_HDR_SIZE <= p && p + n < |lp|;
      }
    }

    /** The moves and writes of _list_pack_insert, once everything is measured. */
    method Edit(p: nat, replaced: nat, entry: seq<Byte>, delete: bool, sameCount: bool,
                ghost es: seq<seq<Byte>>, ghost a: nat, ghost b: nat, ghost mid: seq<seq<Byte>>)
      returns (newp: Option<nat>)
      requires Holds(lp, es) && a <= b <= |es| && p == Off(es, a) && p + replaced == Off(es, b) && Off(es, b) < |lp|
      requires entry == Row(mid) && AllOk(mid) && LP_HDR_SIZE <= p && |lp| + |entry| - replaced <= UINT32_MAX
      requires (delete ==> entry == []) && |mid| == (if delete then 0 else 1) && !(delete && sameCount)
      requires b - a == if delete || sameCount then 1 else 0
      modifies this
      ensures Holds(lp, es[..a] + mid + es[b..]) && Recounted(GetCount(old(lp)), GetCount(lp), |mid| - (b - a))
      ensures newp == if delete && b == |es| then None else Some(p)
    {
      hide Row, Off, BodyOk, Little, FromLittle, SetTotal, SetCount, AllOk, Move, Splice;
      var size := |lp|;
      var newSize := size + |entry| - replaced;
      ghost var s := lp;
      var fill := new Byte[if newSize > size then newSize - size else 0];
      MoveIsSplice(lp, fill[..], p, p + replaced, entry);
      var moved := Move(lp + fill[..], p + |entry|, p + replaced, size - p - replaced);
      var cut := moved[..newSize];
      var done := cut[..p] + entry + cut[p + |entry|..];
      At(lp, es, b);
      SpliceEnds(lp, p, p + replaced, entry);
      newp := if delete && done[p] == LP_EOF then None else Some(p);
      var count := GetCount(lp);
      if !sameCount && count != UINT16_MAX {
        count := if delete then count - 1 else count + 1;
      }
      assert GetCount(done) == GetCount(lp);
      lp := SetTotal(SetCount(done, count), newSize);
      SpliceHolds(s, es, a, b, mid, count, lp);
    }

    /** list_pack_remove_range_with_entry: up to num entries from the one at p on. */
    method RemoveRange(p: nat, num: nat, ghost es: seq<seq<Byte>>, ghost i: nat) returns (newp: Option<nat>)
      requires Holds(lp, es) && i < |es| && p == Off(es, i)
      modifies this
      ensures var end := if num < |es| - i then i + num else |es|;
              && Holds(lp, es[..i] + es[end..]) && Recounted(GetCount(old(lp)), GetCount(lp), i - end)
              && newp == if num > 0 && end == |es| then None else Some(p)
    {
      hide Row, Off, BodyOk, Holds, EncodeSize, ReadBack, Little, FromLittle, SetTotal, SetCount;
      if num == 0 {
        assert es[..i] + es[i..] == es;
        return Some(p);
      }
      var tail, deleted := RangeEnd(p, num, es, i);
      newp := CutRange(p, tail, deleted, es, i, i + deleted);
    }

    /** The loop of list_pack_remove_range_with_entry. */
    method RangeEnd(p: nat, num: nat, ghost es: seq<seq<Byte>>, ghost i: nat) returns (tail: nat, deleted: nat)
      requires Holds(lp, es) && i < |es| && p == Off(es, i) && num > 0
      ensures i + deleted == (if num < |es| - i then i + num else |es|) && tail == Off(es, i + deleted)
    {
      hide Row, Off, BodyOk, Holds, EncodeSize, ReadBack;
      tail, deleted := p, 0;
      var left := num;
      while left > 0
        invariant deleted + left == num && i + deleted < |es| && tail == Off(es, i + deleted)
        decreases left
      {
        left := left - 1;
        deleted := deleted + 1;
        Accepts(lp, es, i + deleted - 1);
        tail := Skip(lp, tail);
        At(lp, es, i + deleted);
        if lp[tail] == LP_EOF {
          return;
        }
        TotalIs(lp, es);
        Accepts(lp, es, i + deleted);
        var ok, next := ValidateNext(lp, tail, GetTotal(lp));
        assert ok;
      }
    }

    method CutRange(p: nat, tail: nat, deleted: nat, ghost es: seq<seq<Byte>>, ghost a: nat, ghost b: nat)
      returns (newp: Option<nat>)
      requires Holds(lp, es) && a < b <= |es| && p == Off(es, a) && tail == Off(es, b) && deleted == b - a
      modifies this
      ensures Holds(lp, es[..a] + es[b..]) && newp == (if b == |es| then None else Some(p))
      ensures Recounted(GetCount(old(lp)), GetCount(lp), 0 - deleted)
    {
      hide Row, Off, BodyOk, Little, FromLittle, SetTotal, SetCount, AllOk, Move, Splice;
      ghost var s := lp;
      var bytes := GetTotal(lp);
      EditBounds(lp, es, a, b);
      MoveIsSplice(lp, [], p, tail, []);
      assert lp + [] == lp;
      var moved := Move(lp, p, tail, bytes - tail);
      var newSize := bytes - (tail - p);
      var count := GetCount(lp);
      if count != UINT16_MAX {
        count := count - deleted;
      }
      At(lp, es, b);
      SpliceEnds(lp, p, tail, []);
      ghost var cut := moved[..newSize];
      assert cut == cut[..p] + [] + cut[p..];
      assert cut == Splice(lp, p, tail, []);
      newp := if moved[p] == LP_EOF then None else Some(p);
      CutLater(moved, newSize, count);
      lp := SetCount(SetTotal(moved, newSize), count)[..newSize];
      CutHolds(s, es, a, b, count, lp);
    }

    /** list_pack_first. */
    method First(ghost es: seq<seq<Byte>>) returns (p: Option<nat>)
      requires Holds(lp, es)
      ensures p == if es == [] then None else Some(Off(es, 0))
    {
      hide Row, Off, BodyOk, EncodeSize, ReadBack, Holds;
      FirstOff(es);
      At(lp, es, 0);
      if lp[LP_HDR_SIZE] == LP_EOF {
        return None;
      }
      TotalIs(lp, es);
      Accepts(lp, es, 0);
      var ok, next := ValidateNext(lp, LP_HDR_SIZE, GetTotal(lp));
      assert ok;
      return Some(LP_HDR_SIZE);
    }

    /** list_pack_next. */
    method Next(p: nat, ghost es: seq<seq<Byte>>, ghost i: nat) returns (q: Option<nat>)
      requires Holds(lp, es) && i < |es| && p == Off(es, i)
      ensures q == if i + 1 == |es| then None else Some(Off(es, i + 1))
    {
      hide Row, Off, BodyOk, EncodeSize, ReadBack, Holds;
      Accepts(lp, es, i);
      At(lp, es, i + 1);
      var next := Skip(lp, p);
      if lp[next] == LP_EOF {
        return None;
      }
      TotalIs(lp, es);
      Accepts(lp, es, i + 1);
      var ok, more := ValidateNext(lp, next, GetTotal(lp));
      assert ok;
      return Some(next);
    }

    /** list_pack_prev: from an entry or the end byte to the entry before. */
    method Prev(p: nat, ghost es: seq<seq<Byte>>, ghost i: nat) returns (q: Option<nat>)
      requires Holds(lp, es) && i <= |es| && p == Off(es, i)
      ensures q == if i == 0 then None else Some(Off(es, i - 1))
    {
      hide Row, Off, BodyOk, EncodeSize, ReadBack, Holds;
      FirstOff(es);
      OffGrows(es, 0, i);
      At(lp, es, i);
      if p == LP_HDR_SIZE {
        return None;
      }
      Accepts(lp, es, i - 1);
      EntryAt(lp, es, i - 1);
      var prevlen := DecodeBacklen(lp, p - 1);
      prevlen := prevlen + BacklenBytes(prevlen);
      var before := p - 1 - (prevlen - 1);
      TotalIs(lp, es);
      var ok, more := ValidateNext(lp, before, GetTotal(lp));
      assert ok;
      return Some(before);
    }

    /** list_pack_get_value at an entry. */
    method Value(p: nat, ghost es: seq<seq<Byte>>, ghost i: nat) returns (x: Value)
      requires Holds(lp, es) && i < |es| && p == Off(es, i)
      ensures BodyOk(es[i]) && x == Get(es[i])
    {
      hide Row, Off, BodyOk, EncodeSize, ReadBack, Holds, Get;
      EntryAt(lp, es, i);
      GetPrefix(es[i], lp[p..]);
      x := Get(lp[p..]);
    }

    /** list_pack_last. */
    method Last(ghost es: seq<seq<Byte>>) returns (p: Option<nat>)
      requires Holds(lp, es)
      ensures p == if es == [] then None else Some(Off(es, |es| - 1))
    {
      hide Row, Off, BodyOk, EncodeSize, ReadBack, Holds;
      EndAt(lp, es);
      TotalIs(lp, es);
      p := Prev(GetTotal(lp) - 1, es, |es|);
    }

    /** list_pack_length: the count, or a full walk that repairs it when it can. */
    method Length(ghost es: seq<seq<Byte>>) returns (n: nat)
      requires Holds(lp, es)
      modifies this
      ensures n == |es| && Holds(lp, es)
      ensures |es| < 65535 ==> GetCount(lp) == |es|
    {
      hide Row, Off, BodyOk, EncodeSize, ReadBack, AllOk, Little, FromLittle, SetCount, SetTotal;
      var count := GetCount(lp);
      if count != UINT16_MAX {
        return count;
      }
      n := 0;
      var p := First(es);
      while p.Some?
        invariant n <= |es| && p == if n == |es| then None else Some(Off(es, n))
        invariant lp == old(lp)
        decreases |es| - n
      {
        p := Next(p.value, es, n);
        n := n + 1;
      }
      if n < UINT16_MAX {
        HeaderSet(lp, 0, n);
        TotalKept(lp, n);
        lp := SetCount(lp, n);
      }
    }

    /** The positions in the order of list_pack_first and list_pack_next. */
    method Forward(ghost es: seq<seq<Byte>>) returns (at: seq<nat>)
      requires Holds(lp, es)
      ensures |at| == |es| && forall i | 0 <= i < |es| :: at[i] == Off(es, i)
    {
      hide Row, Off, BodyOk, EncodeSize, ReadBack, Holds;
      at := [];
      var p := First(es);
      while p.Some?
        invariant |at| <= |es| && p == if |at| == |es| then None else Some(Off(es, |at|))
        invariant forall i | 0 <= i < |at| :: at[i] == Off(es, i)
        decreases |es| - |at|
      {
        var q := Next(p.value, es, |at|);
        at := at + [p.value];
        p := q;
      }
    }

    /** The positions in the order of list_pack_last and list_pack_prev: those of Forward, reversed. */
    method Backward(ghost es: seq<seq<Byte>>) returns (at: seq<nat>)
      requires Holds(lp, es)
      ensures |at| == |es| && forall i | 0 <= i < |es| :: at[i] == Off(es, |es| - 1 - i)
    {
      hide Row, Off, BodyOk, EncodeSize, ReadBack, Holds;
      at := [];
      var p := Last(es);
      while p.Some?
        invariant |at| <= |es| && p == if |at| == |es| then None else Some(Off(es, |es| - 1 - |at|))
        invariant forall i | 0 <= i < |at| :: at[i] == Off(es, |es| - 1 - i)
        decreases |es| - |at|
      {
        var q := Prev(p.value, es, |es| - 1 - |at|);
        at := at + [p.value];
        p := q;
      }
    }
  }

  /** What follows an entry does not change what it reads as. */
  lemma GetPrefix(b: seq<Byte>, s: seq<Byte>)
    requires BodyOk(b) && |b| <= |s| && s[..|b|] == b
    ensures |s| >= CodeBytes(s[0]) && |s| >= EncodeSize(s) && Get(s) == Get(b)
  {
    hide FromLittle;
    assert forall k | 0 <= k < |b| :: s[..|b|][k] == s[k];
    assert forall lo, hi | 0 <= lo <= hi <= |b| :: s[lo..hi] == b[lo..hi];
  }

  lemma TotalIs(lp: seq<Byte>, es: seq<seq<Byte>>)
    requires Holds(lp, es)
    ensures LP_HDR_SIZE < GetTotal(lp) == |lp|
  {
  }

  lemma TotalKept(lp: seq<Byte>, count: nat)
    requires |lp| >= LP_HDR_SIZE
    ensures GetTotal(SetCount(lp, count)) == GetTotal(lp)
  {
    hide FromLittle, Little;
    HeaderSet(lp, 0, count);
  }

  /** Setting the header before or after the cut, and in either order, is the same. */
  lemma CutLater(moved: seq<Byte>, size: nat, count: nat)
    requires LP_HDR_SIZE <= size <= |moved|
    ensures SetCount(SetTotal(moved, size), count)[..size] == SetTotal(SetCount(moved[..size], count), size)
  {
    hide Little;
    assert SetTotal(moved, size)[6..] == moved[6..];
    assert SetCount(moved[..size], count)[4..] == Little(count, 2) + moved[..size][6..];
    assert moved[..size][6..] == moved[6..size];
  }

  lemma CutHolds(lp: seq<Byte>, es: seq<seq<Byte>>, a: nat, b: nat, count: nat, r: seq<Byte>)
    requires Holds(lp, es) && a <= b <= |es| && LP_HDR_SIZE <= Off(es, a) <= Off(es, b) < |lp|
    requires var s := Splice(lp, Off(es, a), Off(es, b), []);
             r == SetTotal(SetCount(s, count), |s|)
    requires count <= UINT16_MAX && CountOk(count, a + |es| - b)
    ensures Holds(r, es[..a] + es[b..]) && GetCount(r) == count
  {
    hide Holds, Off, SetTotal, SetCount;
    TotalIs(lp, es);
    HoldsSize(lp, es);
    SpliceHolds(lp, es, a, b, [], count, r);
    assert es[..a] + [] + es[b..] == es[..a] + es[b..];
  }

  lemma HoldsSize(lp: seq<Byte>, es: seq<seq<Byte>>)
    requires Holds(lp, es)
    ensures |lp| <= UINT32_MAX
  {
  }

  lemma SpliceEnds(s: seq<Byte>, p: nat, q: nat, mid: seq<Byte>)
    requires 6 <= p <= q < |s|
    ensures p < |Splice(s, p, q, mid)| && (mid == [] ==> Splice(s, p, q, mid)[p] == s[q])
    ensures GetCount(Splice(s, p, q, mid)) == GetCount(s)
  {
    hide FromLittle;
    assert Splice(s, p, q, mid)[4..6] == s[4..6];
  }

  lemma RowOne(b: seq<Byte>)
    ensures Row([b]) == EntryBytes(b)
  {
    hide EntryBytes;
    var one: seq<seq<Byte>> := [b];
    RowHead(one);
    assert one[1..] == [];
  }

  lemma EditBounds(lp: seq<Byte>, es: seq<seq<Byte>>, a: nat, b: nat)
    requires Holds(lp, es) && a <= b <= |es|
    ensures LP_HDR_SIZE <= Off(es, a) <= Off(es, b) < |lp|
  {
    hide Holds, Row;
    At(lp, es, a);
    At(lp, es, b);
    OffGrows(es, a, b);
  }
}
