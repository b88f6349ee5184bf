/**
  The memory of an uncompressed rax node on a 64-bit machine: a four-byte header, one byte per
  edge, padding, one pointer per child and the value pointer, if any, at the very end. The
  memmoves of raxAddChild and raxRemoveChild are insertion into and deletion from the list of
  (edge, child) pairs.
*/
module RaxLayout {
  import opened Bytes

  const HEADER := 4
  const WORD := 8

  function Padding(size: nat): nat {
    (WORD - (size + HEADER) % WORD) % WORD
  }

  /** Offset of the first child pointer. */
  function Pointers(size: nat): (p: nat)
    ensures p % WORD == 0 && p >= HEADER + size
  {
    HEADER + size + Padding(size)
  }

  /** raxNodeCurrentLength, with valueLen bytes of value pointer. */
  function Length(size: nat, valueLen: nat): nat {
    Pointers(size) + WORD * size + valueLen
  }

  /** buf holds these edges, these pointers in a row, and this value pointer. */
  ghost predicate Holds(buf: seq<Byte>, edges: seq<Byte>, pointers: seq<Byte>, value: seq<Byte>) {
    var n := |edges|;
    var p := Pointers(n);
    && |pointers| == WORD * n && (|value| == 0 || |value| == WORD)
    && Length(n, |value|) <= |buf|
    && buf[HEADER..HEADER + n] == edges
    && buf[p..p + WORD * n] == pointers
    && buf[p + WORD * n..p + WORD * n + |value|] == value
  }

  /** The same in numbers: edges from byte 4, and pointers from the first multiple of eight behind them. */
  lemma InNumbers(buf: seq<Byte>, edges: seq<Byte>, pointers: seq<Byte>, value: seq<Byte>)
    requires Holds(buf, edges, pointers, value)
    ensures var n, p := |edges|, (|edges| + 11) / 8 * 8;
            && |pointers| == 8 * n && |value| in {0, 8} && p + 8 * n + |value| <= |buf|
            && buf[4..4 + n] == edges && buf[p..p + 8 * n] == pointers && buf[p + 8 * n..p + 8 * n + |value|] == value
  {
    Aligned(|edges|);
  }

  lemma Aligned(size: nat)
    ensures Pointers(size) == (size + 11) / 8 * 8
  {
  }

  // ---------------------------------------------------------------- memory moves

  function Write(s: seq<Byte>, at: nat, bytes: seq<Byte>): (r: seq<Byte>)
    requires at + |bytes| <= |s|
    ensures |r| == |s|
  {
    s[..at] + bytes + s[at + |bytes|..]
  }

  lemma MoveKeeps(s: seq<Byte>, dst: nat, src: nat, n: nat, a: nat, b: nat)
    requires dst + n <= |s| && src + n <= |s| && a <= b <= |s|
    requires b <= dst || dst + n <= a
    ensures Move(s, dst, src, n)[a..b] == s[a..b]
  {
    var r := Move(s, dst, src, n);
    forall k | a <= k < b
      ensures r[k] == s[k]
    {
    }
  }

  /** Part of the bytes moved, where they arrive. */
  lemma MoveBrings(s: seq<Byte>, dst: nat, src: nat, n: nat)
    requires dst + n <= |s| && src + n <= |s|
    ensures Move(s, dst, src, n)[dst..dst + n] == s[src..src + n]
  {
  }

  lemma WriteKeeps(s: seq<Byte>, at: nat, bytes: seq<Byte>, a: nat, b: nat)
    requires at + |bytes| <= |s| && a <= b <= |s|
    requires b <= at || at + |bytes| <= a
    ensures Write(s, at, bytes)[a..b] == s[a..b]
  {
  }

  lemma WriteBrings(s: seq<Byte>, at: nat, bytes: seq<Byte>)
    requires at + |bytes| <= |s|
    ensures Write(s, at, bytes)[at..at + |bytes|] == bytes
  {
  }

  /** memmove: right for any overlap. */
  method MemMove(a: array<Byte>, dst: nat, src: nat, n: nat)
    requires dst + n <= a.Length && src + n <= a.Length
    modifies a
    ensures a[..] == Move(old(a[..]), dst, src, n)
  {
    var copy := a[src..src + n];
    forall i | 0 <= i < n {
      a[dst + i] := copy[i];
    }
  }

  method MemCopy(a: array<Byte>, at: nat, bytes: seq<Byte>)
    requires at + |bytes| <= a.Length
    modifies a
    ensures a[..] == Write(old(a[..]), at, bytes)
  {
    forall i | 0 <= i < |bytes| {
      a[at + i] := bytes[i];
    }
  }

  // ---------------------------------------------------------------- one child more

  /** The pointer area starts where it did, or one word later when the padding was used up. */
  lemma NextPointers(n: nat)
    ensures Pointers(n + 1) == Pointers(n) || Pointers(n + 1) == Pointers(n) + WORD
    ensures Pointers(n + 1) == Pointers(n) ==> HEADER + n + 1 <= Pointers(n)
  {
  }

  /**
    Three of the steps, in plain offsets: v bytes of value, the b bytes of pointers behind the new
    child and the a bytes before it move from the old pointer area at p to the new one at q.
  */
  ghost function Spread(s: seq<Byte>, p: nat, q: nat, a: nat, b: nat, v: nat): (r: seq<Byte>)
    requires p <= q && q + a + WORD + b + v <= |s|
    ensures |r| == |s|
  {
    var s1 := Move(s, q + a + WORD + b, p + a + b, v);
    var s2 := Move(s1, q + a + WORD, p + a, b);
    Move(s2, q, p, a)
  }

  lemma SpreadValue(s: seq<Byte>, p: nat, q: nat, a: nat, b: nat, v: nat)
    requires p <= q && q + a + WORD + b + v <= |s|
    ensures Spread(s, p, q, a, b, v)[q + a + WORD + b..q + a + WORD + b + v] == s[p + a + b..p + a + b + v]
  {
    hide Move;
    var at := q + a + WORD + b;
    var s1 := Move(s, at, p + a + b, v);
    MoveBrings(s, at, p + a + b, v);
    MoveKeeps(s1, q + a + WORD, p + a, b, at, at + v);
    MoveKeeps(Move(s1, q + a + WORD, p + a, b), q, p, a, at, at + v);
  }

  lemma SpreadBehind(s: seq<Byte>, p: nat, q: nat, a: nat, b: nat, v: nat)
    requires p <= q && q + a + WORD + b + v <= |s|
    ensures Spread(s, p, q, a, b, v)[q + a + WORD..q + a + WORD + b] == s[p + a..p + a + b]
  {
    hide Move;
    var at := q + a + WORD;
    var s1 := Move(s, at + b, p + a + b, v);
    MoveKeeps(s, at + b, p + a + b, v, p + a, p + a + b);
    MoveBrings(s1, at, p + a, b);
    MoveKeeps(Move(s1, at, p + a, b), q, p, a, at, at + b);
  }

  lemma SpreadBefore(s: seq<Byte>, p: nat, q: nat, a: nat, b: nat, v: nat)
    requires p <= q && q + a + WORD + b + v <= |s|
    ensures Spread(s, p, q, a, b, v)[q..q + a] == s[p..p + a]
    ensures Spread(s, p, q, a, b, v)[..p] == s[..p]
  {
    hide Move;
    var at := q + a + WORD;
    var s1 := Move(s, at + b, p + a + b, v);
    MoveKeeps(s, at + b, p + a + b, v, p, p + a);
    MoveKeeps(s, at + b, p + a + b, v, 0, p);
    MoveKeeps(s1, at, p + a, b, p, p + a);
    MoveKeeps(s1, at, p + a, b, 0, p);
    var s2 := Move(s1, at, p + a, b);
    MoveBrings(s2, q, p, a);
    MoveKeeps(s2, q, p, a, 0, p);
  }

  /** The remaining steps: room for edge pos of n, the edge and the pointer at offset w. */
  ghost function Fill(s: seq<Byte>, pos: nat, n: nat, c: Byte, w: nat, child: seq<Byte>): (r: seq<Byte>)
    requires pos <= n && HEADER + n + 1 <= w && w + |child| <= |s|
    ensures |r| == |s|
  {
    var s4 := Move(s, HEADER + pos + 1, HEADER + pos, n - pos);
    var s5 := Write(s4, HEADER + pos, [c]);
    Write(s5, w, child)
  }

  lemma FillEdges(s: seq<Byte>, pos: nat, n: nat, c: Byte, w: nat, child: seq<Byte>)
    requires pos <= n && HEADER + n + 1 <= w && w + |child| <= |s|
    ensures var h, r := HEADER + pos, Fill(s, pos, n, c, w, child);
            && r[HEADER..h] == s[HEADER..h]
            && r[h..h + 1] == [c]
            && r[h + 1..HEADER + n + 1] == s[h..HEADER + n]
  {
    hide Move, Write;
    var h, e := HEADER + pos, HEADER + n + 1;
    var s4 := Move(s, h + 1, h, n - pos);
    MoveBrings(s, h + 1, h, n - pos);
    MoveKeeps(s, h + 1, h, n - pos, HEADER, h);
    var s5 := Write(s4, h, [c]);
    WriteBrings(s4, h, [c]);
    WriteKeeps(s4, h, [c], HEADER, h);
    WriteKeeps(s4, h, [c], h + 1, e);
    WriteKeeps(s5, w, child, HEADER, h);
    WriteKeeps(s5, w, child, h, h + 1);
    WriteKeeps(s5, w, child, h + 1, e);
  }

  lemma FillPointers(s: seq<Byte>, pos: nat, n: nat, c: Byte, w: nat, child: seq<Byte>, q: nat)
    requires pos <= n && HEADER + n + 1 <= q <= w && w + |child| <= |s|
    ensures var r := Fill(s, pos, n, c, w, child);
            r[q..w] == s[q..w] && r[w..w + |child|] == child && r[w + |child|..] == s[w + |child|..]
  {
    hide Move, Write;
    var h := HEADER + pos;
    var s4 := Move(s, h + 1, h, n - pos);
    MoveKeeps(s, h + 1, h, n - pos, q, w);
    MoveKeeps(s, h + 1, h, n - pos, w + |child|, |s|);
    var s5 := Write(s4, h, [c]);
    WriteKeeps(s4, h, [c], q, w);
    WriteKeeps(s4, h, [c], w + |child|, |s|);
    WriteBrings(s5, w, child);
    WriteKeeps(s5, w, child, q, w);
    WriteKeeps(s5, w, child, w + |child|, |s|);
    var r, e := Write(s5, w, child), w + |child|;
    assert r[e..] == r[e..|s|] && s[e..] == s[e..|s|];
  }

  /** What raxAddChild makes of the bytes. */
  ghost function Added(s: seq<Byte>, n: nat, pos: nat, v: nat, c: Byte, child: seq<Byte>): seq<Byte>
    requires pos <= n && |child| == WORD && Length(n + 1, v) <= |s|
  {
    NextPointers(n);
    var q := Pointers(n + 1);
    Fill(Spread(s, Pointers(n), q, WORD * pos, WORD * (n - pos), v), pos, n, c, q + WORD * pos, child)
  }

  function InsertEdge(edges: seq<Byte>, pos: nat, c: Byte): seq<Byte>
    requires pos <= |edges|
  {
    edges[..pos] + [c] + edges[pos..]
  }

  function InsertPointer(pointers: seq<Byte>, pos: nat, child: seq<Byte>): seq<Byte>
    requires WORD * pos <= |pointers|
  {
    pointers[..WORD * pos] + child + pointers[WORD * pos..]
  }

  lemma Join(s: seq<Byte>, a: nat, b: nat, c: nat)
    requires a <= b <= c <= |s|
    ensures s[a..c] == s[a..b] + s[b..c]
  {
  }

  lemma Slice(s: seq<Byte>, lo: nat, hi: nat, a: nat, b: nat)
    requires lo <= hi <= |s| && a <= b <= hi - lo
    ensures s[lo..hi][a..b] == s[lo + a..lo + b]
  {
    forall k | 0 <= k < b - a
      ensures s[lo..hi][a..b][k] == s[lo + a..lo + b][k]
    {
      assert s[lo..hi][a + k] == s[lo + a + k];
    }
  }

  /** The memmoves of raxAddChild insert the edge and the pointer, and keep every other one. */
  lemma AddedHolds(s: seq<Byte>, edges: seq<Byte>, pointers: seq<Byte>, value: seq<Byte>,
                   pos: nat, c: Byte, child: seq<Byte>)
    requires Holds(s, edges, pointers, value)
    requires pos <= |edges| && |child| == WORD && Length(|edges| + 1, |value|) <= |s|
    ensures Holds(Added(s, |edges|, pos, |value|, c, child),
                  InsertEdge(edges, pos, c), InsertPointer(pointers, pos, child), value)
  {
    hide Move, Write, Spread, Fill, Pointers, Holds;
    var n, v := |edges|, |value|;
    NextPointers(n);
    var p, q := Pointers(n), Pointers(n + 1);
    var a, b := WORD * pos, WORD * (n - pos);
    OpenHolds(s, edges, pointers, value, a, b);
    var m := Spread(s, p, q, a, b, v);
    var r := Fill(m, pos, n, c, q + a, child);
    SpreadBefore(s, p, q, a, b, v);
    AddedEdges(s, m, r, edges, p, pos, c, q + a, child);
    AddedPointers(s, p, q, a, b, v, pos, n, c, child, pointers);
    AddedValue(s, p, q, a, b, v, pos, n, c, child);
    MakeHolds(r, InsertEdge(edges, pos, c), InsertPointer(pointers, pos, child), value, a + WORD, b);
  }

  /** The parts of a node, with the pointers split into a and b bytes. */
  lemma OpenHolds(s: seq<Byte>, edges: seq<Byte>, pointers: seq<Byte>, value: seq<Byte>, a: nat, b: nat)
    requires Holds(s, edges, pointers, value) && a + b == WORD * |edges|
    ensures var p := Pointers(|edges|);
            && |pointers| == a + b && (|value| == 0 || |value| == WORD) && p + a + b + |value| <= |s|
            && s[HEADER..HEADER + |edges|] == edges
            && s[p..p + (a + b)] == pointers && s[p + a + b..p + a + b + |value|] == value
  {
  }

  lemma MakeHolds(s: seq<Byte>, edges: seq<Byte>, pointers: seq<Byte>, value: seq<Byte>, a: nat, b: nat)
    requires a + b == WORD * |edges| == |pointers| && (|value| == 0 || |value| == WORD)
    requires var p := Pointers(|edges|);
             && p + a + b + |value| <= |s|
             && s[HEADER..HEADER + |edges|] == edges
             && s[p..p + a + b] == pointers && s[p + a + b..p + a + b + |value|] == value
    ensures Holds(s, edges, pointers, value)
  {
  }

  lemma AddedPointers(s: seq<Byte>, p: nat, q: nat, a: nat, b: nat, v: nat, pos: nat, n: nat, c: Byte,
                      child: seq<Byte>, pointers: seq<Byte>)
    requires p <= q && q + a + WORD + b + v <= |s| && pos <= n && HEADER + n + 1 <= q && |child| == WORD
    requires s[p..p + (a + b)] == pointers
    ensures Fill(Spread(s, p, q, a, b, v), pos, n, c, q + a, child)[q..q + a + WORD + b]
         == pointers[..a] + child + pointers[a..]
  {
    hide Move, Write, Spread, Fill;
    var w := q + a;
    var m := Spread(s, p, q, a, b, v);
    var r := Fill(m, pos, n, c, w, child);
    SpreadBehind(s, p, q, a, b, v);
    SpreadBefore(s, p, q, a, b, v);
    FillPointers(m, pos, n, c, w, child, q);
    Slice(s, p, p + (a + b), 0, a);
    Slice(s, p, p + (a + b), a, a + b);
    assert pointers[..a] == pointers[0..a] && pointers[a..] == pointers[a..a + b];
    Slice(r, w + WORD, |r|, 0, b);
    Slice(m, w + WORD, |m|, 0, b);
    assert r[q..w] == pointers[..a] && r[w..w + WORD] == child;
    assert r[w + WORD..w + WORD + b] == pointers[a..];
    Join(r, q, w, w + WORD);
    Join(r, q, w + WORD, w + WORD + b);
  }

  lemma AddedValue(s: seq<Byte>, p: nat, q: nat, a: nat, b: nat, v: nat, pos: nat, n: nat, c: Byte,
                   child: seq<Byte>)
    requires p <= q && q + a + WORD + b + v <= |s| && pos <= n && HEADER + n + 1 <= q && |child| == WORD
    ensures Fill(Spread(s, p, q, a, b, v), pos, n, c, q + a, child)[q + a + WORD + b..q + a + WORD + b + v]
         == s[p + a + b..p + a + b + v]
  {
    hide Move, Write, Spread, Fill;
    var w := q + a;
    var m := Spread(s, p, q, a, b, v);
    var r := Fill(m, pos, n, c, w, child);
    SpreadValue(s, p, q, a, b, v);
    FillPointers(m, pos, n, c, w, child, q);
    Slice(r, w + WORD, |r|, b, b + v);
    Slice(m, w + WORD, |m|, b, b + v);
  }

  lemma AddedEdges(s: seq<Byte>, m: seq<Byte>, r: seq<Byte>, edges: seq<Byte>, p: nat, pos: nat, c: Byte,
                   w: nat, child: seq<Byte>)
    requires pos <= |edges| && HEADER + |edges| <= p <= |s| == |m| && HEADER + |edges| + 1 <= w
    requires w + |child| <= |s| && s[HEADER..HEADER + |edges|] == edges && m[..p] == s[..p]
    requires r == Fill(m, pos, |edges|, c, w, child)
    ensures r[HEADER..HEADER + |edges| + 1] == InsertEdge(edges, pos, c)
  {
    hide Move, Write, Fill;
    var n, h := |edges|, HEADER + pos;
    FillEdges(m, pos, n, c, w, child);
    Slice(m, 0, p, HEADER, h);
    Slice(s, 0, p, HEADER, h);
    Slice(m, 0, p, h, HEADER + n);
    Slice(s, 0, p, h, HEADER + n);
    Slice(s, HEADER, HEADER + n, 0, pos);
    Slice(s, HEADER, HEADER + n, pos, n);
    Join(r, HEADER, h, h + 1);
    Join(r, HEADER, h + 1, HEADER + n + 1);
  }

  lemma NoMove(s: seq<Byte>, at: nat, n: nat)
    requires at + n <= |s|
    ensures Move(s, at, at, n) == s
  {
  }

  lemma EmptyMove(s: seq<Byte>, dst: nat, src: nat)
    requires dst <= |s| && src <= |s|
    ensures Move(s, dst, src, 0) == s
  {
  }

  /** More bytes at the end do not matter. */
  lemma HoldsLonger(s: seq<Byte>, t: seq<Byte>, edges: seq<Byte>, pointers: seq<Byte>, value: seq<Byte>)
    requires Holds(s, edges, pointers, value) && |s| <= |t| && t[..|s|] == s
    ensures Holds(t, edges, pointers, value)
  {
    hide Pointers;
    var n := |edges|;
    var p := Pointers(n);
    Slice(t, 0, |s|, HEADER, HEADER + n);
    Slice(t, 0, |s|, p, p + WORD * n);
    Slice(t, 0, |s|, p + WORD * n, p + WORD * n + |value|);
  }

  lemma HoldsShorter(s: seq<Byte>, size: nat, edges: seq<Byte>, pointers: seq<Byte>, value: seq<Byte>)
    requires Holds(s, edges, pointers, value) && Length(|edges|, |value|) <= size <= |s|
    ensures Holds(s[..size], edges, pointers, value)
  {
    hide Pointers;
    var n := |edges|;
    var p := Pointers(n);
    Slice(s, 0, size, HEADER, HEADER + n);
    Slice(s, 0, size, p, p + WORD * n);
    Slice(s, 0, size, p + WORD * n, p + WORD * n + |value|);
  }

  /** The first edge greater than c, by the scan of raxAddChild over the edge bytes in memory. */
  method ScanEdges(node: array<Byte>, size: nat, c: Byte) returns (pos: nat)
    requires HEADER + size <= node.Length
    ensures pos <= size && (forall i | HEADER <= i < HEADER + pos :: node[i] <= c)
    ensures pos < size ==> node[HEADER + pos] > c
  {
    pos := 0;
    while pos < size
      invariant 0 <= pos <= size && forall i | HEADER <= i < HEADER + pos :: node[i] <= c
    {
      if node[HEADER + pos] > c {
        return;
      }
      pos := pos + 1;
    }
  }

  method Realloc(node: array<Byte>, size: nat) returns (r: array<Byte>)
    ensures fresh(r) && r.Length == size
    ensures node.Length <= size ==> r[..node.Length] == node[..]
    ensures size <= node.Length ==> r[..] == node[..size]
  {
    r := new Byte[size](_ => 0);
    forall i | 0 <= i < size && i < node.Length {
      r[i] := node[i];
    }
  }

  /** raxAddChild: the reallocated node holds the new pair at its sorted place and all it held before. */
  method AddChild(node: array<Byte>, size: nat, valueLen: nat, c: Byte, child: seq<Byte>,
                  ghost edges: seq<Byte>, ghost pointers: seq<Byte>, ghost value: seq<Byte>)
    returns (r: array<Byte>, pos: nat)
    requires Holds(node[..], edges, pointers, value) && |edges| == size && |value| == valueLen
    requires node.Length == Length(size, valueLen) && |child| == WORD
    ensures fresh(r) && r.Length == Length(size + 1, valueLen)
    ensures pos <= size && (forall i | 0 <= i < pos :: edges[i] <= c) && (pos < size ==> edges[pos] > c)
    ensures Holds(r[..], InsertEdge(edges, pos, c), InsertPointer(pointers, pos, child), value)
  {
    hide Move, Write, Spread, Fill, Pointers, Holds;
    NextPointers(size);
    var p, q := Pointers(size), Pointers(size + 1);
    r := Realloc(node, Length(size + 1, valueLen));
    HoldsLonger(node[..], r[..], edges, pointers, value);
    ghost var s := r[..];
    pos := ScanEdges(r, size, c);
    EdgesInMemory(s, edges, pointers, value);
    var a, b := WORD * pos, WORD * (size - pos);
    SpreadInPlace(r, p, q, a, b, valueLen);
    FillInPlace(r, pos, size, c, q + a, child);
    AddedHolds(s, edges, pointers, value, pos, c, child);
  }

  lemma EdgesInMemory(s: seq<Byte>, edges: seq<Byte>, pointers: seq<Byte>, value: seq<Byte>)
    requires Holds(s, edges, pointers, value)
    ensures HEADER + |edges| <= |s| && forall i | 0 <= i < |edges| :: edges[i] == s[HEADER + i]
  {
    var n := |edges|;
    forall i | 0 <= i < n
      ensures edges[i] == s[HEADER + i]
    {
      assert s[HEADER..HEADER + n][i] == s[HEADER + i];
    }
  }

  method SpreadInPlace(r: array<Byte>, p: nat, q: nat, a: nat, b: nat, v: nat)
    requires p <= q && q + a + WORD + b + v <= r.Length
    modifies r
    ensures r[..] == Spread(old(r[..]), p, q, a, b, v)
  {
    hide Move;
    if v > 0 {
      MemMove(r, q + a + WORD + b, p + a + b, v);
    } else {
      EmptyMove(r[..], q + a + WORD + b, p + a + b);
    }
    MemMove(r, q + a + WORD, p + a, b);
    if q > p {
      MemMove(r, q, p, a);
    } else {
      NoMove(r[..], p, a);
    }
  }

  method FillInPlace(r: array<Byte>, pos: nat, n: nat, c: Byte, w: nat, child: seq<Byte>)
    requires pos <= n && HEADER + n + 1 <= w && w + |child| <= r.Length
    modifies r
    ensures r[..] == Fill(old(r[..]), pos, n, c, w, child)
  {
    hide Move;
    MemMove(r, HEADER + pos + 1, HEADER + pos, n - pos);
    ghost var s := r[..];
    r[HEADER + pos] := c;
    assert r[..] == Write(s, HEADER + pos, [c]);
    MemCopy(r, w, child);
  }

  // ---------------------------------------------------------------- one child less

  /** The moves of raxRemoveChild for child i of n, the pointer area going from p to q. */
  ghost function Closed(s: seq<Byte>, p: nat, q: nat, i: nat, n: nat, a: nat, b: nat, v: nat): (r: seq<Byte>)
    requires i < n && HEADER + n <= p && q <= p <= q + WORD && p + a + WORD + b + v <= |s|
    ensures |r| == |s|
  {
    var s1 := Move(s, HEADER + i, HEADER + i + 1, n - i - 1);
    var s2 := Move(s1, q, p, a);
    Move(s2, q + a, p + a + WORD, b + v)
  }

  lemma ClosedPointers(s: seq<Byte>, p: nat, q: nat, i: nat, n: nat, a: nat, b: nat, v: nat)
    requires i < n && HEADER + n <= p && HEADER + n - 1 <= q <= p <= q + WORD && p + a + WORD + b + v <= |s|
    ensures var r := Closed(s, p, q, i, n, a, b, v);
            r[q..q + a] == s[p..p + a] && r[q + a..q + a + (b + v)] == s[p + a + WORD..p + a + WORD + (b + v)]
  {
    hide Move;
    var h, w := HEADER + i, p + a + WORD;
    var s1 := Move(s, h, h + 1, n - i - 1);
    MoveKeeps(s, h, h + 1, n - i - 1, p, p + a);
    MoveKeeps(s, h, h + 1, n - i - 1, w, w + (b + v));
    var s2 := Move(s1, q, p, a);
    MoveBrings(s1, q, p, a);
    MoveKeeps(s1, q, p, a, w, w + (b + v));
    MoveBrings(s2, q + a, w, b + v);
    MoveKeeps(s2, q + a, w, b + v, q, q + a);
  }

  lemma ClosedEdges(s: seq<Byte>, p: nat, q: nat, i: nat, n: nat, a: nat, b: nat, v: nat, edges: seq<Byte>)
    requires i < n && HEADER + n <= p && HEADER + n - 1 <= q <= p <= q + WORD && p + a + WORD + b + v <= |s|
    requires |edges| == n && s[HEADER..HEADER + n] == edges
    ensures Closed(s, p, q, i, n, a, b, v)[HEADER..HEADER + n - 1] == edges[..i] + edges[i + 1..]
  {
    hide Move;
    var h, e := HEADER + i, HEADER + n - 1;
    var s1 := Move(s, h, h + 1, n - i - 1);
    MoveBrings(s, h, h + 1, n - i - 1);
    MoveKeeps(s, h, h + 1, n - i - 1, HEADER, h);
    Slice(s, HEADER, HEADER + n, 0, i);
    Slice(s, HEADER, HEADER + n, i + 1, n);
    Join(s1, HEADER, h, e);
    var s2 := Move(s1, q, p, a);
    MoveKeeps(s1, q, p, a, HEADER, e);
    MoveKeeps(s2, q + a, p + a + WORD, b + v, HEADER, e);
  }

  function DeleteEdge(edges: seq<Byte>, i: nat): seq<Byte>
    requires i < |edges|
  {
    edges[..i] + edges[i + 1..]
  }

  function DeletePointer(pointers: seq<Byte>, i: nat): seq<Byte>
    requires WORD * (i + 1) <= |pointers|
  {
    pointers[..WORD * i] + pointers[WORD * (i + 1)..]
  }

  /** The memmoves of raxRemoveChild delete edge and pointer i, and keep every other one. */
  lemma ClosedHolds(s: seq<Byte>, edges: seq<Byte>, pointers: seq<Byte>, value: seq<Byte>, i: nat)
    requires Holds(s, edges, pointers, value) && i < |edges|
    ensures var n := |edges|;
            var p, q, a, b := Pointers(n), Pointers(n - 1), WORD * i, WORD * (n - i - 1);
            && q <= p <= q + WORD && HEADER + n <= p && p + a + WORD + b + |value| <= |s|
            && Holds(Closed(s, p, q, i, n, a, b, |value|), DeleteEdge(edges, i), DeletePointer(pointers, i), value)
  {
    hide Move, Closed, Pointers, Holds;
    var n, v := |edges|, |value|;
    NextPointers(n - 1);
    var p, q, a, b := Pointers(n), Pointers(n - 1), WORD * i, WORD * (n - i - 1);
    OpenHolds(s, edges, pointers, value, a, WORD + b);
    var r := Closed(s, p, q, i, n, a, b, v);
    ClosedEdges(s, p, q, i, n, a, b, v, edges);
    ClosedPointers(s, p, q, i, n, a, b, v);
    ClosedJoin(s, r, p, q, a, b, v, pointers);
    MakeHolds(r, DeleteEdge(edges, i), DeletePointer(pointers, i), value, a, b);
  }

  lemma ClosedJoin(s: seq<Byte>, r: seq<Byte>, p: nat, q: nat, a: nat, b: nat, v: nat, pointers: seq<Byte>)
    requires q <= p && p + a + WORD + b + v <= |s| == |r|
    requires r[q..q + a] == s[p..p + a] && r[q + a..q + a + (b + v)] == s[p + a + WORD..p + a + WORD + (b + v)]
    requires |pointers| == a + WORD + b && s[p..p + (a + (WORD + b))] == pointers
    ensures r[q..q + a + b] == pointers[..a] + pointers[a + WORD..]
    ensures r[q + a + b..q + a + b + v] == s[p + a + WORD + b..p + a + WORD + b + v]
  {
    var w := p + a + WORD;
    Slice(s, p, p + (a + (WORD + b)), 0, a);
    Slice(s, p, p + (a + (WORD + b)), a + WORD, a + WORD + b);
    assert pointers[..a] == pointers[0..a] && pointers[a + WORD..] == pointers[a + WORD..a + WORD + b];
    Slice(r, q + a, q + a + (b + v), 0, b);
    Slice(s, w, w + (b + v), 0, b);
    Slice(r, q + a, q + a + (b + v), b, b + v);
    Slice(s, w, w + (b + v), b, b + v);
    Join(r, q, q + a, q + a + b);
  }

  /** The scan of raxRemoveChild for the child's pointer, which it relies on finding. */
  method FindPointer(node: array<Byte>, p: nat, n: nat, child: seq<Byte>, ghost at: nat) returns (i: nat)
    requires |child| == WORD && p + WORD * n <= node.Length
    requires at < n && node[p + WORD * at..p + WORD * (at + 1)] == child
    ensures i <= at && node[p + WORD * i..p + WORD * (i + 1)] == child
  {
    i := 0;
    while node[p + WORD * i..p + WORD * (i + 1)] != child
      invariant 0 <= i <= at
      decreases at - i
    {
      i := i + 1;
    }
  }

  /** raxRemoveChild on an uncompressed node. */
  method RemoveChild(node: array<Byte>, size: nat, valueLen: nat, child: seq<Byte>, ghost at: nat,
                     ghost edges: seq<Byte>, ghost pointers: seq<Byte>, ghost value: seq<Byte>)
    returns (r: array<Byte>, i: nat)
    requires Holds(node[..], edges, pointers, value) && |edges| == size && |value| == valueLen
    requires |child| == WORD && at < size && WORD * (at + 1) <= |pointers|
    requires pointers[WORD * at..WORD * (at + 1)] == child
    modifies node
    ensures fresh(r) && r.Length == Length(size - 1, valueLen)
    ensures i <= at && WORD * (i + 1) <= |pointers| && pointers[WORD * i..WORD * (i + 1)] == child
    ensures Holds(r[..], DeleteEdge(edges, i), DeletePointer(pointers, i), value)
  {
    hide Move, Closed, Holds, Pointers;
    var p := Pointers(size);
    PointerInMemory(node[..], edges, pointers, value, at);
    i := FindPointer(node, p, size, child, at);
    PointerInMemory(node[..], edges, pointers, value, i);
    ClosedHolds(node[..], edges, pointers, value, i);
    // only a last character word that held a single edge byte gives a word back
    var shift := if (size + HEADER) % WORD == 1 then WORD else 0;
    ShiftBack(size);
    CloseInPlace(node, p, p - shift, i, size, WORD * i, WORD * (size - i - 1), valueLen);
    HoldsShorter(node[..], Length(size - 1, valueLen), DeleteEdge(edges, i), DeletePointer(pointers, i), value);
    r := Realloc(node, Length(size - 1, valueLen));
  }

  /** buf holds the bytes of a compressed node, the pointer of its only child and this value pointer. */
  ghost predicate HoldsCompressed(buf: seq<Byte>, edges: seq<Byte>, pointer: seq<Byte>, value: seq<Byte>) {
    var p := Pointers(|edges|);
    && |pointer| == WORD && (|value| == 0 || |value| == WORD) && p + WORD + |value| <= |buf|
    && buf[HEADER..HEADER + |edges|] == edges && buf[p..p + WORD] == pointer && buf[p + WORD..p + WORD + |value|] == value
  }

  /** raxRemoveChild on a compressed node: a node without edges that keeps its value. */
  method RemoveOnlyChild(node: array<Byte>, size: nat, valueLen: nat,
                         ghost edges: seq<Byte>, ghost pointer: seq<Byte>, ghost value: seq<Byte>)
    requires HoldsCompressed(node[..], edges, pointer, value) && |edges| == size && |value| == valueLen
    modifies node
    ensures Holds(node[..], [], [], value)
  {
    hide Write;
    var at, to := Pointers(size) + WORD, Pointers(0);
    Pointers0(size);
    ghost var s := node[..];
    var data := node[at..at + valueLen];
    assert data == s[at..at + valueLen];
    if valueLen > 0 {
      MemCopy(node, to, data);
      WriteBrings(s, to, data);
    }
  }

  lemma Pointers0(size: nat)
    ensures Pointers(0) == 8 <= Pointers(size) + WORD
  {
  }

  lemma ShiftBack(size: nat)
    requires size > 0
    ensures Pointers(size - 1) == Pointers(size) - if (size + HEADER) % WORD == 1 then WORD else 0
  {
  }

  method CloseInPlace(node: array<Byte>, p: nat, q: nat, i: nat, n: nat, a: nat, b: nat, v: nat)
    requires i < n && HEADER + n <= p && q <= p <= q + WORD && p + a + WORD + b + v <= node.Length
    modifies node
    ensures node[..] == Closed(old(node[..]), p, q, i, n, a, b, v)
  {
    hide Move;
    MemMove(node, HEADER + i, HEADER + i + 1, n - i - 1);
    if q < p {
      MemMove(node, q, p, a);
    } else {
      NoMove(node[..], p, a);
    }
    MemMove(node, q + a, p + a + WORD, b + v);
  }

  lemma PointerInMemory(s: seq<Byte>, edges: seq<Byte>, pointers: seq<Byte>, value: seq<Byte>, i: nat)
    requires Holds(s, edges, pointers, value) && i < |edges|
    ensures var p := Pointers(|edges|);
            && p + WORD * |edges| <= |s| && |pointers| == WORD * |edges|
            && s[p + WORD * i..p + WORD * (i + 1)] == pointers[WORD * i..WORD * (i + 1)]
  {
    hide Pointers;
    var p := Pointers(|edges|);
    Slice(s, p, p + WORD * |edges|, WORD * i, WORD * (i + 1));
  }
}
