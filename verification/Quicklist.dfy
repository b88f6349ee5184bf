/**
  The quicklist of src/list/quicklist.c: a chain of listpacks and single large items, the inner ones
  compressed. Whatever is compressed, the elements are those that were pushed, in their order.
*/
module Quicklist {
  import opened Wrappers
  import opened Bytes
  import LzfFormat
  import LzfTable
  import LzfPack
  import Lzf
  import ListpackNumber
  import ListpackFormat
  import Listpack
  import opened LinkedList
  import QuicklistLinks

  const PACKED_THRESHOLD := 0x4000_0000
  const SIZE_ESTIMATE_OVERHEAD := 8
  const MIN_COMPRESS_BYTES := 48
  const MIN_COMPRESS_IMPROVE := 8
  const SIZE_SAFETY_LIMIT := 8192
  const FILL_MAX := 32767
  const COMPRESS_MAX := 65535
  const SIZE_LIMIT := 0x8000_0000_0000_0000

  /** The length of the entry is lzf->sz when the node is compressed; sz is always the raw size. */
  datatype QNode = QNode(entry: seq<Byte>, sz: nat, count: nat, lzf: bool, plain: bool, attempted: bool)

  // ---------------------------------------------------------------- what a node holds

  /** The raw bytes of a node and, for a listpack, the bodies of its entries. */
  datatype Shadow = Shadow(plain: bool, raw: seq<Byte>, row: seq<seq<Byte>>)

  ghost predicate ShadowOk(sh: Shadow) {
    if sh.plain then sh.row == [] && PACKED_THRESHOLD <= |sh.raw| < SIZE_LIMIT
    else Listpack.Holds(sh.raw, sh.row) && sh.row != []
  }

  ghost predicate NodeOk(n: QNode, sh: Shadow) {
    && ShadowOk(sh) && n.plain == sh.plain && n.sz == |sh.raw|
    && (if n.lzf then LzfFormat.Decode(n.entry, [], n.sz) == LzfFormat.Done(sh.raw) else n.entry == sh.raw)
  }

  ghost function TextsOf(sh: Shadow): seq<seq<Byte>>
    requires ShadowOk(sh)
  {
    if sh.plain then [sh.raw]
    else TextsRow(sh.row)
  }

  ghost predicate AllShadows(shs: seq<Shadow>) {
    forall i | 0 <= i < |shs| :: ShadowOk(shs[i])
  }

  /** All elements, node after node. */
  ghost function AllTexts(shs: seq<Shadow>): seq<seq<Byte>>
    requires AllShadows(shs)
  {
    if shs == [] then [] else TextsOf(shs[0]) + AllTexts(shs[1..])
  }

  ghost function CountOf(sh: Shadow): nat {
    if sh.plain then 1 else |sh.row|
  }

  lemma {:induction false} AllTextsConcat(a: seq<Shadow>, b: seq<Shadow>)
    requires AllShadows(a) && AllShadows(b)
    ensures AllShadows(a + b) && AllTexts(a + b) == AllTexts(a) + AllTexts(b)
    decreases |a|
  {
    hide TextsOf, ShadowOk;
    if a == [] {
      assert a + b == b;
    } else {
      assert (a + b)[1..] == a[1..] + b;
      AllTextsConcat(a[1..], b);
    }
  }

  lemma OneText(sh: Shadow)
    requires ShadowOk(sh)
    ensures AllShadows([sh]) && AllTexts([sh]) == TextsOf(sh)
  {
    hide TextsOf, ShadowOk;
    var one := [sh];
    assert one[1..] == [];
  }

  // ---------------------------------------------------------------- limits

  /** quick_listNodeLimit: a limit on the size or, for a fill that is not negative, on the count. */
  function SizeLimit(fill: int): nat
    requires fill < 0
  {
    if fill == -1 then 4096 else if fill == -2 then 8192 else if fill == -3 then 16384 else if fill == -4 then 32768 else 65536
  }

  /** quick_listNodeExceedsLimit. */
  predicate ExceedsLimit(fill: int, newSize: nat, newCount: nat) {
    if fill < 0 then newSize > SizeLimit(fill)
    else newSize > SIZE_SAFETY_LIMIT || newCount > (if fill == 0 then 1 else fill)
  }

  /** _quick_listNodeAllowInsert for an existing node. */
  predicate AllowInsert(n: QNode, fill: int, size: nat) {
    && !n.plain && size < PACKED_THRESHOLD
    && !ExceedsLimit(fill, n.sz + size + SIZE_ESTIMATE_OVERHEAD, n.count + 1)
  }

  /**
    The rule in numbers: elements of 1 GB have nodes of their own, and a listpack takes another element while
    its bytes, with the element and eight more, keep to 4, 8, 16, 32 or 64 KB for a fill of -1 to -5, or to
    8 KB and its elements to the fill for a fill that is not negative.
  */
  ghost predicate HasRoom(n: QNode, fill: int, size: nat) {
    var bytes := n.sz + size + 8;
    && !n.plain && size < 1073741824
    && (fill == -1 ==> bytes <= 4096) && (fill == -2 ==> bytes <= 8192) && (fill == -3 ==> bytes <= 16384)
    && (fill == -4 ==> bytes <= 32768) && (fill <= -5 ==> bytes <= 65536)
    && (fill >= 0 ==> bytes <= 8192 && n.count + 1 <= (if fill == 0 then 1 else fill))
  }

  /** Every entry of a listpack takes two bytes at least. */
  lemma {:induction false} RowLength(es: seq<seq<Byte>>)
    requires Listpack.AllOk(es)
    ensures |Listpack.Row(es)| >= 2 * |es|
    decreases |es|
  {
    if es != [] {
      RowLength(es[1..]);
    }
  }

  lemma HoldsLength(lp: seq<Byte>, es: seq<seq<Byte>>)
    requires Listpack.Holds(lp, es)
    ensures |lp| >= 7 + 2 * |es|
  {
    hide Listpack.Row;
    RowLength(es);
    assert |lp[6..]| == |lp| - 6;
  }

  /** The encoding of an element is not much longer than the element. */
  lemma StoredLength(s: seq<Byte>, body: seq<Byte>)
    requires ListpackFormat.Stored(s, body) && |s| < PACKED_THRESHOLD
    ensures |Listpack.EntryBytes(body)| <= |s| + 14
  {
    hide ListpackNumber.EncodeInt, ListpackNumber.Decimal;
  }

  // ---------------------------------------------------------------- where compression applies

  /** Further than the compression depth from both ends. */
  predicate Interior(i: int, n: int, depth: int) {
    depth >= 1 && depth <= i < n - depth
  }

  lemma Inside(i: int, n: int, depth: int)
    requires depth >= 1
    ensures Interior(i, n, depth) <==> depth <= i < n - depth
  {
  }

  ghost predicate AllOk(nodes: seq<QNode>, shs: seq<Shadow>) {
    |nodes| == |shs| && forall i | 0 <= i < |nodes| :: NodeOk(nodes[i], shs[i])
  }

  /** The ends are raw, and exactly the inner nodes have been tried. */
  ghost predicate Guided(nodes: seq<QNode>, depth: int) {
    forall i | 0 <= i < |nodes| ::
      && (nodes[i].lzf ==> Interior(i, |nodes|, depth))
      && (nodes[i].attempted <==> Interior(i, |nodes|, depth))
  }

  ghost predicate Counted(nodes: seq<QNode>, shs: seq<Shadow>) {
    |nodes| == |shs| && forall i | 0 <= i < |nodes| :: nodes[i].count == CountOf(shs[i]) && 1 <= nodes[i].count <= FILL_MAX
  }

  /**
    __quick_listCompressNode on a node that is not compressed. Where the node lies and what the hash table
    held before are whatever they are; what lzf_compress makes of them is kept if it saves enough.
  */
  method CompressNode(n: QNode, ghost sh: Shadow) returns (r: QNode, ghost base: LzfTable.Address, ghost table: seq<LzfTable.Address>)
    requires NodeOk(n, sh) && !n.lzf
    ensures NodeOk(r, sh) && r.count == n.count && r.attempted
    ensures n.sz < 48 ==> !r.lzf
    ensures n.sz >= 48 ==>
              && |table| == LzfTable.HSIZE && base + |n.entry| < LzfTable.ADDRESS_LIMIT
              && var packed := LzfPack.Packed(n.entry, base, table, n.sz);
                 if packed.Some? && |packed.value| + 8 < n.sz then r.lzf && r.entry == packed.value else !r.lzf
    ensures n.sz >= 48 && LzfTable.Uniform(n.entry) ==> r.lzf && |r.entry| <= 9 + 3 * (n.sz / 264)
  {
    hide LzfFormat.Decode, Listpack.Holds, LzfTable.Uniform, LzfPack.Packed;
    r := n.(attempted := true);
    base, table := 0, [];
    if n.sz < MIN_COMPRESS_BYTES {
      return;
    }
    var out := new Byte[n.sz];
    var htab := new LzfTable.Address[LzfTable.HSIZE];
    ShadowSize(sh);
    assert LzfFormat.MAX_OFF <= LzfFormat.MAX_OFF && LzfFormat.MAX_OFF + |n.entry| < LzfTable.ADDRESS_LIMIT;
    var at: LzfTable.Address :| LzfFormat.MAX_OFF <= at && at + |n.entry| < LzfTable.ADDRESS_LIMIT;
    var beyond := new Byte[1];
    base, table := at, htab[..];
    var size, wild := Lzf.Compress(n.entry, beyond[0], out, htab, at);
    if size == 0 || size + MIN_COMPRESS_IMPROVE >= n.sz {
      return;
    }
    r := r.(entry := out[..size], lzf := true);
  }

  lemma ShadowSize(sh: Shadow)
    requires ShadowOk(sh)
    ensures 0 < |sh.raw| < SIZE_LIMIT
  {
  }

  /** __quick_listDecompressNode on a compressed node: it never fails. */
  method DecompressNode(n: QNode, ghost sh: Shadow) returns (ok: bool, r: QNode)
    requires NodeOk(n, sh) && n.lzf
    ensures ok && NodeOk(r, sh) && r.count == n.count && !r.lzf && !r.attempted
  {
    hide LzfFormat.Decode, Listpack.Holds;
    r := n.(attempted := false);
    var out := new Byte[n.sz];
    ShadowSize(sh);
    var size, status := Lzf.Decompress(n.entry, out);
    ok := size != 0;
    if ok {
      r := r.(entry := out[..], lzf := false);
    }
  }

  // ---------------------------------------------------------------- forcing the guidelines

  ghost predicate SameCounts(a: seq<QNode>, b: seq<QNode>) {
    |a| == |b| && forall i | 0 <= i < |a| :: b[i].count == a[i].count
  }

  ghost predicate TriedIfPacked(nodes: seq<QNode>) {
    forall i | 0 <= i < |nodes| :: nodes[i].lzf ==> nodes[i].attempted
  }

  /** What a pass over a list that is long enough does, whatever the state before. */
  ghost predicate Forced(a: seq<QNode>, b: seq<QNode>, depth: int, at: int) {
    |a| == |b| && forall i | 0 <= i < |a| ::
      if Interior(i, |a|, depth) then
        && (i == at || i == depth || i == |a| - 1 - depth || b[i] == a[i])
        && (a[i].attempted || i == at || i == depth || i == |a| - 1 - depth ==> b[i].attempted)
      else !b[i].lzf && (!a[i].lzf ==> b[i] == a[i])
  }

  /** All inner nodes but the outermost two have been tried, and no other node has. */
  ghost predicate NearlyGuided(nodes: seq<QNode>, depth: int) {
    forall i | 0 <= i < |nodes| ::
      && (nodes[i].lzf ==> nodes[i].attempted)
      && (nodes[i].attempted ==> Interior(i, |nodes|, depth))
      && (Interior(i, |nodes|, depth) && i != depth && i != |nodes| - 1 - depth ==> nodes[i].attempted)
  }

  lemma ForcedGuided(a: seq<QNode>, b: seq<QNode>, depth: int, at: int)
    requires NearlyGuided(a, depth) && depth >= 0
    requires if depth >= 1 && |a| >= 2 * depth then Forced(a, b, depth, at) && TriedIfPacked(b) else b == a
    ensures Guided(b, depth)
  {
  }

  /** The nodes at both ends up to this depth were made raw and the others left. */
  ghost predicate RawEnds(a: seq<QNode>, b: seq<QNode>, depth: int) {
    |a| == |b| && forall i | 0 <= i < |a| ::
      if depth <= i < |a| - depth then b[i] == a[i] else !b[i].lzf && (!a[i].lzf ==> b[i] == a[i])
  }

  lemma RawNone(a: seq<QNode>)
    ensures RawEnds(a, a, 0) && SameCounts(a, a)
  {
  }

  /** Without inner nodes that is all there is to do. */
  lemma RawForced(a: seq<QNode>, b: seq<QNode>, depth: int, compress: int, at: int)
    requires RawEnds(a, b, depth) && |a| <= 2 * depth && depth <= compress
    ensures Forced(a, b, compress, at)
  {
  }

  /** The ends raw, then up to three inner nodes compressed. */
  lemma PackedForced(a: seq<QNode>, m: seq<QNode>, b: seq<QNode>, depth: int, at: int)
    requires |m| == |b| && depth >= 1 && |a| > 2 * depth && RawEnds(a, m, depth)
    requires forall i | 0 <= i < |a| && i != depth && i != |a| - 1 - depth && !(i == at && Interior(at, |a|, depth)) :: b[i] == m[i]
    requires b[depth].attempted && b[|a| - 1 - depth].attempted
    requires Interior(at, |a|, depth) ==> b[at].attempted
    ensures Forced(a, b, depth, at)
  {
  }

  lemma GuidedNearly(nodes: seq<QNode>, depth: int)
    requires Guided(nodes, depth)
    ensures NearlyGuided(nodes, depth) && TriedIfPacked(nodes)
  {
  }

  /** A new raw node at either end shifts one node across the depth. */
  lemma GrownNearly(nodes: seq<QNode>, n: QNode, depth: int)
    requires Guided(nodes, depth) && !n.lzf && !n.attempted
    ensures NearlyGuided([n] + nodes, depth) && NearlyGuided(nodes + [n], depth)
  {
    var a, b := [n] + nodes, nodes + [n];
    assert forall i | 0 < i < |a| :: a[i] == nodes[i - 1];
    assert forall i | 0 <= i < |nodes| :: b[i] == nodes[i];
  }

  /** node->entry and its fields = value, seen from the whole list. */
  method PutValue<T>(list: List<T>, node: Node<T>, value: T, ghost i: nat)
    requires list.Valid() && i < |list.nodes| && list.nodes[i] == node
    modifies node`value
    ensures list.Valid() && Values(list.nodes) == old(Values(list.nodes))[i := value]
  {
    hide Distinct, InOrder;
    Alone(list.nodes, i);
    list.SetValue(node, value);
  }

  class QuickList {
    const chain: List<QNode>
    var count: nat
    var fill: int
    var compress: int
    ghost var nodes: seq<QNode>
    ghost var shadows: seq<Shadow>
    ghost var elements: seq<seq<Byte>>

    /** The pointers are in order, and the nodes they lead through are these. */
    ghost predicate Linked()
      reads this`nodes, chain, chain.nodes
    {
      chain.Valid() && nodes == Values(chain.nodes)
    }

    ghost predicate Valid()
      reads this, chain, chain.nodes
    {
      && Linked() && -5 <= fill <= FILL_MAX && 0 <= compress <= COMPRESS_MAX
      && AllOk(nodes, shadows) && Counted(nodes, shadows) && Guided(nodes, compress)
      && AllShadows(shadows) && AllTexts(shadows) == elements && count == |elements|
    }

    /** quick_list_new. */
    constructor (fill: int, compress: int)
      ensures Valid() && elements == [] && fresh(chain) && fresh(chain.nodes)
      ensures this.fill == (if fill > 32767 then 32767 else if fill < -5 then -5 else fill)
      ensures this.compress == (if compress > 65535 then 65535 else if compress < 0 then 0 else compress)
    {
      this.fill := if fill > FILL_MAX then FILL_MAX else if fill < -5 then -5 else fill;
      this.compress := if compress > COMPRESS_MAX then COMPRESS_MAX else if compress < 0 then 0 else compress;
      chain := new List();
      count, nodes, shadows, elements := 0, [], [], [];
    }

    /** The ends of the chain, and a node of it. */
    lemma Ends()
      requires Linked()
      ensures chain.len == |chain.nodes| == |nodes|
      ensures chain.head == (if nodes == [] then null else chain.nodes[0])
      ensures chain.tail == (if nodes == [] then null else chain.nodes[|nodes| - 1])
    {
    }

    lemma At(i: nat)
      requires Linked() && i < |nodes|
      ensures |chain.nodes| == |nodes| && chain.nodes[i].value == nodes[i]
    {
    }

    /** What comparing the nodes at place i from both ends says of their places, and where they lead. */
    lemma Turn(i: nat, at: nat)
      requires Linked() && i < |nodes| && at < |nodes|
      ensures |chain.nodes| == |nodes|
      ensures var n, j := |nodes|, |nodes| - 1 - i;
              && (chain.nodes[i] == chain.nodes[at] <==> i == at) && (chain.nodes[j] == chain.nodes[at] <==> j == at)
              && (i <= j ==> (chain.nodes[i] == chain.nodes[j] || chain.nodes[i].next == chain.nodes[j] <==> n <= 2 * (i + 1)))
              && (n > 2 * (i + 1) ==> chain.nodes[i].next == chain.nodes[i + 1] && chain.nodes[j].prev == chain.nodes[j - 1])
    {
      hide Prevs, Nexts;
      chain.Pointers(i);
      chain.Pointers(|nodes| - 1 - i);
    }

    lemma NextIs(i: nat)
      requires Linked() && i < |nodes|
      ensures |chain.nodes| == |nodes| && chain.nodes[i].next == NextOf(chain.nodes, i)
    {
      chain.Pointers(i);
    }

    /** quick_listCompressNode. */
    method Pack(node: Node<QNode>, ghost i: nat)
      requires Linked() && i < |chain.nodes| && chain.nodes[i] == node && AllOk(nodes, shadows) && TriedIfPacked(nodes)
      modifies this`nodes, node`value
      ensures Linked() && |nodes| == |old(nodes)| && nodes == old(nodes)[i := nodes[i]] && nodes[i].attempted
      ensures nodes[i].count == old(nodes)[i].count && AllOk(nodes, shadows) && TriedIfPacked(nodes)
    {
      hide NodeOk, List.Valid;
      if !node.value.lzf {
        var r; ghost var base, table;
        r, base, table := CompressNode(node.value, shadows[i]);
        PutValue(chain, node, r, i);
        nodes := nodes[i := r];
      }
    }

    /** quick_listDecompressNode. */
    method Unpack(node: Node<QNode>, ghost i: nat)
      requires Linked() && i < |chain.nodes| && chain.nodes[i] == node && AllOk(nodes, shadows) && TriedIfPacked(nodes)
      modifies this`nodes, node`value
      ensures Linked() && |nodes| == |old(nodes)| && nodes == old(nodes)[i := nodes[i]] && !nodes[i].lzf
      ensures !old(nodes)[i].lzf ==> nodes[i] == old(nodes)[i]
      ensures nodes[i].count == old(nodes)[i].count && AllOk(nodes, shadows) && TriedIfPacked(nodes)
    {
      hide NodeOk, List.Valid;
      if node.value.lzf {
        var ok, r := DecompressNode(node.value, shadows[i]);
        assert ok;
        PutValue(chain, node, r, i);
        nodes := nodes[i := r];
      }
    }

    /** __quick_listCompress: the nodes within the depth are raw, the next ones and this one compressed. */
    method Force(node: Node<QNode>, ghost at: nat)
      requires Linked() && at < |chain.nodes| && chain.nodes[at] == node
      requires AllOk(nodes, shadows) && TriedIfPacked(nodes) && compress >= 0
      modifies this`nodes, chain.nodes
      ensures Linked() && AllOk(nodes, shadows) && TriedIfPacked(nodes) && SameCounts(old(nodes), nodes)
      ensures if compress >= 1 && |nodes| >= 2 * compress then Forced(old(nodes), nodes, compress, at) else nodes == old(nodes)
    {
      hide *;
      Ends();
      RawNone(nodes);
      if compress == 0 || chain.len < 2 * compress {
        return;
      }
      ghost var n := |nodes|;
      var forward, reverse, depth, inDepth := chain.head, chain.tail, 0, false;
      while depth < compress
        invariant Linked() && 0 <= depth <= compress && |nodes| == n == |chain.nodes| && (depth > 0 ==> n > 2 * depth)
        invariant forward == chain.nodes[depth] && reverse == chain.nodes[n - 1 - depth]
        invariant inDepth <==> at < depth || at >= n - depth
        invariant AllOk(nodes, shadows) && TriedIfPacked(nodes) && SameCounts(old(nodes), nodes)
        invariant RawEnds(old(nodes), nodes, depth)
      {
        UnpackBoth(forward, reverse, old(nodes), depth);
        Turn(depth, at);
        depth := depth + 1;
        if forward == node || reverse == node {
          inDepth := true;
        }
        if forward == reverse || forward.next == reverse {
          RawForced(old(nodes), nodes, depth, compress, at);
          return;
        }
        forward := forward.next;
        reverse := reverse.prev;
      }
      Inside(at, n, compress);
      PackInner(node, inDepth, forward, reverse, old(nodes), at);
    }

    /** One turn of the loop: a node at either end. */
    method UnpackBoth(forward: Node<QNode>, reverse: Node<QNode>, ghost before: seq<QNode>, ghost depth: nat)
      requires Linked() && |nodes| == |chain.nodes| > 2 * depth && AllOk(nodes, shadows) && TriedIfPacked(nodes)
      requires forward == chain.nodes[depth] && reverse == chain.nodes[|nodes| - 1 - depth]
      requires SameCounts(before, nodes) && RawEnds(before, nodes, depth)
      modifies this`nodes, chain.nodes
      ensures Linked() && |nodes| == |old(nodes)| && AllOk(nodes, shadows) && TriedIfPacked(nodes)
      ensures SameCounts(before, nodes) && RawEnds(before, nodes, depth + 1)
    {
      hide AllOk, TriedIfPacked, Linked;
      Unpack(forward, depth);
      Unpack(reverse, |nodes| - 1 - depth);
    }

    /** The end of __quick_listCompress: this node and the two just beyond the depth. */
    method PackInner(node: Node<QNode>, inDepth: bool, forward: Node<QNode>, reverse: Node<QNode>,
                     ghost before: seq<QNode>, ghost at: nat)
      requires Linked() && at < |chain.nodes| == |nodes| == |before| && AllOk(nodes, shadows) && TriedIfPacked(nodes)
      requires compress >= 1 && |nodes| > 2 * compress && (inDepth <==> !Interior(at, |nodes|, compress))
      requires chain.nodes[at] == node && chain.nodes[compress] == forward && chain.nodes[|nodes| - 1 - compress] == reverse
      requires SameCounts(before, nodes) && RawEnds(before, nodes, compress)
      modifies this`nodes, chain.nodes
      ensures Linked() && AllOk(nodes, shadows) && TriedIfPacked(nodes) && SameCounts(before, nodes)
      ensures |nodes| == |old(nodes)| && Forced(before, nodes, compress, at)
    {
      hide AllOk, TriedIfPacked, Linked, RawEnds, Forced;
      ghost var between := nodes;
      if !inDepth {
        Pack(node, at);
      }
      Pack(forward, compress);
      Pack(reverse, |nodes| - 1 - compress);
      PackedForced(before, between, nodes, compress, at);
    }

    /** The pointer writes of __quick_list_insert_node at either end of the list. */
    method LinkEnd(n: QNode, front: bool, ghost sh: Shadow) returns (was: Node?<QNode>, node: Node<QNode>)
      requires Linked()
      modifies this`nodes, this`shadows, chain, chain.nodes
      ensures Linked() && |chain.nodes| == |nodes| == |old(nodes)| + 1
      ensures nodes == if front then [n] + old(nodes) else old(nodes) + [n]
      ensures shadows == if front then [sh] + old(shadows) else old(shadows) + [sh]
      ensures node == chain.nodes[if front then 0 else |nodes| - 1]
      ensures if old(nodes) == [] then was == null else was == chain.nodes[if front then 1 else |nodes| - 2]
      ensures forall i | 0 <= i < |chain.nodes| :: chain.nodes[i] in old(chain.nodes) || fresh(chain.nodes[i])
    {
      hide List.Valid, Values;
      was, node := QuicklistLinks.LinkEnd(chain, n, front);
      nodes := if front then [n] + nodes else nodes + [n];
      shadows := if front then [sh] + shadows else shadows + [sh];
    }

    /** __quick_list_insert_node at either end of the list. */
    method InsertNode(n: QNode, front: bool, ghost sh: Shadow) returns (node: Node<QNode>)
      requires Linked() && AllOk(nodes, shadows) && Guided(nodes, compress) && compress >= 0
      requires NodeOk(n, sh) && !n.lzf && !n.attempted
      modifies this`nodes, this`shadows, chain, chain.nodes
      ensures Linked() && AllOk(nodes, shadows) && Guided(nodes, compress)
      ensures shadows == if front then [sh] + old(shadows) else old(shadows) + [sh]
      ensures SameCounts(if front then [n] + old(nodes) else old(nodes) + [n], nodes)
      ensures |chain.nodes| == |nodes| && node == chain.nodes[if front then 0 else |nodes| - 1]
      ensures forall i | 0 <= i < |chain.nodes| :: chain.nodes[i] in old(chain.nodes) || fresh(chain.nodes[i])
    {
      hide NodeOk, Guided, NearlyGuided, Forced, Linked, AllOk, TriedIfPacked;
      GrownNearly(nodes, n, compress);
      GrownOk(nodes, shadows, n, sh);
      var was;
      was, node := LinkEnd(n, front, sh);
      NearlyTried(nodes, compress);
      if was != null {
        Settle(was, if front then 1 else |nodes| - 2);
        GuidedNearly(nodes, compress);
      }
      Settle(node, if front then 0 else |nodes| - 1);
    }

    /** A pass around one node of a list that meets the guidelines but for one step. */
    method Settle(node: Node<QNode>, ghost at: nat)
      requires Linked() && at < |chain.nodes| && chain.nodes[at] == node
      requires AllOk(nodes, shadows) && NearlyGuided(nodes, compress) && compress >= 0
      modifies this`nodes, chain.nodes
      ensures Linked() && AllOk(nodes, shadows) && Guided(nodes, compress) && SameCounts(old(nodes), nodes)
    {
      hide AllOk, Guided, NearlyGuided, Forced, Linked;
      NearlyTried(nodes, compress);
      Force(node, at);
      ForcedGuided(old(nodes), nodes, compress, at);
    }

    /** A single large item gets a node of its own. */
    method PushPlain(value: seq<Byte>, front: bool)
      requires Valid() && PACKED_THRESHOLD <= |value| < SIZE_LIMIT
      modifies this`count, this`nodes, this`shadows, this`elements, chain, chain.nodes
      ensures Valid() && elements == (if front then [value] + old(elements) else old(elements) + [value])
      ensures |nodes| == |old(nodes)| + 1 && nodes[if front then 0 else |nodes| - 1].plain
      ensures forall i | 0 <= i < |chain.nodes| :: chain.nodes[i] in old(chain.nodes) || fresh(chain.nodes[i])
    {
      hide NodeOk, Guided, AllOk, Counted, AllTexts, Linked;
      ghost var sh := Shadow(true, value, []);
      var n := QNode(value, |value|, 1, false, true, false);
      PlainOk(n, sh);
      PushedTexts(shadows, sh, value, front);
      PushedCounts(nodes, shadows, n, sh, front);
      ghost var grown := if front then [n] + nodes else nodes + [n];
      var node := InsertNode(n, front, sh);
      KeptCounts(grown, nodes, shadows);
      PlainAs(nodes, shadows, if front then 0 else |nodes| - 1);
      count := count + 1;
      elements := if front then [value] + elements else elements + [value];
    }

    /** The node at that end takes the element. */
    method PushEnd(node: Node<QNode>, value: seq<Byte>, front: bool)
      requires Valid() && |chain.nodes| > 0 && node == chain.nodes[if front then 0 else |chain.nodes| - 1]
      requires |value| < PACKED_THRESHOLD && AllowInsert(node.value, fill, |value|)
      modifies this`count, this`nodes, this`shadows, this`elements, chain.nodes
      ensures Valid() && elements == (if front then [value] + old(elements) else old(elements) + [value])
      ensures |nodes| == |old(nodes)| > 0 && !nodes[if front then 0 else |nodes| - 1].plain
    {
      hide Guided, Counted, AllTexts, Listpack.Holds, TextsOf, TextsRow, List.Valid, NodeOk, ShadowOk, AllOk, AllShadows;
      ghost var at := if front then 0 else |nodes| - 1;
      EndShadow(nodes, shadows, compress, at, fill, |value|);
      var n: QNode; ghost var sh: Shadow;
      n, sh := PushInto(node.value, value, front, shadows[at]);
      RecountOk(n, sh, n.count + 1);
      n := n.(count := n.count + 1);
      EndPushed(nodes, shadows, compress, at, n, sh, value, front, fill);
      PutValue(chain, node, n, at);
      nodes := nodes[at := n];
      shadows := shadows[at := sh];
      count := count + 1;
      elements := if front then [value] + elements else elements + [value];
    }

    /** A new listpack for the element. */
    method PushNode(value: seq<Byte>, front: bool)
      requires Valid() && |value| < PACKED_THRESHOLD
      modifies this`count, this`nodes, this`shadows, this`elements, chain, chain.nodes
      ensures Valid() && elements == (if front then [value] + old(elements) else old(elements) + [value])
      ensures |nodes| == |old(nodes)| + 1 && !nodes[if front then 0 else |nodes| - 1].plain
      ensures forall i | 0 <= i < |chain.nodes| :: chain.nodes[i] in old(chain.nodes) || fresh(chain.nodes[i])
    {
      hide NodeOk, Guided, AllOk, Counted, AllTexts, Listpack.Holds, TextsOf, TextsRow, Linked;
      var n: QNode; ghost var sh: Shadow;
      n, sh := NewNode(value, front);
      PushedTexts(shadows, sh, value, front);
      ghost var counted := n.(count := 1);
      PushedCounts(nodes, shadows, counted, sh, front);
      ghost var grown := if front then [counted] + nodes else nodes + [counted];
      var node := InsertNode(n, front, sh);
      ghost var between := nodes;
      CountOne(node, if front then 0 else |nodes| - 1);
      CountLater(between, nodes, shadows, compress, if front then 0 else |nodes| - 1);
      PlainAs(nodes, shadows, if front then 0 else |nodes| - 1);
      KeptCounts(grown, nodes, shadows);
      count := count + 1;
      elements := if front then [value] + elements else elements + [value];
    }

    /** node->count++. */
    method CountOne(node: Node<QNode>, ghost at: nat)
      requires Linked() && at < |chain.nodes| && chain.nodes[at] == node
      modifies this`nodes, node`value
      ensures Linked() && |nodes| == |old(nodes)| == |chain.nodes|
      ensures nodes == old(nodes)[at := old(nodes)[at].(count := old(nodes)[at].count + 1)]
    {
      hide List.Valid;
      var n := node.value.(count := node.value.count + 1);
      PutValue(chain, node, n, at);
      nodes := nodes[at := n];
    }

    /** quick_list_push_head and quick_list_push_tail: true when a new node was made. */
    method Push(value: seq<Byte>, front: bool) returns (created: bool)
      requires Valid() && |value| < SIZE_LIMIT
      modifies this`count, this`nodes, this`shadows, this`elements, chain, chain.nodes
      ensures Valid() && elements == (if front then [value] + old(elements) else old(elements) + [value])
      ensures |nodes| == |old(nodes)| + (if created then 1 else 0)
      ensures nodes != [] && (nodes[if front then 0 else |nodes| - 1].plain <==> |value| >= 1073741824)
      ensures !created <==> old(nodes) != [] && HasRoom(old(nodes)[if front then 0 else |old(nodes)| - 1], fill, |value|)
      ensures forall i | 0 <= i < |chain.nodes| :: chain.nodes[i] in old(chain.nodes) || fresh(chain.nodes[i])
    {
      hide NodeOk, Guided, AllOk, Counted, AllTexts, Linked, AllowInsert, HasRoom, AllShadows;
      var end, room := EndNode(|value|, front);
      if |value| >= PACKED_THRESHOLD {
        PushPlain(value, front);
        return true;
      }
      if room {
        PushEnd(end, value, front);
        return false;
      }
      PushNode(value, front);
      return true;
    }

    /** The node at that end, and whether it takes another element. */
    method EndNode(size: nat, front: bool) returns (end: Node?<QNode>, room: bool)
      requires Linked()
      ensures room <==> nodes != [] && HasRoom(nodes[if front then 0 else |nodes| - 1], fill, size)
      ensures room ==> size < PACKED_THRESHOLD && |chain.nodes| > 0 && end == chain.nodes[if front then 0 else |chain.nodes| - 1]
      ensures room ==> AllowInsert(end.value, fill, size)
    {
      Ends();
      end := if front then chain.head else chain.tail;
      room := end != null && AllowInsert(end.value, fill, size);
    }

    /** Any run of pushes: the elements are those pushed, in order. */
    method PushAll(values: seq<seq<Byte>>, fronts: seq<bool>)
      requires Valid() && |values| == |fronts| && forall i | 0 <= i < |values| :: |values[i]| < SIZE_LIMIT
      modifies this`count, this`nodes, this`shadows, this`elements, chain, chain.nodes
      ensures Valid() && elements == Pushed(old(elements), values, fronts)
    {
      hide NodeOk, Guided, AllOk, Counted, AllTexts, Linked;
      var i := 0;
      while i < |values|
        invariant 0 <= i <= |values| && Valid() && elements == Pushed(old(elements), values[..i], fronts[..i])
        invariant forall j | 0 <= j < |chain.nodes| :: chain.nodes[j] in old(chain.nodes) || fresh(chain.nodes[j])
      {
        assert values[..i + 1][..i] == values[..i] && fronts[..i + 1][..i] == fronts[..i];
        var created := Push(values[i], fronts[i]);
        i := i + 1;
      }
      assert values[..i] == values && fronts[..i] == fronts;
    }
  }

  /** The elements of one node, as a reader gets them: decompressed, then walked from the first entry. */
  method ReadNode(n: QNode, ghost sh: Shadow) returns (xs: seq<seq<Byte>>)
    requires NodeOk(n, sh)
    ensures xs == TextsOf(sh)
  {
    hide Listpack.Holds, LzfFormat.Decode, TextsRow;
    var raw := n;
    if n.lzf {
      var ok;
      ok, raw := DecompressNode(n, sh);
    }
    if n.plain {
      return [raw.entry];
    }
    HoldsOk(sh.raw, sh.row);
    xs := ReadListpack(raw.entry, sh.row);
  }

  method ReadListpack(lp: seq<Byte>, ghost es: seq<seq<Byte>>) returns (xs: seq<seq<Byte>>)
    requires Listpack.Holds(lp, es) && Listpack.AllOk(es)
    ensures xs == TextsRow(es)
  {
    hide Listpack.Holds, Listpack.Off, ListpackFormat.Text, ListpackFormat.Get;
    var l := new Listpack.Listpack();
    l.lp := lp;
    xs := [];
    var p := l.First(es);
    while p.Some?
      invariant l.lp == lp && |xs| <= |es| && p == if |xs| == |es| then None else Some(Listpack.Off(es, |xs|))
      invariant forall i | 0 <= i < |xs| :: xs[i] == TextsRow(es)[i]
      decreases |es| - |xs|
    {
      var x := l.Value(p.value, es, |xs|);
      p := l.Next(p.value, es, |xs|);
      xs := xs + [ListpackFormat.Text(x)];
    }
  }

  /** Reading node after node, by the pointers, gives exactly the elements. */
  method ReadAll(q: QuickList) returns (xs: seq<seq<Byte>>)
    requires q.Valid()
    ensures xs == q.elements
  {
    q.Ends();
    hide NodeOk, TextsOf, Guided, Counted, AllTexts, ShadowOk, QuickList.Linked, AllShadows;
    xs := [];
    NoShadows();
    var node := q.chain.head;
    ghost var i := 0;
    while node != null
      invariant 0 <= i <= |q.nodes| && node == if i == |q.nodes| then null else q.chain.nodes[i]
      invariant AllShadows(q.shadows[..i]) && xs == AllTexts(q.shadows[..i])
      decreases |q.nodes| - i
    {
      q.At(i);
      q.NextIs(i);
      var part := ReadNode(node.value, q.shadows[i]);
      NextTexts(q.shadows, i);
      xs := xs + part;
      node := node.next;
      i := i + 1;
    }
    assert q.shadows[..i] == q.shadows;
  }

  lemma NextTexts(shs: seq<Shadow>, i: nat)
    requires AllShadows(shs) && i < |shs|
    ensures AllShadows(shs[..i]) && AllShadows(shs[..i + 1]) && ShadowOk(shs[i])
    ensures AllTexts(shs[..i + 1]) == AllTexts(shs[..i]) + TextsOf(shs[i])
  {
    hide ShadowOk, TextsOf, AllTexts;
    OneText(shs[i]);
    AllTextsConcat(shs[..i], [shs[i]]);
    assert shs[..i + 1] == shs[..i] + [shs[i]];
  }

  lemma NoShadows()
    ensures AllShadows([]) && AllTexts([]) == []
  {
  }

  /** The sequence a run of pushes builds. */
  ghost function Pushed(xs: seq<seq<Byte>>, values: seq<seq<Byte>>, fronts: seq<bool>): seq<seq<Byte>>
    requires |values| == |fronts|
  {
    if values == [] then xs
    else
      var n := |values| - 1;
      var before := Pushed(xs, values[..n], fronts[..n]);
      if fronts[n] then [values[n]] + before else before + [values[n]]
  }

  lemma PlainOk(n: QNode, sh: Shadow)
    requires sh == Shadow(true, n.entry, []) && n.plain && !n.lzf && n.sz == |n.entry|
    requires PACKED_THRESHOLD <= |n.entry| < SIZE_LIMIT
    ensures NodeOk(n, sh) && ShadowOk(sh) && TextsOf(sh) == [n.entry]
  {
  }

  lemma PushedTexts(shs: seq<Shadow>, sh: Shadow, value: seq<Byte>, front: bool)
    requires AllShadows(shs) && ShadowOk(sh) && TextsOf(sh) == [value]
    ensures AllShadows([sh] + shs) && AllShadows(shs + [sh])
    ensures AllTexts([sh] + shs) == [value] + AllTexts(shs) && AllTexts(shs + [sh]) == AllTexts(shs) + [value]
  {
    hide ShadowOk, TextsOf, AllTexts;
    OneText(sh);
    AllTextsConcat([sh], shs);
    AllTextsConcat(shs, [sh]);
  }

  lemma PushedCounts(nodes: seq<QNode>, shs: seq<Shadow>, n: QNode, sh: Shadow, front: bool)
    requires Counted(nodes, shs) && n.count == CountOf(sh) == 1
    ensures Counted([n] + nodes, [sh] + shs) && Counted(nodes + [n], shs + [sh])
  {
  }

  lemma PlainAs(nodes: seq<QNode>, shs: seq<Shadow>, i: nat)
    requires AllOk(nodes, shs) && i < |nodes|
    ensures |shs| == |nodes| && nodes[i].plain == shs[i].plain
  {
  }

  lemma GrownOk(nodes: seq<QNode>, shs: seq<Shadow>, n: QNode, sh: Shadow)
    requires AllOk(nodes, shs) && NodeOk(n, sh)
    ensures AllOk([n] + nodes, [sh] + shs) && AllOk(nodes + [n], shs + [sh])
  {
    hide NodeOk;
  }

  lemma KeptCounts(a: seq<QNode>, b: seq<QNode>, shs: seq<Shadow>)
    requires SameCounts(a, b) && Counted(a, shs)
    ensures Counted(b, shs)
  {
  }

  lemma CountedAt(nodes: seq<QNode>, shs: seq<Shadow>, i: nat)
    requires Counted(nodes, shs) && i < |nodes|
    ensures nodes[i].count == CountOf(shs[i])
  {
  }

  /** The end nodes are never compressed. */
  lemma GuidedEnd(nodes: seq<QNode>, depth: int, at: int)
    requires Guided(nodes, depth) && nodes != [] && (at == 0 || at == |nodes| - 1)
    ensures !nodes[at].lzf && !nodes[at].attempted
  {
  }

  lemma EndGuided(nodes: seq<QNode>, depth: int, at: nat, n: QNode)
    requires Guided(nodes, depth) && at < |nodes| && n.lzf == nodes[at].lzf && n.attempted == nodes[at].attempted
    ensures Guided(nodes[at := n], depth)
  {
  }

  /** A node that has room is a raw listpack. */
  lemma EndShadow(nodes: seq<QNode>, shs: seq<Shadow>, depth: int, at: nat, fill: int, size: nat)
    requires AllOk(nodes, shs) && Guided(nodes, depth) && Counted(nodes, shs) && nodes != [] && (at == 0 || at == |nodes| - 1)
    requires AllowInsert(nodes[at], fill, size) && fill <= FILL_MAX
    ensures var n, sh := nodes[at], shs[at];
            && !n.lzf && !n.attempted && !n.plain && !sh.plain && n.entry == sh.raw && n.count == |sh.row|
            && ShadowOk(sh) && Listpack.Holds(sh.raw, sh.row) && Listpack.AllOk(sh.row) && |sh.raw| <= 65536
            && n.sz == |sh.raw| && |shs| == |nodes|
  {
    hide Listpack.Holds;
    GuidedEnd(nodes, depth, at);
    CountedAt(nodes, shs, at);
    HoldsOk(shs[at].raw, shs[at].row);
  }

  lemma RecountOk(n: QNode, sh: Shadow, count: nat)
    requires NodeOk(n, sh)
    ensures NodeOk(n.(count := count), sh)
  {
  }

  /** What the element makes of the whole list. */
  lemma EndPushed(nodes: seq<QNode>, shs: seq<Shadow>, depth: int, at: nat, n: QNode, sh: Shadow, value: seq<Byte>, front: bool, fill: int)
    requires AllOk(nodes, shs) && Guided(nodes, depth) && Counted(nodes, shs) && AllShadows(shs)
    requires at < |nodes| && at == (if front then 0 else |shs| - 1) && AllowInsert(nodes[at], fill, |value|) && fill <= FILL_MAX
    requires NodeOk(n, sh) && !n.lzf && !sh.plain && n.attempted == nodes[at].attempted && n.count == nodes[at].count + 1
    requires |sh.row| == |shs[at].row| + 1 && |sh.raw| <= |shs[at].raw| + |value| + 14
    requires TextsOf(sh) == if front then [value] + TextsRow(shs[at].row) else TextsRow(shs[at].row) + [value]
    ensures AllOk(nodes[at := n], shs[at := sh]) && Guided(nodes[at := n], depth) && Counted(nodes[at := n], shs[at := sh])
    ensures AllShadows(shs[at := sh])
    ensures AllTexts(shs[at := sh]) == if front then [value] + AllTexts(shs) else AllTexts(shs) + [value]
  {
    hide Guided, Counted, AllTexts, Listpack.Holds, TextsOf, TextsRow;
    EndShadow(nodes, shs, depth, at, fill, |value|);
    HoldsLength(sh.raw, sh.row);
    PlainTexts(shs[at]);
    EndTexts(shs, at, sh, value, front);
    EndCounts(nodes, shs, at, n, sh);
    EndGuided(nodes, depth, at, n);
  }

  lemma EndCounts(nodes: seq<QNode>, shs: seq<Shadow>, at: nat, n: QNode, sh: Shadow)
    requires Counted(nodes, shs) && at < |nodes| && n.count == CountOf(sh) && 1 <= n.count <= FILL_MAX
    ensures Counted(nodes[at := n], shs[at := sh])
  {
  }

  lemma CountLater(a: seq<QNode>, b: seq<QNode>, shs: seq<Shadow>, depth: int, at: nat)
    requires AllOk(a, shs) && Guided(a, depth) && at < |a| && b == a[at := a[at].(count := a[at].count + 1)]
    ensures AllOk(b, shs) && Guided(b, depth)
  {
    hide ShadowOk;
  }

  lemma PlainTexts(sh: Shadow)
    requires ShadowOk(sh) && !sh.plain
    ensures TextsOf(sh) == TextsRow(sh.row)
  {
  }

  lemma EndTexts(shs: seq<Shadow>, at: nat, sh: Shadow, value: seq<Byte>, front: bool)
    requires AllShadows(shs) && ShadowOk(sh) && at < |shs| && at == if front then 0 else |shs| - 1
    requires TextsOf(sh) == if front then [value] + TextsOf(shs[at]) else TextsOf(shs[at]) + [value]
    ensures AllShadows(shs[at := sh])
    ensures AllTexts(shs[at := sh]) == if front then [value] + AllTexts(shs) else AllTexts(shs) + [value]
  {
    hide ShadowOk, TextsOf, AllTexts;
    OneText(sh);
    OneText(shs[at]);
    if front {
      assert shs == [shs[0]] + shs[1..] && shs[at := sh] == [sh] + shs[1..];
      AllTextsConcat([shs[0]], shs[1..]);
      AllTextsConcat([sh], shs[1..]);
    } else {
      assert shs == shs[..at] + [shs[at]] && shs[at := sh] == shs[..at] + [sh];
      AllTextsConcat(shs[..at], [shs[at]]);
      AllTextsConcat(shs[..at], [sh]);
    }
  }

  /** quick_list_new_node with lp_prepend or lp_append on a new listpack. */
  method NewNode(value: seq<Byte>, front: bool) returns (n: QNode, ghost sh: Shadow)
    requires |value| < PACKED_THRESHOLD
    ensures NodeOk(n, sh) && ShadowOk(sh) && !sh.plain && !n.lzf && !n.attempted && n.count == 0 && CountOf(sh) == 1
    ensures TextsOf(sh) == [value]
  {
    hide Listpack.Holds, TextsRow;
    var l := new Listpack.Listpack();
    HoldsOk(l.lp, []);
    n := QNode(l.lp, 7, 0, false, false, false);
    NoTexts();
    n, sh := PushInto(n, value, front, Shadow(false, l.lp, []));
    var none: seq<seq<Byte>> := [];
    assert [value] + none == [value] && none + [value] == [value];
  }

  lemma NoTexts()
    ensures TextsRow([]) == [] && Listpack.Row([]) == []
  {
  }

  lemma NearlyTried(nodes: seq<QNode>, depth: int)
    requires NearlyGuided(nodes, depth)
    ensures TriedIfPacked(nodes)
  {
  }

  /** The bodies behind a listpack with one more element at either end. */
  ghost function Grow(sh: Shadow, lp: seq<Byte>, body: seq<Byte>, front: bool): Shadow {
    Shadow(false, lp, if front then [body] + sh.row else sh.row + [body])
  }

  /** lp_prepend or lp_append on the listpack of a raw node, and the size kept with it. */
  method PushInto(n: QNode, value: seq<Byte>, front: bool, ghost sh: Shadow) returns (r: QNode, ghost sh2: Shadow)
    requires !sh.plain && Listpack.Holds(sh.raw, sh.row) && Listpack.AllOk(sh.row) && n.entry == sh.raw && !n.plain && !n.lzf
    requires |value| < PACKED_THRESHOLD && |sh.raw| <= 65536
    ensures ShadowOk(sh2) && NodeOk(r, sh2) && !r.lzf && !r.plain && !sh2.plain && r.attempted == n.attempted && r.count == n.count
    ensures TextsOf(sh2) == if front then [value] + TextsRow(sh.row) else TextsRow(sh.row) + [value]
    ensures |sh2.row| == |sh.row| + 1 && |sh2.raw| <= |sh.raw| + |value| + 14
  {
    hide Listpack.Holds, Listpack.EntryBytes, ListpackFormat.Stored, ListpackFormat.Text, ListpackFormat.Get, ListpackFormat.BodyOk;
    var l := new Listpack.Listpack();
    l.lp := n.entry;
    ghost var body;
    var ok;
    if front {
      ok, body := l.Prepend(value, sh.row);
    } else {
      ok, body := l.Append(value, sh.row);
    }
    StoredLength(value, body);
    sh2 := Grow(sh, l.lp, body, front);
    Listpack.TotalIs(l.lp, sh2.row);
    r := n.(entry := l.lp, sz := Listpack.GetTotal(l.lp));
    HoldsOk(sh.raw, sh.row);
    TextsGrow(sh.row, body, front);
    GrownSize(sh.raw, l.lp, sh.row, body, front);
  }

  lemma HoldsOk(lp: seq<Byte>, es: seq<seq<Byte>>)
    requires Listpack.Holds(lp, es)
    ensures Listpack.AllOk(es) && |lp| == 7 + |Listpack.Row(es)|
  {
    hide Listpack.Row;
    assert |lp[6..]| == |lp| - 6;
  }

  lemma TextsGrow(row: seq<seq<Byte>>, body: seq<Byte>, front: bool)
    requires Listpack.AllOk(row) && ListpackFormat.BodyOk(body)
    ensures Listpack.AllOk([body] + row) && Listpack.AllOk(row + [body])
    ensures TextsRow([body] + row) == [ListpackFormat.Text(ListpackFormat.Get(body))] + TextsRow(row)
    ensures TextsRow(row + [body]) == TextsRow(row) + [ListpackFormat.Text(ListpackFormat.Get(body))]
  {
    hide ListpackFormat.BodyOk, ListpackFormat.Text, ListpackFormat.Get;
  }

  lemma GrownSize(lp: seq<Byte>, lp2: seq<Byte>, row: seq<seq<Byte>>, body: seq<Byte>, front: bool)
    requires Listpack.Holds(lp, row) && Listpack.Holds(lp2, if front then [body] + row else row + [body])
    ensures |lp2| == |lp| + |Listpack.EntryBytes(body)|
  {
    hide Listpack.Holds, Listpack.EntryBytes, Listpack.Row;
    HoldsOk(lp, row);
    HoldsOk(lp2, if front then [body] + row else row + [body]);
    Listpack.RowConcat([body], row);
    Listpack.RowConcat(row, [body]);
    Listpack.RowOne(body);
  }

  ghost function TextsRow(row: seq<seq<Byte>>): seq<seq<Byte>>
    requires Listpack.AllOk(row)
  {
    seq(|row|, i requires 0 <= i < |row| => ListpackFormat.Text(ListpackFormat.Get(row[i])))
  }
}
