/**
  raxGenericInsert of src/rax/rax.c: splitting compressed nodes (ALGORITHM 1 and 2) and growing
  the missing nodes. Each step leaves the map the tree stands for as it was, until the last one
  marks the new node as a key.
*/
module RaxInsert {
  import opened Wrappers
  import opened Bytes
  import opened RaxTree
  import opened Rax

  ghost predicate SameMap(a: Node, b: Node) {
    forall k: Key :: Get(a, k) == Get(b, k)
  }

  /** A node with a single child behind all its bytes; it counts as compressed from two bytes on. */
  function Chain(key: Option<Value>, bytes: seq<Byte>, child: Node): Node {
    Node(key, |bytes| > 1, bytes, [child])
  }

  lemma GetChain(key: Option<Value>, bytes: seq<Byte>, child: Node, k: Key)
    requires bytes != []
    ensures Get(Chain(key, bytes, child), k)
         == if k == [] then key else if bytes <= k then Get(child, k[|bytes|..]) else None
  {
    if |bytes| == 1 && k != [] {
      EdgeIndexOf(bytes, 0);
      assert bytes <= k <==> bytes[0] == k[0];
      EdgeIndexMissing(bytes, k[0]);
    }
  }

  lemma GoodChain(key: Option<Value>, bytes: seq<Byte>, child: Node)
    requires 0 < |bytes| <= 536870911
    ensures Shape(Chain(key, bytes, child))
    ensures Good(child) ==> Good(Chain(key, bytes, child))
    ensures FrameOk(Frame(Chain(key, bytes, child), 0))
    ensures Label(Chain(key, bytes, child), 0) == bytes
  {
  }

  lemma TallyChain(key: Option<Value>, bytes: seq<Byte>, child: Node, nodes: bool)
    ensures Tally(Chain(key, bytes, child), nodes)
         == (if nodes || key.Some? then 1 else 0) + Tally(child, nodes)
  {
    TallyOne(child, nodes);
  }

  /** Splitting a compressed node after j bytes does not change what it stands for. */
  lemma SplitChain(key: Option<Value>, bytes: seq<Byte>, child: Node, j: nat, k: Key)
    requires 0 < j < |bytes|
    ensures Get(Chain(key, bytes[..j], Chain(None, bytes[j..], child)), k) == Get(Chain(key, bytes, child), k)
  {
    hide Get, Chain;
    var a, b := bytes[..j], bytes[j..];
    assert bytes == a + b;
    TwoSteps(a, b, k);
    GetChain(key, bytes, child, k);
    GetChain(key, a, Chain(None, b, child), k);
    if a <= k {
      GetChain(None, b, child, k[|a|..]);
    }
  }

  // ---------------------------------------------------------------- a new child

  /** Where raxAddChild puts byte c: before the first greater edge. */
  function InsertPos(edges: seq<Byte>, c: Byte): (pos: nat)
    ensures pos <= |edges|
    ensures forall i | 0 <= i < pos :: edges[i] <= c
    ensures pos < |edges| ==> edges[pos] > c
  {
    if edges == [] || edges[0] > c then 0 else InsertPos(edges[1..], c) + 1
  }

  /** raxAddChild on the (edge, child) lists. */
  function AddChild(h: Node, c: Byte, child: Node): Node
    requires |h.edges| == |h.children|
  {
    var pos := InsertPos(h.edges, c);
    h.(edges := h.edges[..pos] + [c] + h.edges[pos..],
       children := h.children[..pos] + [child] + h.children[pos..])
  }

  lemma AddChildSorted(edges: seq<Byte>, c: Byte)
    requires Sorted(edges) && c !in edges
    ensures var pos := InsertPos(edges, c); Sorted(edges[..pos] + [c] + edges[pos..])
  {
  }

  lemma AddChildIndex(edges: seq<Byte>, c: Byte, b: Byte)
    requires Sorted(edges) && c !in edges && b != c
    ensures var pos := InsertPos(edges, c);
            var more := edges[..pos] + [c] + edges[pos..];
            var i := EdgeIndex(edges, b);
            EdgeIndex(more, b) == if i < pos then i else i + 1
  {
    var pos := InsertPos(edges, c);
    var more := edges[..pos] + [c] + edges[pos..];
    var i := EdgeIndex(edges, b);
    AddChildSorted(edges, c);
    if i < |edges| {
      var at := if i < pos then i else i + 1;
      assert more[at] == b;
      EdgeIndexOf(more, at);
    } else {
      EdgeIndexMissing(edges, b);
      assert b !in more;
      EdgeIndexMissing(more, b);
    }
  }

  /** A new edge adds exactly the keys behind it. */
  lemma AddChildGet(h: Node, c: Byte, child: Node, k: Key)
    requires Open(h) && !h.compr && c !in h.edges
    ensures Get(AddChild(h, c, child), k) == if k != [] && k[0] == c then Get(child, k[1..]) else Get(h, k)
  {
    hide Good;
    if k != [] {
      if k[0] == c {
        AddChildSorted(h.edges, c);
        EdgeIndexOf(AddChild(h, c, child).edges, InsertPos(h.edges, c));
      } else {
        AddChildElsewhere(h, c, child, k);
      }
    }
  }

  lemma AddChildElsewhere(h: Node, c: Byte, child: Node, k: Key)
    requires Shape(h) && !h.compr && c !in h.edges
    requires k != [] && k[0] != c
    ensures Get(AddChild(h, c, child), k) == Get(h, k)
  {
    hide Sorted, EdgeIndex, AddChild, InsertPos;
    AddChildIndex(h.edges, c, k[0]);
    AddChildParts(h, c, child, EdgeIndex(h.edges, k[0]));
  }

  lemma AddChildParts(h: Node, c: Byte, child: Node, i: nat)
    requires |h.edges| == |h.children|
    ensures var pos, more := InsertPos(h.edges, c), AddChild(h, c, child);
            && more.edges == h.edges[..pos] + [c] + h.edges[pos..] && |more.children| == |more.edges| == |h.edges| + 1
            && more.key == h.key && more.compr == h.compr
            && (i < pos ==> more.children[i] == h.children[i])
            && (pos <= i < |h.edges| ==> more.children[i + 1] == h.children[i])
  {
  }

  /** So a child that holds no key adds no entry. */
  lemma AddEmptyChild(h: Node, c: Byte, k: Key)
    requires Open(h) && !h.compr && c !in h.edges
    ensures Get(AddChild(h, c, EMPTY), k) == Get(h, k)
  {
    hide Good;
    AddChildGet(h, c, EMPTY, k);
    if k != [] && k[0] == c {
      EdgeIndexMissing(h.edges, c);
    }
  }

  lemma AddChildTally(h: Node, c: Byte, child: Node, nodes: bool)
    requires |h.edges| == |h.children|
    ensures Tally(AddChild(h, c, child), nodes) == Tally(h, nodes) + Tally(child, nodes)
  {
    hide TallyAll;
    TallyInsert(h.children, InsertPos(h.edges, c), child, nodes);
  }

  lemma AddChildRefit(h: Node, c: Byte, child: Node, n: Node)
    requires |h.edges| == |h.children|
    ensures Refit(Frame(AddChild(h, c, child), InsertPos(h.edges, c)), n) == AddChild(h, c, n)
  {
    var more, pos := AddChild(h, c, child), InsertPos(h.edges, c);
    assert more.children[pos := n] == h.children[..pos] + [n] + h.children[pos..];
  }

  lemma AddChildShape(h: Node, c: Byte, child: Node)
    requires Open(h) && !h.compr && c !in h.edges
    ensures FrameOk(Frame(AddChild(h, c, child), InsertPos(h.edges, c)))
    ensures Label(AddChild(h, c, child), InsertPos(h.edges, c)) == [c]
    ensures Good(child) ==> Good(AddChild(h, c, child))
  {
    var more, pos := AddChild(h, c, child), InsertPos(h.edges, c);
    AddChildSorted(h.edges, c);
    assert more.children[pos] == child;
    forall i | 0 <= i < |more.children| && i != pos
      ensures Good(more.children[i])
    {
      assert more.children[i] == h.children[if i < pos then i else i - 1];
    }
  }

  lemma AddChildCompact(h: Node, c: Byte, child: Node)
    requires |h.edges| == |h.children| && Compact(child)
    requires forall i | 0 <= i < |h.children| :: Compact(h.children[i])
    requires h.children != [] || !IsLink(child)
    ensures Compact(AddChild(h, c, child))
  {
    var more, pos := AddChild(h, c, child), InsertPos(h.edges, c);
    forall i | 0 <= i < |more.children|
      ensures Compact(more.children[i])
    {
      if i != pos {
        assert more.children[i] == h.children[if i < pos then i else i - 1];
      }
    }
  }

  // ---------------------------------------------------------------- growing the missing nodes

  const LEAF: Node := Node(Some(0), false, [], [])

  /** What one turn of the loop hangs under h for the bytes s[i..]: a child and the bytes to it. */
  datatype Grown = Grown(node: Node, child: nat, size: nat)

  /** One turn of the loop: a compressed node if h is a leaf and two bytes are left, else one edge. */
  function GrowStep(h: Node, s: Key, i: nat): Grown
    requires i < |s| && |h.edges| == |h.children|
  {
    if h.edges == [] && |s| - i > 1 then
      var size := if |s| - i > RAX_NODE_MAX_SIZE then RAX_NODE_MAX_SIZE else |s| - i;
      Grown(Chain(h.key, s[i..i + size], EMPTY), 0, size)
    else
      Grown(AddChild(h, s[i], EMPTY), InsertPos(h.edges, s[i]), 1)
  }

  lemma GrowStepKeeps(path: Path, h: Node, s: Key, i: nat)
    requires PathOk(path) && Open(h) && !h.compr && i < |s| && s[i] !in h.edges
    requires PathKey(path) == s[..i]
    ensures var g := GrowStep(h, s, i);
            var f := Frame(g.node, g.child);
            && FrameOk(f) && PathOk(path + [f]) && 0 < g.size && i + g.size <= |s|
            && PathKey(path + [f]) == s[..i + g.size]
            && Plug(path + [f], EMPTY) == Plug(path, g.node)
  {
    hide Good, Plug, PathKey;
    var g := GrowStep(h, s, i);
    var f := Frame(g.node, g.child);
    if h.edges == [] && |s| - i > 1 {
      GoodChain(h.key, s[i..i + g.size], EMPTY);
    } else {
      AddChildShape(h, s[i], EMPTY);
      AddChildRefit(h, s[i], EMPTY, EMPTY);
    }
    PathOkPrefix(path, f, EMPTY);
    assert s[..i + g.size] == s[..i] + Label(g.node, g.child);
    assert Refit(f, EMPTY) == g.node;
  }

  lemma GrowStepGet(h: Node, s: Key, i: nat, k: Key)
    requires Open(h) && !h.compr && i < |s| && s[i] !in h.edges
    ensures Get(GrowStep(h, s, i).node, k) == Get(h, k)
  {
    hide Good;
    if h.edges == [] && |s| - i > 1 {
      var g := GrowStep(h, s, i);
      GetChain(h.key, s[i..i + g.size], EMPTY, k);
    } else {
      AddEmptyChild(h, s[i], k);
    }
  }

  lemma GrowStepTally(h: Node, s: Key, i: nat)
    requires Shape(h) && !h.compr && i < |s|
    ensures Tally(GrowStep(h, s, i).node, true) == Tally(h, true) + 1
    ensures Tally(GrowStep(h, s, i).node, false) == Tally(h, false)
  {
    if h.edges == [] && |s| - i > 1 {
      var g := GrowStep(h, s, i);
      TallyChain(h.key, s[i..i + g.size], EMPTY, true);
      TallyChain(h.key, s[i..i + g.size], EMPTY, false);
    } else {
      AddChildTally(h, s[i], EMPTY, true);
      AddChildTally(h, s[i], EMPTY, false);
    }
  }

  /** All that a step of the insertion keeps: the map, and the counts up to the nodes added. */
  ghost predicate Keeps(before: Node, after: Node, added: int) {
    && SameMap(before, after)
    && Tally(after, false) == Tally(before, false)
    && Tally(after, true) == Tally(before, true) + added
  }

  lemma KeepsAtEnd(path: Path, h: Node, g: Node, added: int)
    requires PathOk(path) && Keeps(h, g, added)
    ensures Keeps(Plug(path, h), Plug(path, g), added)
  {
    forall k: Key
      ensures Get(Plug(path, h), k) == Get(Plug(path, g), k)
    {
      GetPlug(path, h, g, k);
      GetPlug(path, g, h, k);
    }
    TallyPlug(path, h, g, true);
    TallyPlug(path, h, g, false);
  }

  lemma KeepsChain(a: Node, b: Node, c: Node, m: int, n: int)
    requires Keeps(a, b, m) && Keeps(b, c, n)
    ensures Keeps(a, c, m + n)
  {
  }

  lemma GrowStepAtEnd(path: Path, h: Node, s: Key, i: nat)
    requires PathOk(path) && Open(h) && !h.compr && i < |s| && s[i] !in h.edges
    ensures Keeps(Plug(path, h), Plug(path, GrowStep(h, s, i).node), 1)
  {
    hide Good, GrowStep, Tally, Get;
    forall k: Key
      ensures Get(h, k) == Get(GrowStep(h, s, i).node, k)
    {
      GrowStepGet(h, s, i, k);
    }
    GrowStepTally(h, s, i);
    KeepsAtEnd(path, h, GrowStep(h, s, i).node, 1);
  }

  ghost predicate EndsBranching(path: Path) {
    path != [] && |path[|path| - 1].node.children| >= 2
  }

  lemma CompactLeaves()
    ensures Compact(LEAF) && !IsLink(LEAF)
  {
  }

  lemma CompactChain(key: Option<Value>, bytes: seq<Byte>, child: Node)
    requires Compact(child) && !IsLink(child)
    ensures Compact(Chain(key, bytes, child))
  {
  }

  /** A turn of the loop keeps the tree compact, the new child standing for the key to come. */
  lemma GrowStepCompact(path: Path, h: Node, s: Key, i: nat, first: bool)
    requires PathOk(path) && Open(h) && !h.compr && i < |s| && s[i] !in h.edges
    requires PathKey(path) == s[..i] && |s| <= 536870911
    requires first ==> Compact(Plug(path, AddChild(h, s[i], LEAF)))
    requires !first ==> h == EMPTY && Compact(Plug(path, LEAF)) && EndsBranching(path)
    ensures var g := GrowStep(h, s, i);
            var f := Frame(g.node, g.child);
            && PathOk(path + [f])
            && Compact(Plug(path + [f], LEAF))
            && (i + g.size < |s| ==> EndsBranching(path + [f]))
  {
    hide Good, Plug, PathKey, Compact, GrowStep, AddChild;
    var g := GrowStep(h, s, i);
    var f := Frame(g.node, g.child);
    GrowStepKeeps(path, h, s, i);
    PathOkPrefix(path, f, LEAF);
    GrownLeaf(h, s, i);
    if first {
      CompactInside(path, AddChild(h, s[i], LEAF));
      CompactPlug(path, AddChild(h, s[i], LEAF), Refit(f, LEAF));
    } else {
      CompactPlug(path, LEAF, Refit(f, LEAF));
    }
  }

  /** The grown node with a leaf under it: compact, and a link only if h was to become one. */
  lemma GrownLeaf(h: Node, s: Key, i: nat)
    requires Open(h) && !h.compr && i < |s| && |s| <= 536870911
    ensures var g := GrowStep(h, s, i);
            && g.child < |g.node.children|
            && (Compact(AddChild(h, s[i], LEAF)) || h == EMPTY ==> Compact(Refit(Frame(g.node, g.child), LEAF)))
            && (IsLink(Refit(Frame(g.node, g.child), LEAF)) ==> IsLink(AddChild(h, s[i], LEAF)))
            && (i + g.size < |s| ==> |g.node.children| >= 2)
  {
    hide Good, Compact;
    var g := GrowStep(h, s, i);
    CompactLeaves();
    if h.edges == [] && |s| - i > 1 {
      assert Refit(Frame(g.node, g.child), LEAF) == Chain(h.key, s[i..i + g.size], LEAF);
      CompactChain(h.key, s[i..i + g.size], LEAF);
    } else {
      AddChildRefit(h, s[i], EMPTY, LEAF);
      if h == EMPTY {
        AddChildCompact(h, s[i], LEAF);
      }
    }
  }

  /** The loop that hangs the missing bytes s[i..] under h, one node or edge at a time. */
  method Grow(path0: Path, h0: Node, s: Key, i0: nat) returns (path: Path, added: nat)
    requires PathOk(path0) && Open(h0) && !h0.compr
    requires i0 < |s| && PathKey(path0) == s[..i0] && s[i0] !in h0.edges
    ensures PathOk(path) && PathKey(path) == s && path != []
    ensures Keeps(Plug(path0, h0), Plug(path, EMPTY), added)
    ensures Compact(Plug(path0, AddChild(h0, s[i0], LEAF))) && |s| <= 536870911 ==>
              Compact(Plug(path, LEAF))
  {
    hide Plug, PathKey, Good, GrowStep, Keeps, Compact;
    ghost var tight := Compact(Plug(path0, AddChild(h0, s[i0], LEAF))) && |s| <= 536870911;
    var h, i := h0, i0;
    path, added := path0, 0;
    KeepsNothing(Plug(path0, h0));
    while i < |s|
      invariant i0 <= i <= |s|
      invariant PathOk(path) && Open(h) && !h.compr && PathKey(path) == s[..i]
      invariant i < |s| ==> s[i] !in h.edges
      invariant i > i0 ==> h == EMPTY && path != []
      invariant i == i0 ==> h == h0 && path == path0
      invariant Keeps(Plug(path0, h0), Plug(path, h), added)
      invariant tight && i > i0 ==> Compact(Plug(path, LEAF)) && (i < |s| ==> EndsBranching(path))
    {
      var g := GrowStep(h, s, i);
      GrowStepKeeps(path, h, s, i);
      if tight {
        GrowStepCompact(path, h, s, i, i == i0);
      }
      GrowStepAtEnd(path, h, s, i);
      KeepsChain(Plug(path0, h0), Plug(path, h), Plug(path, g.node), added, 1);
      path, h, i := path + [Frame(g.node, g.child)], EMPTY, i + g.size;
      added := added + 1;
      EmptyIsOpen();
    }
    assert s[..i] == s;
  }

  lemma KeepsNothing(n: Node)
    ensures Keeps(n, n, 0)
  {
  }

  lemma EmptyIsOpen()
    ensures Open(EMPTY)
  {
  }

  // ---------------------------------------------------------------- ALGORITHM 1

  /** What is left of a compressed node behind the byte at j. */
  function Postfix(h: Node, j: nat): Node
    requires |h.children| == 1 && j < |h.edges|
  {
    if j + 1 < |h.edges| then Chain(None, h.edges[j + 1..], h.children[0]) else h.children[0]
  }

  function SplitNode(h: Node, j: nat): Node
    requires |h.children| == 1 && j < |h.edges|
  {
    Chain(if j == 0 then h.key else None, [h.edges[j]], Postfix(h, j))
  }

  /** The nodes that replace a compressed node split at j. */
  function SplitTree(h: Node, j: nat): Node
    requires |h.children| == 1 && j < |h.edges|
  {
    if j == 0 then SplitNode(h, j) else Chain(h.key, h.edges[..j], SplitNode(h, j))
  }

  function SplitCost(h: Node, j: nat): nat
    requires j < |h.edges|
  {
    (if j > 0 then 1 else 0) + (if j + 1 < |h.edges| then 1 else 0)
  }

  lemma TailChain(key: Option<Value>, bytes: seq<Byte>, child: Node, k: Key)
    requires bytes != []
    ensures var rest := if |bytes| > 1 then Chain(None, bytes[1..], child) else child;
            Get(Chain(key, [bytes[0]], rest), k) == Get(Chain(key, bytes, child), k)
  {
    if |bytes| > 1 {
      SplitChain(key, bytes, child, 1, k);
      assert bytes[..1] == [bytes[0]];
    } else {
      assert bytes == [bytes[0]];
    }
  }

  lemma SplitGet(h: Node, j: nat, k: Key)
    requires Open(h) && h.compr && j < |h.edges|
    ensures Get(SplitTree(h, j), k) == Get(h, k)
  {
    hide Good;
    var bytes, next := h.edges, h.children[0];
    assert h == Chain(h.key, bytes, next);
    if j == 0 {
      TailChain(h.key, bytes, next, k);
    } else {
      SplitChain(h.key, bytes, next, j, k);
      assert bytes[j..][1..] == bytes[j + 1..] && bytes[j..][0] == bytes[j];
      GetChain(h.key, bytes[..j], SplitNode(h, j), k);
      GetChain(h.key, bytes[..j], Chain(None, bytes[j..], next), k);
      if bytes[..j] <= k {
        TailChain(None, bytes[j..], next, k[j..]);
      }
    }
  }

  lemma SplitTally(h: Node, j: nat, nodes: bool)
    requires h.compr && |h.children| == 1 && j < |h.edges| && |h.edges| >= 2
    ensures Tally(SplitTree(h, j), nodes) == Tally(h, nodes) + if nodes then SplitCost(h, j) else 0
  {
    hide Tally;
    var next := h.children[0];
    assert h == Chain(h.key, h.edges, next);
    TallyChain(h.key, h.edges, next, nodes);
    TallyChain(None, h.edges[j + 1..], next, nodes);
    TallyChain(if j == 0 then h.key else None, [h.edges[j]], Postfix(h, j), nodes);
    TallyChain(h.key, h.edges[..j], SplitNode(h, j), nodes);
  }

  lemma SplitKeeps(path: Path, h: Node, j: nat)
    requires PathOk(path) && Open(h) && h.compr && j < |h.edges|
    ensures Keeps(Plug(path, h), Plug(path, SplitTree(h, j)), SplitCost(h, j))
  {
    hide Good, SplitTree, Get, Tally;
    forall k: Key
      ensures Get(h, k) == Get(SplitTree(h, j), k)
    {
      SplitGet(h, j, k);
    }
    SplitTally(h, j, true);
    SplitTally(h, j, false);
    KeepsAtEnd(path, h, SplitTree(h, j), SplitCost(h, j));
  }

  lemma SplitOpen(h: Node, j: nat)
    requires Open(h) && h.compr && j < |h.edges|
    ensures Open(SplitNode(h, j)) && !SplitNode(h, j).compr && SplitNode(h, j).edges == [h.edges[j]]
  {
    if j + 1 < |h.edges| {
      GoodChain(None, h.edges[j + 1..], h.children[0]);
    }
  }

  /** ALGORITHM 1: the path to the split node, which then takes the other byte as a second child. */
  function SplitPath(path: Path, h: Node, j: nat): Path
    requires |h.children| == 1 && j < |h.edges|
  {
    if j == 0 then path else path + [Frame(SplitTree(h, j), 0)]
  }

  lemma SplitPathOk(path: Path, h: Node, j: nat)
    requires PathOk(path) && Open(h) && h.compr && j < |h.edges|
    ensures PathOk(SplitPath(path, h, j))
    ensures PathKey(SplitPath(path, h, j)) == PathKey(path) + h.edges[..j]
    ensures Plug(SplitPath(path, h, j), SplitNode(h, j)) == Plug(path, SplitTree(h, j))
  {
    hide Good, Plug, PathKey;
    if j > 0 {
      var f := Frame(SplitTree(h, j), 0);
      GoodChain(h.key, h.edges[..j], SplitNode(h, j));
      PathOkPrefix(path, f, SplitNode(h, j));
      assert Refit(f, SplitNode(h, j)) == SplitTree(h, j);
    } else {
      assert PathKey(path) + h.edges[..0] == PathKey(path);
    }
  }

  lemma PostfixCompact(h: Node, j: nat)
    requires Compact(h) && h.compr && |h.children| == 1 && j < |h.edges|
    ensures Compact(Postfix(h, j))
  {
    if j + 1 < |h.edges| {
      CompactChain(None, h.edges[j + 1..], h.children[0]);
    }
  }

  /** The split node with its second child keeps a compact tree compact. */
  lemma SplitCompact(path: Path, h: Node, j: nat, c: Byte)
    requires PathOk(path) && Open(h) && h.compr && j < |h.edges| && Compact(Plug(path, h))
    ensures PathOk(SplitPath(path, h, j))
    ensures Compact(Plug(SplitPath(path, h, j), AddChild(SplitNode(h, j), c, LEAF)))
  {
    hide Good, Plug, PathKey, Compact;
    CompactInside(path, h);
    PostfixCompact(h, j);
    CompactLeaves();
    var split := AddChild(SplitNode(h, j), c, LEAF);
    AddChildCompact(SplitNode(h, j), c, LEAF);
    SplitPathOk(path, h, j);
    if j == 0 {
      CompactPlug(path, h, split);
    } else {
      var f := Frame(SplitTree(h, j), 0);
      GoodChain(h.key, h.edges[..j], SplitNode(h, j));
      PathOkPrefix(path, f, split);
      CompactChain(h.key, h.edges[..j], split);
      assert Refit(f, split) == Chain(h.key, h.edges[..j], split);
      CompactPlug(path, h, Refit(f, split));
    }
  }

  // ---------------------------------------------------------------- ALGORITHM 2

  /** ALGORITHM 2: the key ends inside a compressed node, whose second half becomes its node. */
  function CutTree(h: Node, j: nat, data: Value): Node
    requires |h.children| == 1 && j <= |h.edges|
  {
    Chain(h.key, h.edges[..j], Chain(Some(data), h.edges[j..], h.children[0]))
  }

  lemma CutGet(h: Node, j: nat, data: Value, k: Key)
    requires Open(h) && h.compr && 0 < j < |h.edges|
    ensures Get(CutTree(h, j, data), k) == if k == h.edges[..j] then Some(data) else Get(h, k)
  {
    hide Good;
    var bytes, next := h.edges, h.children[0];
    assert h == Chain(h.key, bytes, next);
    SplitChain(h.key, bytes, next, j, k);
    GetChain(h.key, bytes[..j], Chain(None, bytes[j..], next), k);
    GetChain(h.key, bytes[..j], Chain(Some(data), bytes[j..], next), k);
    if bytes[..j] <= k {
      GetChain(None, bytes[j..], next, k[j..]);
      GetChain(Some(data), bytes[j..], next, k[j..]);
      assert k[j..] == [] <==> k == bytes[..j];
    }
  }

  lemma CutShape(h: Node, j: nat, data: Value)
    requires Open(h) && h.compr && 0 < j < |h.edges|
    ensures Good(CutTree(h, j, data))
    ensures Tally(CutTree(h, j, data), true) == Tally(h, true) + 1
    ensures Tally(CutTree(h, j, data), false) == Tally(h, false) + 1
    ensures Compact(h) ==> Compact(CutTree(h, j, data)) && IsLink(CutTree(h, j, data)) == IsLink(h)
  {
    var rest := Chain(Some(data), h.edges[j..], h.children[0]);
    assert h == Chain(h.key, h.edges, h.children[0]);
    GoodChain(Some(data), h.edges[j..], h.children[0]);
    GoodChain(h.key, h.edges[..j], rest);
    hide Tally, Good;
    TallyChain(h.key, h.edges, h.children[0], true);
    TallyChain(h.key, h.edges, h.children[0], false);
    TallyChain(Some(data), h.edges[j..], h.children[0], true);
    TallyChain(Some(data), h.edges[j..], h.children[0], false);
    TallyChain(h.key, h.edges[..j], rest, true);
    TallyChain(h.key, h.edges[..j], rest, false);
    if Compact(h) {
      CompactChain(Some(data), h.edges[j..], h.children[0]);
      CompactChain(h.key, h.edges[..j], rest);
    }
  }

  // ---------------------------------------------------------------- the new entry

  function Keyed(h: Node, data: Value): Node {
    h.(key := Some(data))
  }

  /** A subtree with one entry more, put at the end of a path, adds that entry to the tree. */
  lemma EntryAtEnd(path: Path, h: Node, g: Node, rest: Key, data: Value)
    requires PathOk(path)
    requires forall k: Key :: Get(g, k) == if k == rest then Some(data) else Get(h, k)
    ensures forall k: Key :: Get(Plug(path, g), k)
              == if k == PathKey(path) + rest then Some(data) else Get(Plug(path, h), k)
  {
    hide Get, Plug, PathKey;
    var head := PathKey(path);
    forall k: Key
      ensures Get(Plug(path, g), k) == if k == head + rest then Some(data) else Get(Plug(path, h), k)
    {
      GetPlug(path, g, h, k);
      GetPlug(path, h, g, k);
      if head <= k {
        assert k == head + k[|head|..];
        assert k == head + rest <==> k[|head|..] == rest;
      }
    }
  }

  lemma KeyedGet(h: Node, data: Value)
    ensures forall k: Key :: Get(Keyed(h, data), k) == if k == [] then Some(data) else Get(h, k)
    ensures Open(h) ==> Good(Keyed(h, data))
    ensures Tally(Keyed(h, data), true) == Tally(h, true)
    ensures Tally(Keyed(h, data), false) == Tally(h, false) + if h.key.None? then 1 else 0
    ensures Compact(h) ==> Compact(Keyed(h, data))
  {
  }

  // ---------------------------------------------------------------- raxGenericInsert

  /** A whole tree: well formed, or the single empty head of a new one. */
  ghost predicate Rooted(n: Node) {
    Good(n) || n == EMPTY
  }

  /** What an insertion of s makes of the tree: one entry more or changed, the counts to match. */
  ghost predicate Inserted(root: Node, r: Node, s: Key, data: Value, added: int) {
    && Good(r)
    && (forall k: Key :: Get(r, k) == if k == s then Some(data) else Get(root, k))
    && Tally(r, false) == Tally(root, false) + (if Get(root, s).None? then 1 else 0)
    && Tally(r, true) == Tally(root, true) + added
  }

  /** The node for s exists: give it the value. */
  lemma MarkNode(root: Node, s: Key, stop: Stop, data: Value)
    requires StopsAt(root, s, stop) && OnKey(s, stop)
    ensures Inserted(root, Plug(stop.path, Keyed(stop.node, data)), s, data, 0)
    ensures Compact(root) ==> Compact(Plug(stop.path, Keyed(stop.node, data)))
  {
    hide Good, Plug, PathKey, Tally, Get, Compact;
    var path, h := stop.path, stop.node;
    StopDecides(root, s, stop);
    KeyedGet(h, data);
    EntryAtEnd(path, h, Keyed(h, data), [], data);
    assert PathKey(path) + [] == s by {
      assert h.compr ==> h.edges[..0] == [];
      assert s[..|s|] == s;
    }
    GoodPlug(path, Keyed(h, data));
    TallyPlug(path, h, Keyed(h, data), true);
    TallyPlug(path, h, Keyed(h, data), false);
    if Compact(root) {
      CompactInside(path, h);
      CompactPlug(path, h, Keyed(h, data));
    }
  }

  /** ALGORITHM 2 as a whole. */
  lemma CutNode(root: Node, s: Key, stop: Stop, data: Value)
    requires StopsAt(root, s, stop) && stop.i == |s| && stop.node.compr && stop.j > 0
    ensures Inserted(root, Plug(stop.path, CutTree(stop.node, stop.j, data)), s, data, 1)
    ensures Compact(root) ==> Compact(Plug(stop.path, CutTree(stop.node, stop.j, data)))
  {
    hide Good, Plug, PathKey, Tally, Get, Compact, CutTree;
    var path, h, j := stop.path, stop.node, stop.j;
    var g := CutTree(h, j, data);
    StopDecides(root, s, stop);
    forall k: Key
      ensures Get(g, k) == if k == h.edges[..j] then Some(data) else Get(h, k)
    {
      CutGet(h, j, data, k);
    }
    EntryAtEnd(path, h, g, h.edges[..j], data);
    assert s[..stop.i] == s;
    CutShape(h, j, data);
    GoodPlug(path, g);
    TallyPlug(path, h, g, true);
    TallyPlug(path, h, g, false);
    if Compact(root) {
      CompactInside(path, h);
      CompactPlug(path, h, g);
    }
  }

  /** The grown path ends in an empty node; marking it adds the entry. */
  lemma MarkGrown(root: Node, path: Path, s: Key, data: Value, added: int)
    requires PathOk(path) && PathKey(path) == s && Keeps(root, Plug(path, EMPTY), added)
    ensures Get(root, s) == None
    ensures Inserted(root, Plug(path, Keyed(EMPTY, data)), s, data, added)
    ensures Compact(Plug(path, LEAF)) ==> Compact(Plug(path, Keyed(EMPTY, data)))
  {
    hide Good, Plug, PathKey, Tally, Compact;
    GetPlug(path, EMPTY, EMPTY, s);
    KeyedGet(EMPTY, data);
    EmptyIsOpen();
    EntryAtEnd(path, EMPTY, Keyed(EMPTY, data), [], data);
    assert PathKey(path) + [] == s;
    GoodPlug(path, Keyed(EMPTY, data));
    TallyPlug(path, EMPTY, Keyed(EMPTY, data), true);
    TallyPlug(path, EMPTY, Keyed(EMPTY, data), false);
    if Compact(Plug(path, LEAF)) {
      LeafCompact(data);
      CompactPlug(path, LEAF, Keyed(EMPTY, data));
    }
  }

  lemma LeafCompact(data: Value)
    ensures Compact(Keyed(EMPTY, data))
  {
  }

  /** Where the loop of missing nodes starts: the stop node, or the split node of ALGORITHM 1. */
  method GrowFrom(root: Node, s: Key, stop: Stop) returns (path: Path, h: Node, added: nat)
    requires StopsAt(root, s, stop) && stop.i < |s|
    ensures PathOk(path) && Open(h) && !h.compr && PathKey(path) == s[..stop.i] && s[stop.i] !in h.edges
    ensures Keeps(root, Plug(path, h), added)
    ensures Compact(root) ==> Compact(Plug(path, AddChild(h, s[stop.i], LEAF)))
  {
    hide Good, Plug, PathKey, Tally, Get, Compact, AddChild;
    h, path, added := stop.node, stop.path, 0;
    var c := s[stop.i];
    KeepsNothing(root);
    if h.compr {
      SplitKeeps(path, h, stop.j);
      SplitOpen(h, stop.j);
      SplitPathOk(path, h, stop.j);
      if Compact(root) {
        SplitCompact(path, h, stop.j, c);
      }
      added := SplitCost(h, stop.j);
      path, h := SplitPath(path, h, stop.j), SplitNode(h, stop.j);
    } else if Compact(root) {
      EdgeCompact(path, h, c);
    }
  }

  lemma EdgeCompact(path: Path, h: Node, c: Byte)
    requires PathOk(path) && Open(h) && !h.compr && (path != [] ==> Good(h))
    requires Compact(Plug(path, h))
    ensures Compact(Plug(path, AddChild(h, c, LEAF)))
  {
    hide Plug, PathKey;
    CompactInside(path, h);
    CompactLeaves();
    AddChildCompact(h, c, LEAF);
    CompactPlug(path, h, AddChild(h, c, LEAF));
  }

  /** raxGenericInsert on the tree: the new tree, the previous value, and the nodes added. */
  method Insert(root: Node, s: Key, data: Value, overwrite: bool)
    returns (r: Node, previous: Option<Value>, added: nat)
    requires Rooted(root)
    ensures previous == Get(root, s)
    ensures previous.None? || overwrite ==> Inserted(root, r, s, data, added)
    ensures previous.Some? && !overwrite ==> r == root && added == 0
    ensures Compact(root) && |s| <= 536870911 ==> Compact(r)
  {
    RootedIsOpen(root);
    hide Good, Plug, PathKey, Tally, Get, Compact, AddChild, Inserted, Keeps, StopsAt;
    var stop := LowWalk(root, s);
    StopDecides(root, s, stop);
    if OnKey(s, stop) {
      previous, added := stop.node.key, 0;
      MarkNode(root, s, stop, data);
      if previous.None? || overwrite {
        r := MarkAt(root, s, stop, data);
      } else {
        r := root;
      }
    } else if stop.i == |s| {
      r := CutAt(root, s, stop, data);
      previous, added := None, 1;
    } else {
      r, added := GrowAt(root, s, stop, data);
      previous := None;
    }
  }

  lemma RootedIsOpen(root: Node)
    requires Rooted(root)
    ensures Open(root)
  {
  }

  method MarkAt(root: Node, s: Key, stop: Stop, data: Value) returns (r: Node)
    requires StopsAt(root, s, stop) && OnKey(s, stop)
    ensures Inserted(root, r, s, data, 0)
    ensures Compact(root) ==> Compact(r)
  {
    MarkNode(root, s, stop, data);
    r := Plug(stop.path, Keyed(stop.node, data));
  }

  method CutAt(root: Node, s: Key, stop: Stop, data: Value) returns (r: Node)
    requires StopsAt(root, s, stop) && stop.i == |s| && !OnKey(s, stop)
    ensures Inserted(root, r, s, data, 1)
    ensures Compact(root) ==> Compact(r)
  {
    CutNode(root, s, stop, data);
    r := Plug(stop.path, CutTree(stop.node, stop.j, data));
  }

  method GrowAt(root: Node, s: Key, stop: Stop, data: Value) returns (r: Node, added: nat)
    requires StopsAt(root, s, stop) && stop.i < |s|
    ensures Get(root, s) == None
    ensures Inserted(root, r, s, data, added)
    ensures Compact(root) && |s| <= 536870911 ==> Compact(r)
  {
    hide Good, PathKey, Tally, Get, Compact, AddChild, Inserted, Keeps, StopsAt;
    assert stop.i < |s|;
    var path, h, split := GrowFrom(root, s, stop);
    ghost var started := Plug(path, h);
    var grown, more := Grow(path, h, s, stop.i);
    KeepsChain(root, started, Plug(grown, EMPTY), split, more);
    MarkGrown(root, grown, s, data, split + more);
    r, added := Plug(grown, Keyed(EMPTY, data)), split + more;
  }
}
