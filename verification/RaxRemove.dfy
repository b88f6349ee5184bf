/**
  raxRemove of src/rax/rax.c: unmark the key, prune the branch that holds nothing any more, and
  merge the chain of links that is left into one compressed node.
*/
module RaxRemove {
  import opened Wrappers
  import opened Bytes
  import opened RaxTree
  import opened Rax
  import opened RaxInsert
  import opened RaxMerged
  import RaxLayout

  /** What the removal of s makes of the tree; freed is the loss of nodes. */
  ghost predicate Removed(root: Node, r: Node, s: Key, freed: int) {
    && Rooted(r)
    && (forall k: Key :: Get(r, k) == if k == s then None else Get(root, k))
    && Tally(r, false) == Tally(root, false) - 1
    && Tally(r, true) == Tally(root, true) - freed
  }

  function Unkeyed(h: Node): Node {
    h.(key := None)
  }

  lemma UnkeyedGet(h: Node)
    requires h.key.Some?
    ensures forall k: Key :: Get(Unkeyed(h), k) == if k == [] then None else Get(h, k)
    ensures Tally(Unkeyed(h), true) == Tally(h, true)
    ensures Tally(Unkeyed(h), false) == Tally(h, false) - 1
    ensures Open(h) ==> Open(Unkeyed(h))
    ensures Open(h) && h.children != [] ==> Good(Unkeyed(h))
    ensures Open(h) && h.children == [] ==> Unkeyed(h) == EMPTY
  {
  }

  /** Taking the entry out of a subtree takes it out of the tree. */
  lemma NoEntryAtEnd(path: Path, h: Node, g: Node, s: Key)
    requires PathOk(path) && PathKey(path) == s
    requires forall k: Key :: Get(g, k) == if k == [] then None else Get(h, k)
    ensures forall k: Key :: Get(Plug(path, g), k) == if k == s then None else Get(Plug(path, h), k)
  {
    hide Get, Plug, PathKey;
    forall k: Key
      ensures Get(Plug(path, g), k) == if k == s then None else Get(Plug(path, h), k)
    {
      GetPlug(path, g, h, k);
      GetPlug(path, h, g, k);
      if s <= k {
        assert k == s + k[|s|..];
        assert k == s <==> k[|s|..] == [];
      }
    }
  }

  // ---------------------------------------------------------------- raxRemoveChild

  /** raxRemoveChild on the (edge, child) lists; a compressed node becomes a leaf. */
  function RemoveChild(f: Frame): Node
    requires f.child < |f.node.children| && (f.node.compr || |f.node.edges| == |f.node.children|)
  {
    if f.node.compr then Node(f.node.key, false, [], [])
    else f.node.(edges := f.node.edges[..f.child] + f.node.edges[f.child + 1..],
                 children := f.node.children[..f.child] + f.node.children[f.child + 1..])
  }

  lemma RemoveSorted(edges: seq<Byte>, i: nat)
    requires Sorted(edges) && i < |edges|
    ensures Sorted(edges[..i] + edges[i + 1..])
    ensures edges[i] !in edges[..i] + edges[i + 1..]
  {
  }

  lemma RemoveIndex(edges: seq<Byte>, i: nat, b: Byte)
    requires Sorted(edges) && i < |edges| && b != edges[i]
    ensures EdgeIndex(edges[..i] + edges[i + 1..], b)
         == if EdgeIndex(edges, b) < i then EdgeIndex(edges, b) else EdgeIndex(edges, b) - 1
  {
    var less := edges[..i] + edges[i + 1..];
    var at := EdgeIndex(edges, b);
    RemoveSorted(edges, i);
    if at < |edges| {
      var now := if at < i then at else at - 1;
      assert less[now] == b;
      EdgeIndexOf(less, now);
    } else {
      EdgeIndexMissing(edges, b);
      EdgeIndexMissing(less, b);
    }
  }

  /** Dropping a child that holds no key drops an edge but no entry. */
  lemma RemoveChildGet(f: Frame, k: Key)
    requires FrameOk(f)
    ensures Get(RemoveChild(f), k) == Get(Refit(f, EMPTY), k)
  {
    hide Good;
    if k != [] {
      if f.node.compr {
        EdgeIndexMissing([], k[0]);
      } else if k[0] == f.node.edges[f.child] {
        RemoveSorted(f.node.edges, f.child);
        EdgeIndexMissing(RemoveChild(f).edges, k[0]);
        EdgeIndexOf(f.node.edges, f.child);
      } else {
        RemoveChildElsewhere(f, k);
      }
    }
  }

  lemma RemoveChildElsewhere(f: Frame, k: Key)
    requires Shape(f.node) && !f.node.compr && f.child < |f.node.children|
    requires k != [] && k[0] != f.node.edges[f.child]
    ensures Get(RemoveChild(f), k) == Get(Refit(f, EMPTY), k)
  {
    hide Good, EdgeIndex, Sorted;
    var at := EdgeIndex(f.node.edges, k[0]);
    RemoveIndex(f.node.edges, f.child, k[0]);
    if at < |f.node.edges| {
      assert RemoveChild(f).children[if at < f.child then at else at - 1] == f.node.children[at];
    }
  }

  lemma RemoveChildOpen(f: Frame)
    requires FrameOk(f)
    ensures Open(RemoveChild(f))
    ensures |RemoveChild(f).children| == |f.node.children| - 1
    ensures |RemoveChild(f).edges| == |RemoveChild(f).children|
    ensures RemoveChild(f).key == f.node.key && !RemoveChild(f).compr
  {
    if !f.node.compr {
      RemoveSorted(f.node.edges, f.child);
      var less := RemoveChild(f);
      forall i | 0 <= i < |less.children|
        ensures Good(less.children[i])
      {
        assert less.children[i] == f.node.children[if i < f.child then i else i + 1];
      }
    }
  }

  lemma RemoveChildTally(f: Frame, nodes: bool)
    requires FrameOk(f)
    ensures Tally(RemoveChild(f), nodes) == Tally(Refit(f, EMPTY), nodes) - Tally(EMPTY, nodes)
  {
    var n := f.node;
    var full := Refit(f, EMPTY).children;
    if n.compr {
      assert full == [EMPTY];
      TallyOne(EMPTY, nodes);
    } else {
      var a, b := n.children[..f.child], n.children[f.child + 1..];
      assert full == a + ([EMPTY] + b);
      TallyConcat(a, [EMPTY] + b, nodes);
      TallyConcat([EMPTY], b, nodes);
      TallyOne(EMPTY, nodes);
      TallyConcat(a, b, nodes);
    }
  }

  // ---------------------------------------------------------------- pruning

  /** A link whose child holds nothing holds nothing itself. */
  lemma BarrenLink(f: Frame, k: Key)
    requires FrameOk(f) && IsLink(f.node)
    ensures Get(Refit(f, EMPTY), k) == None
  {
    if !f.node.compr && k != [] {
      EdgeIndexMissing(f.node.edges, k[0]);
    }
  }

  lemma BarrenLinkKeeps(path: Path, f: Frame)
    requires PathOk(path) && FrameOk(f) && IsLink(f.node)
    ensures Keeps(Plug(path, Refit(f, EMPTY)), Plug(path, EMPTY), -1)
  {
    hide Good, Plug;
    forall k: Key
      ensures Get(Refit(f, EMPTY), k) == Get(EMPTY, k)
    {
      BarrenLink(f, k);
    }
    forall nodes
      ensures Tally(Refit(f, EMPTY), nodes) == Tally(EMPTY, nodes) + if nodes then 1 else 0
    {
      assert Refit(f, EMPTY).children == [EMPTY];
      TallyOne(EMPTY, nodes);
    }
    KeepsAtEnd(path, Refit(f, EMPTY), EMPTY, -1);
  }

  lemma RemoveChildKeeps(path: Path, f: Frame)
    requires PathOk(path) && FrameOk(f)
    ensures Keeps(Plug(path, Refit(f, EMPTY)), Plug(path, RemoveChild(f)), -1)
  {
    hide Good, Plug, Get, Tally, RemoveChild;
    forall k: Key
      ensures Get(Refit(f, EMPTY), k) == Get(RemoveChild(f), k)
    {
      RemoveChildGet(f, k);
    }
    RemoveChildTally(f, true);
    RemoveChildTally(f, false);
    EmptyTally();
    KeepsAtEnd(path, Refit(f, EMPTY), RemoveChild(f), -1);
  }

  lemma EmptyTally()
    ensures Tally(EMPTY, true) == 1 && Tally(EMPTY, false) == 0
  {
  }

  lemma LastFrame(path: Path, n: Node)
    requires PathOk(path) && path != []
    ensures PathOk(path[..|path| - 1]) && FrameOk(path[|path| - 1])
    ensures Plug(path, n) == Plug(path[..|path| - 1], Refit(path[|path| - 1], n))
  {
  }

  /**
    The upward loop from an emptied leaf below the head: free it and every link above it, and take
    the last one freed out of the first node that is a key or has other children, or of the head.
  */
  method Prune(path: Path, ghost was: Node) returns (up: Path, h: Node, freed: nat, ghost whole: Node)
    requires PathOk(path) && path != []
    ensures PathOk(up) && Open(h) && Keeps(Plug(path, EMPTY), Plug(up, h), 0 - freed)
    ensures !h.compr && (h.children == [] && h.key.None? ==> up == [] && h == EMPTY)
    ensures Plug(up, whole) == Plug(path, was) && (MergedBelow(whole) ==> MergedBelow(h))
    ensures (up, h) == PrunedTo(path)
  {
    hide Good, Plug, PathKey, Keeps, RemoveChild, MergedBelow;
    whole := was;
    up, freed := path, 0;
    KeepsNothing(Plug(path, EMPTY));
    while true
      invariant PathOk(up) && up != []
      invariant Keeps(Plug(path, EMPTY), Plug(up, EMPTY), 0 - freed)
      invariant Plug(up, whole) == Plug(path, was) && PrunedTo(up) == PrunedTo(path)
      decreases |up|
    {
      LastFrame(up, EMPTY);
      LastFrame(up, whole);
      var f := up[|up| - 1];
      ghost var before := Plug(up, EMPTY);
      RemovedBelow(f, whole);
      whole := Refit(f, whole);
      up := up[..|up| - 1];
      freed := freed + 1;
      if up == [] || !IsLink(f.node) {
        RemoveChildKeeps(up, f);
        RemoveChildOpen(f);
        KeepsChain(Plug(path, EMPTY), before, Plug(up, RemoveChild(f)), 1 - freed, -1);
        h := RemoveChild(f);
        return;
      }
      BarrenLinkKeeps(up, f);
      KeepsChain(Plug(path, EMPTY), before, Plug(up, EMPTY), 1 - freed, -1);
    }
  }

  lemma RemovedBelow(f: Frame, n: Node)
    requires FrameOk(f)
    ensures MergedBelow(Refit(f, n)) ==> MergedBelow(RemoveChild(f))
  {
    hide Good;
    var a, b := Refit(f, n), RemoveChild(f);
    if MergedBelow(a) {
      forall i | 0 <= i < |b.children|
        ensures Merged(b.children[i])
      {
        assert b.children[i] == a.children[if i < f.child then i else i + 1];
      }
    }
  }

  // ---------------------------------------------------------------- recompression

  /** Every stored key fits a compressed node, so no chain of links outgrows one. */
  ghost predicate KeysFit(root: Node) {
    forall k: Key :: Get(root, k).Some? ==> |k| <= 536870911
  }

  /** A well-formed subtree holds a key. */
  lemma {:induction false} HoldsKey(n: Node) returns (k: Key)
    requires Good(n)
    ensures Get(n, k).Some?
    decreases n
  {
    if n.key.Some? {
      k := [];
    } else {
      var rest := HoldsKey(n.children[0]);
      k := Label(n, 0) + rest;
      assert k[|Label(n, 0)|..] == rest;
      if !n.compr {
        EdgeIndexOf(n.edges, 0);
      }
    }
  }

  lemma LinkIsChain(n: Node)
    requires Shape(n) && IsLink(n)
    ensures n == Chain(None, n.edges, n.children[0]) && n.edges != []
  {
    assert n.children == [n.children[0]];
  }

  /** The bytes, the end and the length of the chain of links that starts at n. */
  ghost function ChainBytes(n: Node): seq<Byte> {
    if IsLink(n) then n.edges + ChainBytes(n.children[0]) else []
  }

  ghost function ChainEnd(n: Node): Node {
    if IsLink(n) then ChainEnd(n.children[0]) else n
  }

  ghost function ChainCount(n: Node): nat {
    if IsLink(n) then 1 + ChainCount(n.children[0]) else 0
  }

  /** A chain of links stands for what one link with all its bytes stands for. */
  lemma {:induction false} ChainMerges(n: Node, k: Key)
    requires Good(n) && IsLink(n)
    ensures ChainBytes(n) != []
    ensures Get(n, k) == Get(Chain(None, ChainBytes(n), ChainEnd(n)), k)
    decreases n
  {
    LinkIsChain(n);
    var next := n.children[0];
    if IsLink(next) {
      var rest := ChainBytes(next);
      assert (n.edges + rest)[..|n.edges|] == n.edges && (n.edges + rest)[|n.edges|..] == rest;
      ChainMerges(next, []);
      SplitChain(None, n.edges + rest, ChainEnd(next), |n.edges|, k);
      GetChain(None, n.edges, next, k);
      GetChain(None, n.edges, Chain(None, rest, ChainEnd(next)), k);
      if n.edges <= k {
        ChainMerges(next, k[|n.edges|..]);
      }
    } else {
      assert n.edges + [] == n.edges;
    }
  }

  lemma {:induction false} ChainCounts(n: Node, nodes: bool)
    requires Good(n)
    ensures Good(ChainEnd(n)) && !IsLink(ChainEnd(n))
    ensures Tally(n, nodes) == Tally(ChainEnd(n), nodes) + if nodes then ChainCount(n) else 0
    decreases n
  {
    if IsLink(n) {
      ChainCounts(n.children[0], nodes);
      assert n.children == [n.children[0]];
      TallyOne(n.children[0], nodes);
    }
  }

  /** Some stored key runs through the whole chain, so it fits a node. */
  lemma ChainFits(start: Node)
    requires Good(start) && IsLink(start) && KeysFit(start)
    ensures |ChainBytes(start)| <= 536870911
  {
    hide Good, Get, Tally, ChainBytes;
    ChainCounts(start, true);
    var bytes, end := ChainBytes(start), ChainEnd(start);
    var k := HoldsKey(end);
    ChainMerges(start, bytes + k);
    GetChain(None, bytes, end, bytes + k);
    assert (bytes + k)[|bytes|..] == k;
  }

  /** How far the first scan gets below n when it has already seen size bytes: links and bytes. */
  ghost function CapCount(n: Node, size: nat): nat {
    if IsLink(n) && size + |n.edges| <= 536870911 then 1 + CapCount(n.children[0], size + |n.edges|) else 0
  }

  ghost function CapBytes(n: Node, size: nat): nat {
    if IsLink(n) && size + |n.edges| <= 536870911 then CapBytes(n.children[0], size + |n.edges|) else size
  }

  /** The bytes of the new node: as many as the first scan counted from this link. */
  ghost function Counted(start: Node): nat
    requires IsLink(start)
  {
    CapBytes(start.children[0], |start.edges|)
  }

  /**
    The second scan has no cap: it copies more than the first one counted exactly when the first one
    found something to merge and then stopped at the cap. The new node keeps the size counted.
  */
  ghost predicate Overruns(start: Node)
    requires IsLink(start)
  {
    CapCount(start.children[0], |start.edges|) > 0 && Counted(start) < |ChainBytes(start)|
  }

  /** What is allocated behind the header of a compressed node: its bytes, the padding and a pointer. */
  function Room(size: nat): nat {
    size + RaxLayout.Padding(size) + RaxLayout.WORD
  }

  /** The copy even leaves the memory of the new node. */
  ghost predicate LeavesRoom(start: Node)
    requires IsLink(start)
  {
    Overruns(start) && |ChainBytes(start)| > Room(Counted(start))
  }

  /** The cap takes the whole chain or stops before its end. */
  lemma {:induction false} CapOrAll(n: Node, size: nat)
    requires Good(n)
    ensures size <= CapBytes(n, size) <= size + |ChainBytes(n)| && CapCount(n, size) <= ChainCount(n)
    ensures size <= 536870911 ==> CapBytes(n, size) <= 536870911
    ensures CapBytes(n, size) == size + |ChainBytes(n)| <==> CapCount(n, size) == ChainCount(n)
    ensures size + |ChainBytes(n)| <= 536870911 ==> CapCount(n, size) == ChainCount(n)
    decreases n
  {
    if IsLink(n) {
      LinkIsChain(n);
      CapOrAll(n.children[0], size + |n.edges|);
    }
  }

  /** Keys that fit a node make chains that do. */
  lemma FitsNoOverrun(start: Node)
    requires Good(start) && IsLink(start) && KeysFit(start)
    ensures !Overruns(start) && |ChainBytes(start)| <= 536870911
  {
    hide KeysFit;
    ChainFits(start);
    CapOrAll(start.children[0], |start.edges|);
  }

  /** The first scan: the number of nodes and bytes that can be compressed within the size cap. */
  method CountChain(start: Node) returns (nodes: nat, size: nat)
    requires IsLink(start)
    ensures nodes == 1 + CapCount(start.children[0], |start.edges|) && size == CapBytes(start.children[0], |start.edges|)
  {
    var h := start.children[0];
    nodes, size := 1, |start.edges|;
    while IsLink(h)
      invariant nodes + CapCount(h, size) == 1 + CapCount(start.children[0], |start.edges|)
      invariant CapBytes(h, size) == CapBytes(start.children[0], |start.edges|)
      decreases h
    {
      if size + |h.edges| > RAX_NODE_MAX_SIZE {
        return;
      }
      nodes, size := nodes + 1, size + |h.edges|;
      h := h.children[0];
    }
  }

  /** The second scan, which has no cap: collect the bytes and free the nodes. */
  method CollectChain(start: Node) returns (bytes: seq<Byte>, h: Node, freed: nat)
    requires IsLink(start)
    ensures bytes == ChainBytes(start) && h == ChainEnd(start) && freed == ChainCount(start)
  {
    bytes, h, freed := start.edges, start.children[0], 1;
    while IsLink(h)
      invariant bytes + ChainBytes(h) == ChainBytes(start)
      invariant ChainEnd(h) == ChainEnd(start)
      invariant freed + ChainCount(h) == ChainCount(start)
      decreases h
    {
      bytes, h, freed := bytes + h.edges, h.children[0], freed + 1;
    }
  }

  // ---------------------------------------------------------------- keys that lose bytes

  /** Behind the key at, the first kept of the bytes stay; the rest of them are lost. */
  datatype Cut = Cut(at: Key, bytes: seq<Byte>, kept: nat) {
    ghost predicate Ok() {
      kept <= |bytes|
    }

    /** Where an old key goes. */
    function Shorten(k: Key): Key
      requires kept <= |bytes|
    {
      if at + bytes <= k then at + bytes[..kept] + k[|at| + |bytes|..] else k
    }

    /** The old key that is now found under k, if there is one. */
    function Restored(k: Key): Option<Key>
      requires kept <= |bytes|
    {
      if at + bytes[..kept] <= k then Some(at + bytes + k[|at| + kept..])
      else if at <= k then None
      else Some(k)
    }
  }

  const NO_CUT: Cut := Cut([], [], 0)

  /** All keys behind the cut go through its bytes, and if bytes are lost there is such a key. */
  ghost predicate Through(n: Node, cut: Cut) {
    && cut.Ok()
    && (forall k: Key | Get(n, k).Some? && cut.at <= k :: cut.at + cut.bytes <= k)
    && (cut.kept < |cut.bytes| ==> exists x: Key :: Get(n, cut.at + cut.bytes + x).Some?)
  }

  /** The map with the keys behind the cut shortened, and the counts up to the nodes added. */
  ghost predicate Trims(before: Node, after: Node, added: int, cut: Cut) {
    && Through(before, cut)
    && (forall k: Key :: Get(after, k) == if cut.Restored(k).Some? then Get(before, cut.Restored(k).value) else None)
    && Tally(after, false) == Tally(before, false)
    && Tally(after, true) == Tally(before, true) + added
  }

  lemma RestoredAll(cut: Cut, k: Key)
    requires cut.kept == |cut.bytes|
    ensures cut.at + cut.bytes <= k ==> cut.Restored(k) == Some(k)
    ensures !(cut.at <= k) ==> cut.Restored(k) == Some(k)
    ensures cut.at <= k && !(cut.at + cut.bytes <= k) ==> cut.Restored(k) == None
  {
    assert cut.bytes[..cut.kept] == cut.bytes;
    if cut.at + cut.bytes <= k {
      assert k == cut.at + cut.bytes + k[|cut.at| + cut.kept..];
    } else {
      PrefixOfPrefix(cut.at, cut.bytes, k);
    }
  }

  lemma PrefixOfPrefix(a: Key, b: Key, k: Key)
    ensures a + b <= k ==> a <= k
  {
    if a + b <= k {
      assert a == (a + b)[..|a|];
    }
  }

  /** Without lost bytes nothing changes. */
  lemma TrimsNothing(before: Node, after: Node, added: int, cut: Cut)
    requires Trims(before, after, added, cut) && cut.kept == |cut.bytes|
    ensures Keeps(before, after, added)
  {
    hide Get, Tally;
    forall k: Key
      ensures Get(before, k) == Get(after, k)
    {
      RestoredAll(cut, k);
    }
  }

  lemma KeepsTrims(before: Node, after: Node, added: int)
    requires Keeps(before, after, added)
    ensures Trims(before, after, added, NO_CUT)
  {
    hide Get, Tally;
    forall k: Key
      ensures NO_CUT.Restored(k) == Some(k)
    {
      RestoredAll(NO_CUT, k);
      assert NO_CUT.at + NO_CUT.bytes == [];
    }
  }

  /** The key that is found at x behind the bytes kept, and the shorter one that it is behind all bytes. */
  lemma DescentStep(cut: Cut, x: Key) returns (k: Key)
    requires cut.kept < |cut.bytes|
    ensures cut.Restored(k) == Some(cut.at + cut.bytes + x) && cut.at <= k
    ensures cut.at + cut.bytes <= k ==> |x| >= |cut.bytes| - cut.kept && k == cut.at + cut.bytes + x[|cut.bytes| - cut.kept..]
  {
    var stays, lost := cut.at + cut.bytes[..cut.kept], cut.bytes[cut.kept..];
    k := stays + x;
    assert k[|cut.at| + cut.kept..] == x;
    assert cut.at <= k by {
      PrefixOfPrefix(cut.at, cut.bytes[..cut.kept], k);
    }
    if cut.at + cut.bytes <= k {
      assert k[|cut.at| + |cut.bytes|..] == x[|lost|..];
      assert k == cut.at + cut.bytes + k[|cut.at| + |cut.bytes|..];
    }
  }

  /** With lost bytes the map is another: every key would give a shorter one. */
  lemma {:induction false} Descent(before: Node, after: Node, added: int, cut: Cut, x: Key)
    requires Trims(before, after, added, cut) && cut.kept < |cut.bytes|
    requires Get(before, cut.at + cut.bytes + x).Some?
    ensures !SameMap(before, after)
    decreases |x|
  {
    hide Get, Tally, Cut.Restored;
    var k := DescentStep(cut, x);
    assert Get(after, k).Some?;
    if Get(before, k).Some? {
      Descent(before, after, added, cut, x[|cut.bytes| - cut.kept..]);
    }
  }

  lemma TrimsSomething(before: Node, after: Node, added: int, cut: Cut)
    requires Trims(before, after, added, cut)
    ensures SameMap(before, after) <==> cut.kept == |cut.bytes|
  {
    hide Get, Tally;
    if cut.kept == |cut.bytes| {
      TrimsNothing(before, after, added, cut);
    } else {
      var x: Key :| Get(before, cut.at + cut.bytes + x).Some?;
      Descent(before, after, added, cut, x);
    }
  }

  lemma KeepsThenTrims(a: Node, b: Node, c: Node, m: int, n: int, cut: Cut)
    requires Keeps(a, b, m) && Trims(b, c, n, cut)
    ensures Trims(a, c, m + n, cut)
  {
    hide Get, Tally;
    if cut.kept < |cut.bytes| {
      var x: Key :| Get(b, cut.at + cut.bytes + x).Some?;
      assert Get(a, cut.at + cut.bytes + x).Some?;
    }
  }

  // ---------------------------------------------------------------- the merged chain

  /** A chain replaced by one node with its first bytes and its end. */
  lemma MergedTrims(up: Path, start: Node, size: nat)
    requires PathOk(up) && Good(start) && IsLink(start) && 0 < size <= |ChainBytes(start)| && size <= 536870911
    ensures var merged := Chain(None, ChainBytes(start)[..size], ChainEnd(start));
            && Good(merged)
            && Trims(Plug(up, start), Plug(up, merged), 1 - ChainCount(start), Cut(PathKey(up), ChainBytes(start), size))
  {
    hide Good, Plug, Get, Tally, ChainBytes, ChainEnd, ChainCount, PathKey;
    var bytes, end := ChainBytes(start), ChainEnd(start);
    var merged := Chain(None, bytes[..size], end);
    ChainCounts(start, true);
    ChainCounts(start, false);
    GoodChain(None, bytes[..size], end);
    TallyChain(None, bytes[..size], end, true);
    TallyChain(None, bytes[..size], end, false);
    TallyPlug(up, merged, start, true);
    TallyPlug(up, merged, start, false);
    var cut := Cut(PathKey(up), bytes, size);
    ChainThrough(up, start);
    forall k: Key
      ensures Get(Plug(up, merged), k) == if cut.Restored(k).Some? then Get(Plug(up, start), cut.Restored(k).value) else None
    {
      MergedGet(up, start, size, k);
    }
  }

  /** What a chain below a path stands for: keys through all of its bytes. */
  lemma ChainBelow(up: Path, start: Node, k: Key)
    requires PathOk(up) && Good(start) && IsLink(start) && PathKey(up) <= k
    ensures var rest := k[|PathKey(up)|..];
            && ChainBytes(start) != []
            && Get(Plug(up, start), k) == if ChainBytes(start) <= rest then Get(ChainEnd(start), rest[|ChainBytes(start)|..]) else None
  {
    hide Good, Plug, Get, ChainBytes, ChainEnd, PathKey;
    var rest := k[|PathKey(up)|..];
    GetPlug(up, start, start, k);
    ChainMerges(start, rest);
    GetChain(None, ChainBytes(start), ChainEnd(start), rest);
  }

  lemma ChainThrough(up: Path, start: Node)
    requires PathOk(up) && Good(start) && IsLink(start)
    ensures forall size | 0 < size <= |ChainBytes(start)| :: Through(Plug(up, start), Cut(PathKey(up), ChainBytes(start), size))
  {
    hide Good, Plug, Get, ChainBytes, ChainEnd, PathKey, ChainCount, Tally;
    var at, bytes := PathKey(up), ChainBytes(start);
    forall k: Key | Get(Plug(up, start), k).Some? && at <= k
      ensures at + bytes <= k
    {
      ChainBelow(up, start, k);
      assert k == at + k[|at|..];
    }
    ChainCounts(start, true);
    var x := HoldsKey(ChainEnd(start));
    var whole := at + bytes + x;
    assert at <= whole && whole[|at|..] == bytes + x && (bytes + x)[|bytes|..] == x;
    ChainBelow(up, start, whole);
  }

  lemma MergedGet(up: Path, start: Node, size: nat, k: Key)
    requires PathOk(up) && Good(start) && IsLink(start) && 0 < size <= |ChainBytes(start)|
    ensures var cut := Cut(PathKey(up), ChainBytes(start), size);
            var merged := Chain(None, ChainBytes(start)[..size], ChainEnd(start));
            Get(Plug(up, merged), k) == if cut.Restored(k).Some? then Get(Plug(up, start), cut.Restored(k).value) else None
  {
    hide Good, Plug, Get, ChainBytes, ChainEnd, PathKey;
    var at, bytes, end := PathKey(up), ChainBytes(start), ChainEnd(start);
    var merged := Chain(None, bytes[..size], end);
    GetPlug(up, merged, start, k);
    if at <= k {
      var rest := k[|at|..];
      assert k == at + rest;
      GetChain(None, bytes[..size], end, rest);
      assert at + bytes[..size] <= k <==> bytes[..size] <= rest;
      if bytes[..size] <= rest {
        var x := rest[size..];
        var whole := at + bytes + x;
        assert k[|at| + size..] == x && whole[|at|..] == bytes + x && (bytes + x)[|bytes|..] == x;
        ChainBelow(up, start, whole);
      }
    } else {
      PrefixOfPrefix(at, bytes[..size], k);
    }
  }

  /** The highest link above n, or n. */
  ghost function Top(path: Path, n: Node): Node
    requires PathOk(path)
    decreases |path|
  {
    if LinkAbove(path) then Top(path[..|path| - 1], Refit(path[|path| - 1], n)) else n
  }

  /** The path to it. */
  ghost function TopPath(path: Path): Path
    decreases |path|
  {
    if LinkAbove(path) then TopPath(path[..|path| - 1]) else path
  }

  lemma {:induction false} TopPathOk(path: Path)
    requires PathOk(path)
    ensures PathOk(TopPath(path))
    decreases |path|
  {
    if LinkAbove(path) {
      TopPathOk(path[..|path| - 1]);
    }
  }

  lemma {:induction false} TopIsLink(path: Path, n: Node)
    requires PathOk(path) && IsLink(n)
    ensures IsLink(Top(path, n))
    decreases |path|
  {
    if LinkAbove(path) {
      TopIsLink(path[..|path| - 1], Refit(path[|path| - 1], n));
    }
  }

  /** The highest link of the chain that h ends: go up while the parent is a link. */
  method ClimbLinks(path: Path, h: Node, ghost was: Node) returns (up: Path, start: Node, ghost whole: Node)
    requires PathOk(path) && Good(h) && IsLink(h)
    ensures PathOk(up) && Good(start) && IsLink(start) && Plug(up, start) == Plug(path, h)
    ensures !LinkAbove(up) && Plug(up, whole) == Plug(path, was) && ChainEnd(start) == ChainEnd(h)
    ensures start == Top(path, h) && up == TopPath(path)
  {
    hide Good, Plug;
    up, start, whole := path, h, was;
    while up != [] && IsLink(up[|up| - 1].node)
      invariant PathOk(up) && Good(start) && IsLink(start) && Plug(up, start) == Plug(path, h)
      invariant Plug(up, whole) == Plug(path, was) && ChainEnd(start) == ChainEnd(h)
      invariant Top(up, start) == Top(path, h) && TopPath(up) == TopPath(path)
      decreases |up|
    {
      LastFrame(up, start);
      LastFrame(up, whole);
      GoodRefit(up[|up| - 1], start);
      ghost var f := up[|up| - 1];
      up, start, whole := up[..|up| - 1], Refit(up[|up| - 1], start), Refit(f, whole);
    }
  }

  /** What is behind a chain of links is merged if everything behind its first link is. */
  lemma {:induction false} EndMerged(n: Node)
    requires IsLink(n) && MergedBelow(n)
    ensures Merged(ChainEnd(n)) && !IsLink(ChainEnd(n))
    decreases n
  {
    if IsLink(n.children[0]) {
      MergedChildren(n.children[0]);
      EndMerged(n.children[0]);
    }
  }

  /** The merged chain in the place of its first link keeps the tree merged. */
  lemma ChainMerged(up: Path, whole: Node, n: Node, end: Node)
    requires PathOk(up) && Merged(Plug(up, whole)) && !LinkAbove(up)
    requires IsLink(n) && n.children == [end] && Merged(end) && !IsLink(end)
    ensures Merged(Plug(up, n))
  {
    hide Merged, Plug;
    MergedLink(n);
    MergedPlug(up, whole, n);
  }

  lemma ShortChain(start: Node)
    requires IsLink(start) && ChainCount(start) <= 1
    ensures start.children == [ChainEnd(start)]
  {
    assert start.children == [start.children[0]];
  }

  lemma {:induction false} KeysFitBelow(path: Path, n: Node)
    requires PathOk(path) && KeysFit(Plug(path, n))
    ensures KeysFit(n)
  {
    hide Get, Plug, PathKey;
    forall k: Key | Get(n, k).Some?
      ensures |k| <= 536870911
    {
      var whole := PathKey(path) + k;
      GetPlug(path, n, n, whole);
      assert whole[|PathKey(path)|..] == k;
    }
  }

  /** What the recompression around the link h loses: nothing, or the end of a chain that is too long. */
  ghost function CutAt(path: Path, h: Node): Cut
    requires PathOk(path) && IsLink(h)
  {
    TopIsLink(path, h);
    TopPathOk(path);
    CutChain(TopPath(path), Top(path, h))
  }

  ghost function CutChain(up: Path, start: Node): Cut
    requires PathOk(up) && IsLink(start)
  {
    if CapCount(start.children[0], |start.edges|) > 0 then Cut(PathKey(up), ChainBytes(start), Counted(start)) else NO_CUT
  }

  /** Recompression of the chain around the link h at the end of the path. */
  method Recompress(path: Path, h: Node, ghost was: Node) returns (r: Node, freed: nat, overrun: bool, outside: bool)
    requires PathOk(path) && Good(h) && IsLink(h)
    ensures IsLink(Top(path, h)) && (overrun <==> Overruns(Top(path, h))) && (outside <==> LeavesRoom(Top(path, h)))
    ensures Good(r) && Trims(Plug(path, h), r, 0 - freed, CutAt(path, h))
    ensures overrun <==> CutAt(path, h).kept < |CutAt(path, h).bytes|
    ensures KeysFit(Plug(path, h)) ==> !overrun
    ensures KeysFit(Plug(path, h)) && Merged(Plug(path, was)) && MergedBelow(h) ==> Merged(r)
  {
    hide Good, PathKey, Trims, KeysFit, ChainBytes, ChainEnd, ChainCount, CapCount, CapBytes, Merged, MergedBelow, Plug, LinkAbove, Top,
      TopPath, Overruns, LeavesRoom, CutChain;
    TopIsLink(path, h);
    var up, start; ghost var whole;
    up, start, whole := ClimbLinks(path, h, was);
    if KeysFit(Plug(path, h)) {
      KeysFitBelow(up, start);
      FitsNoOverrun(start);
    }
    if MergedBelow(h) {
      EndMerged(h);
    }
    r, freed, overrun, outside := MergeChain(up, start, whole);
  }

  /**
    Both scans from the highest link: the new node has the size the first one counted, and the end that
    the second one reached.
  */
  method MergeChain(up: Path, start: Node, ghost whole: Node) returns (r: Node, freed: nat, overrun: bool, outside: bool)
    requires PathOk(up) && Good(start) && IsLink(start) && !LinkAbove(up)
    ensures (overrun <==> Overruns(start)) && (outside <==> LeavesRoom(start))
    ensures Good(r) && Trims(Plug(up, start), r, 0 - freed, CutChain(up, start))
    ensures overrun <==> CutChain(up, start).kept < |CutChain(up, start).bytes|
    ensures |ChainBytes(start)| <= 536870911 && Merged(Plug(up, whole)) && Merged(ChainEnd(start)) ==> Merged(r)
  {
    hide Good, PathKey, Keeps, Trims, ChainBytes, ChainEnd, ChainCount, CapCount, CapBytes, Merged, Plug, LinkAbove, Room;
    var nodes, size := CountChain(start);
    ChainHead(start);
    ChainCounts(start, true);
    overrun, outside, freed := false, false, 0;
    if nodes > 1 {
      var bytes, end, gone := CollectChain(start);
      overrun, outside := |bytes| > size, |bytes| > size && |bytes| > Room(size);
      var node := Chain(None, bytes[..size], end);
      MergedTrims(up, start, size);
      GoodPlug(up, node);
      r, freed := Plug(up, node), gone - 1;
      if Merged(Plug(up, whole)) && Merged(end) {
        ChainMerged(up, whole, node, end);
      }
    } else {
      GoodPlug(up, start);
      r := Plug(up, start);
      KeepsNothing(r);
      KeepsTrims(r, r, 0);
      if ChainCount(start) <= 1 && Merged(Plug(up, whole)) && Merged(ChainEnd(start)) {
        ShortChain(start);
        ChainMerged(up, whole, start, ChainEnd(start));
      }
    }
  }

  /** What the two scans see of a chain, side by side. */
  lemma ChainHead(start: Node)
    requires Good(start) && IsLink(start)
    ensures var n, size := start.children[0], |start.edges|;
            && 0 < CapBytes(n, size) <= |ChainBytes(start)| && CapBytes(n, size) <= 536870911 && 1 + CapCount(n, size) <= ChainCount(start)
            && (|ChainBytes(start)| <= 536870911 ==> 1 + CapCount(n, size) == ChainCount(start))
  {
    LinkIsChain(start);
    CapOrAll(start.children[0], |start.edges|);
  }

  // ---------------------------------------------------------------- raxRemove

  /** The tree a is root without the entry for s, node for node. */
  ghost predicate Unmarked(root: Node, a: Node, s: Key) {
    && (forall k: Key :: Get(a, k) == if k == s then None else Get(root, k))
    && Tally(a, false) == Tally(root, false) - 1 && Tally(a, true) == Tally(root, true)
  }

  /** The removal of s with the keys behind the cut shortened. */
  ghost predicate RemovedCut(root: Node, r: Node, s: Key, freed: int, cut: Cut) {
    && Rooted(r) && cut.Ok()
    && (forall k: Key ::
          Get(r, k) == if cut.Restored(k).None? || cut.Restored(k) == Some(s) then None else Get(root, cut.Restored(k).value))
    && (forall k: Key | k != s && Get(root, k).Some? && cut.at <= k :: cut.at + cut.bytes <= k)
    && Tally(r, false) == Tally(root, false) - 1
    && Tally(r, true) == Tally(root, true) - freed
  }

  lemma TrimsRemoved(root: Node, a: Node, b: Node, s: Key, n: int, cut: Cut)
    requires Unmarked(root, a, s) && Trims(a, b, 0 - n, cut) && Rooted(b)
    ensures RemovedCut(root, b, s, n, cut)
    ensures cut.kept <= |cut.bytes| && (Removed(root, b, s, n) <==> cut.kept == |cut.bytes|)
  {
    hide Get, Tally, Rooted;
    TrimsSomething(a, b, 0 - n, cut);
    if cut.kept == |cut.bytes| {
      TrimsNothing(a, b, 0 - n, cut);
    }
  }

  lemma KeysFitAfter(root: Node, a: Node, s: Key)
    requires KeysFit(root) && Unmarked(root, a, s)
    ensures KeysFit(a)
  {
  }

  lemma KeysFitKept(a: Node, b: Node, n: int)
    requires KeysFit(a) && Keeps(a, b, n)
    ensures KeysFit(b)
  {
  }

  /** The tree with the node of s no longer marked, before any node is freed. */
  lemma Unmark(root: Node, s: Key, stop: Stop)
    requires StopsAt(root, s, stop) && OnKey(s, stop) && stop.node.key.Some?
    ensures Unmarked(root, Plug(stop.path, Unkeyed(stop.node)), s)
  {
    hide Good, Plug, PathKey, Tally, Get;
    var path, h := stop.path, stop.node;
    UnkeyedGet(h);
    assert PathKey(path) == s by {
      assert h.compr ==> PathKey(path) + h.edges[..0] == PathKey(path);
      assert s[..|s|] == s;
    }
    NoEntryAtEnd(path, h, Unkeyed(h), s);
    TallyPlug(path, h, Unkeyed(h), true);
    TallyPlug(path, h, Unkeyed(h), false);
  }

  /** Where the upward loop from an emptied leaf ends, and what is left there. */
  ghost function PrunedTo(path: Path): (Path, Node)
    requires PathOk(path) && path != []
    decreases |path|
  {
    var f, up := path[|path| - 1], path[..|path| - 1];
    if up == [] || !IsLink(f.node) then (up, RemoveChild(f)) else PrunedTo(up)
  }

  lemma {:induction false} PrunedOk(path: Path)
    requires PathOk(path) && path != []
    ensures PathOk(PrunedTo(path).0)
    decreases |path|
  {
    var f, up := path[|path| - 1], path[..|path| - 1];
    if up != [] && IsLink(f.node) {
      PrunedOk(up);
    }
  }

  datatype Place = Place(path: Path, node: Node)

  /** The link, and the path to it, around which the removal of the key of h recompresses. */
  ghost function Recompressed(path: Path, h: Node): Option<Place>
    requires PathOk(path)
  {
    if h.children != [] then
      if |h.edges| == 1 && IsLink(Unkeyed(h)) then Some(Place(path, Unkeyed(h))) else None
    else if path == [] then None
    else
      PrunedOk(path);
      var (up, below) := PrunedTo(path);
      if IsLink(below) then Some(Place(up, below)) else None
  }

  lemma RecompressedOk(path: Path, h: Node)
    requires PathOk(path) && Recompressed(path, h).Some?
    ensures var at := Recompressed(path, h).value;
            PathOk(at.path) && IsLink(at.node) && IsLink(Top(at.path, at.node))
  {
    if h.children == [] {
      PrunedOk(path);
    }
    var at := Recompressed(path, h).value;
    TopIsLink(at.path, at.node);
  }

  /** Removing the key of h, at the end of the path, makes a chain whose bytes do not all fit a node. */
  ghost predicate MakesOverrun(path: Path, h: Node)
    requires PathOk(path)
  {
    var at := Recompressed(path, h);
    at.Some? && (RecompressedOk(path, h); Overruns(Top(at.value.path, at.value.node)))
  }

  /** And so many more that they do not fit its memory either. */
  ghost predicate MakesLeavesRoom(path: Path, h: Node)
    requires PathOk(path)
  {
    var at := Recompressed(path, h);
    at.Some? && (RecompressedOk(path, h); LeavesRoom(Top(at.value.path, at.value.node)))
  }

  ghost function RemovalCut(path: Path, h: Node): Cut
    requires PathOk(path)
  {
    var at := Recompressed(path, h);
    if at.None? then NO_CUT else (RecompressedOk(path, h); CutAt(at.value.path, at.value.node))
  }

  /**
    raxRemove on the tree. The second scan of the recompression copies without a size cap; when the
    chain is too long for a node (overrun), the keys behind it lose the bytes that were not counted, and
    if even the memory of the node is too small (outside) the copy writes behind it; r is then the tree
    without regard to what was there. Keys that fit a compressed node never get there.
  */
  method Remove(root: Node, s: Key)
    returns (r: Node, previous: Option<Value>, freed: int, overrun: bool, outside: bool, ghost stop: Stop)
    requires Rooted(root)
    ensures previous == Get(root, s) && StopsAt(root, s, stop)
    ensures overrun <==> previous.Some? && MakesOverrun(stop.path, stop.node)
    ensures outside <==> previous.Some? && MakesLeavesRoom(stop.path, stop.node)
    ensures previous.Some? ==> RemovedCut(root, r, s, freed, RemovalCut(stop.path, stop.node))
    ensures previous.Some? ==> (Removed(root, r, s, freed) <==> !overrun)
    ensures previous.None? ==> r == root && freed == 0
    ensures (outside ==> overrun) && (KeysFit(root) ==> !overrun)
    ensures previous.Some? && KeysFit(root) && Merged(root) ==> (Merged(r) <==> !LeavesChain(root, s, false))
  {
    RootedIsOpen(root);
    hide Merged, LeavesChain, MakesOverrun, MakesLeavesRoom, RemovalCut, RemovedCut;
    hide Good, Plug, PathKey, Tally, Get, Removed, Keeps, StopsAt, KeysFit;
    var found := LowWalk(root, s);
    stop := found;
    StopDecides(root, s, found);
    if !OnKey(s, found) || found.node.key.None? {
      return root, None, 0, false, false, stop;
    }
    previous := found.node.key;
    r, freed, overrun, outside := RemoveAt(root, s, found);
  }

  lemma LeavesIsOverrun(path: Path, h: Node)
    requires PathOk(path) && MakesLeavesRoom(path, h)
    ensures MakesOverrun(path, h)
  {
    hide Overruns, Top, Recompressed;
  }

  method RemoveAt(root: Node, s: Key, stop: Stop) returns (r: Node, freed: int, overrun: bool, outside: bool)
    requires StopsAt(root, s, stop) && OnKey(s, stop) && stop.node.key.Some?
    ensures overrun <==> MakesOverrun(stop.path, stop.node)
    ensures outside <==> MakesLeavesRoom(stop.path, stop.node)
    ensures RemovedCut(root, r, s, freed, RemovalCut(stop.path, stop.node))
    ensures Removed(root, r, s, freed) <==> !overrun
    ensures (outside ==> overrun) && (KeysFit(root) ==> !overrun)
    ensures KeysFit(root) && Merged(root) ==> (Merged(r) <==> !LeavesChain(root, s, false))
  {
    hide *;
    RemovalFacts(root, s, stop);
    var path, h := stop.path, stop.node.(key := None);
    if h.children != [] {
      r, freed, overrun, outside := KeepNode(path, stop.node, h);
    } else if path == [] {
      r, freed, overrun, outside := h, 0, false, false;
      EmptiedHead(stop.node);
    } else {
      r, freed, overrun, outside := PruneAndFinish(path, stop.node);
    }
    TrimsRemoved(root, Plug(path, h), r, s, freed, RemovalCut(stop.path, stop.node));
    if outside {
      LeavesIsOverrun(path, stop.node);
    }
  }

  /** Unmarking the node, and what is known of it before anything is freed or merged. */
  lemma RemovalFacts(root: Node, s: Key, stop: Stop)
    requires StopsAt(root, s, stop) && OnKey(s, stop) && stop.node.key.Some?
    ensures PathOk(stop.path) && Open(stop.node) && Plug(stop.path, stop.node) == root
    ensures var h := stop.node.(key := None);
            && h == Unkeyed(stop.node) && Unmarked(root, Plug(stop.path, h), s) && (h.children == [] ==> h == EMPTY)
            && (KeysFit(root) ==> KeysFit(Plug(stop.path, h)))
            && (Merged(root) ==>
                 && MergedBelow(h) && (|h.edges| == 1 || h.children == [] ==> !LeavesChain(root, s, false))
                 && (h.children != [] && |h.edges| != 1 ==> (Merged(Plug(stop.path, h)) <==> !LeavesChain(root, s, false)))
                 && (stop.path == [] && h.children == [] ==> Merged(h)))
  {
    Unmark(root, s, stop);
    UnkeyedGet(stop.node);
    StopLeaves(root, s, stop);
    if Merged(root) {
      UnkeyedMerged(root, stop);
    }
    hide Merged, MergedBelow, LeavesChain, Good, Plug, PathKey, Tally, Get, KeysFit, Unmarked;
    if KeysFit(root) {
      KeysFitAfter(root, Plug(stop.path, Unkeyed(stop.node)), s);
    }
  }

  lemma EmptiedHead(n: Node)
    requires Open(n) && n.key.Some? && n.children == []
    ensures var h := Unkeyed(n);
            && Rooted(h) && Merged(h) && Trims(Plug([], h), h, 0, RemovalCut([], n))
            && !MakesOverrun([], n) && !MakesLeavesRoom([], n)
            && RemovalCut([], n).kept == |RemovalCut([], n).bytes|
  {
    UnkeyedGet(n);
    KeepsNothing(EMPTY);
    KeepsTrims(EMPTY, EMPTY, 0);
  }

  /** A node that keeps children: left with one child after losing its key it is merged only if it has one byte. */
  method KeepNode(path: Path, ghost n: Node, h: Node) returns (r: Node, freed: nat, overrun: bool, outside: bool)
    requires PathOk(path) && Open(n) && n.key.Some? && h == Unkeyed(n) && h.children != []
    ensures overrun <==> MakesOverrun(path, n)
    ensures outside <==> MakesLeavesRoom(path, n)
    ensures Rooted(r) && Trims(Plug(path, h), r, 0 - freed, RemovalCut(path, n))
    ensures overrun <==> RemovalCut(path, n).kept < |RemovalCut(path, n).bytes|
    ensures KeysFit(Plug(path, h)) ==> !overrun
    ensures |h.edges| == 1 && KeysFit(Plug(path, h)) && Merged(Plug(path, n)) && MergedBelow(h) ==> Merged(r)
    ensures |h.edges| != 1 ==> r == Plug(path, h)
  {
    UnkeyedGet(n);
    hide Good, Plug, Keeps, Trims, KeysFit, Merged, MergedBelow, Overruns, LeavesRoom, Top, CutAt, Rooted, PathOk, Get, Tally;
    r, freed, overrun, outside := FinishRemove(path, h, |h.edges| == 1, n);
  }

  /** What the removal leaves at the node itself, said of the tree and the key. */
  lemma StopLeaves(root: Node, s: Key, stop: Stop)
    requires StopsAt(root, s, stop) && OnKey(s, stop) && stop.node.key.Some?
    ensures (LeavesChain(root, s, false)
             <==> stop.node.compr && (LinkAbove(stop.path) || IsLink(stop.node.children[0])))
  {
    hide Good, Plug, Get;
    var path, h := stop.path, stop.node;
    assert PathKey(path) == s by {
      assert h.compr ==> PathKey(path) + h.edges[..0] == PathKey(path);
      assert s[..|s|] == s;
    }
    assert PathKey(path) + [] == s;
    LeavesPlug(path, h, [], false);
  }

  /** Without its key the node is a link exactly if it has one child, and all below it is as before. */
  lemma UnkeyedMerged(root: Node, stop: Stop)
    requires PathOk(stop.path) && Open(stop.node) && Plug(stop.path, stop.node) == root && Merged(root)
    ensures var h := Unkeyed(stop.node);
            && MergedBelow(h)
            && (h.children == [] ==> !stop.node.compr)
            && (h.children != [] && |h.edges| != 1 ==>
                 (Merged(Plug(stop.path, h))
                  <==> !(stop.node.compr && (LinkAbove(stop.path) || IsLink(stop.node.children[0])))))
            && (stop.path == [] && h.children == [] ==> Merged(h))
            && (|h.edges| == 1 ==> !stop.node.compr)
  {
    hide Plug, Good;
    var h := Unkeyed(stop.node);
    MergedPlug(stop.path, stop.node, h);
    MergedChildren(stop.node);
    if h.children != [] && |h.edges| != 1 {
      if stop.node.compr {
        if !IsLink(h.children[0]) {
          MergedLink(h);
        }
      } else {
        MergedOther(h);
      }
    }
  }

  /** A node that is left with nothing below the head goes, and so do the links above it. */
  method PruneAndFinish(path: Path, ghost n: Node) returns (r: Node, freed: nat, overrun: bool, outside: bool)
    requires PathOk(path) && path != [] && n.children == []
    ensures overrun <==> MakesOverrun(path, n)
    ensures outside <==> MakesLeavesRoom(path, n)
    ensures Rooted(r) && Trims(Plug(path, EMPTY), r, 0 - freed, RemovalCut(path, n))
    ensures overrun <==> RemovalCut(path, n).kept < |RemovalCut(path, n).bytes|
    ensures KeysFit(Plug(path, EMPTY)) ==> !overrun
    ensures KeysFit(Plug(path, EMPTY)) && Merged(Plug(path, n)) ==> Merged(r)
  {
    hide *;
    PrunedOk(path);
    var gone: int, more: int;
    var up: Path, below: Node;
    ghost var whole: Node;
    up, below, gone, whole := Prune(path, n);
    PrunedCase(path, n);
    if KeysFit(Plug(path, EMPTY)) {
      KeysFitKept(Plug(path, EMPTY), Plug(up, below), 0 - gone);
    }
    r, more, overrun, outside := FinishRemove(up, below, IsLink(below), whole);
    KeepsThenTrims(Plug(path, EMPTY), Plug(up, below), r, 0 - gone, 0 - more, RemovalCut(path, n));
    if Merged(Plug(path, n)) {
      MergedPlug(up, whole, below);
      MergedChildren(whole);
      if !IsLink(below) {
        MergedOther(below);
      }
    }
    freed := gone + more;
  }

  lemma PrunedCase(path: Path, n: Node)
    requires PathOk(path) && path != [] && n.children == []
    ensures PathOk(PrunedTo(path).0)
    ensures var (up, below) := PrunedTo(path);
            && (IsLink(below) ==> IsLink(Top(up, below)))
            && (MakesOverrun(path, n) <==> IsLink(below) && Overruns(Top(up, below)))
            && (MakesLeavesRoom(path, n) <==> IsLink(below) && LeavesRoom(Top(up, below)))
            && RemovalCut(path, n) == (if IsLink(below) then CutAt(up, below) else NO_CUT)
            && NO_CUT.kept == |NO_CUT.bytes|
  {
    hide Good, PrunedTo, Top, Overruns, LeavesRoom, CutAt;
    PrunedOk(path);
    var (up, below) := PrunedTo(path);
    if IsLink(below) {
      TopIsLink(up, below);
    }
  }

  /** Rebuild the tree around the changed node, recompressing if asked to. */
  method FinishRemove(path: Path, h: Node, compress: bool, ghost was: Node)
    returns (r: Node, freed: nat, overrun: bool, outside: bool)
    requires PathOk(path) && Open(h)
    requires h.children == [] && h.key.None? ==> path == [] && h == EMPTY
    requires compress ==> IsLink(h)
    ensures compress ==> IsLink(Top(path, h))
    ensures (overrun <==> compress && Overruns(Top(path, h))) && (outside <==> compress && LeavesRoom(Top(path, h)))
    ensures Rooted(r) && Trims(Plug(path, h), r, 0 - freed, if compress then CutAt(path, h) else NO_CUT)
    ensures overrun <==> compress && CutAt(path, h).kept < |CutAt(path, h).bytes|
    ensures KeysFit(Plug(path, h)) ==> !overrun
    ensures compress && KeysFit(Plug(path, h)) && Merged(Plug(path, was)) && MergedBelow(h) ==> Merged(r)
    ensures !compress ==> r == Plug(path, h)
  {
    OpenIsGood(h);
    hide Good, PathKey, Keeps, Trims, KeysFit, Open, Merged, MergedBelow, Overruns, LeavesRoom, Top, CutAt;
    if compress {
      r, freed, overrun, outside := Recompress(path, h, was);
    } else {
      r, freed, overrun, outside := Plug(path, h), 0, false, false;
      KeepsNothing(r);
      KeepsTrims(r, r, 0);
      if !(h.children == [] && h.key.None?) {
        GoodPlug(path, h);
      }
    }
  }

  lemma OpenIsGood(h: Node)
    requires Open(h)
    ensures (h.children == [] && h.key.None?) || Good(h)
  {
  }

  // ---------------------------------------------------------------- the example of the comments

  lemma FooBarKeys(k: Key)
    requires Get(FOOBAR_TREE, k).Some?
    ensures |k| <= 6
  {
    var bar := FOOBAR_TREE.children[0];
    assert FOO <= k;
    var rest := k[3..];
    assert Get(bar, rest).Some?;
    if rest != [] {
      var leaf := bar.children[0];
      assert Get(leaf, rest[3..]).Some?;
    }
  }

  /** "FOO" removed from the tree of "FOO" and "FOOBAR": two links stay where the comments show one. */
  method RemoveFoo() returns (r: Node)
    ensures Merged(FOOBAR_TREE) && Get(FOOBAR_TREE, FOO) == Some(1)
    ensures Get(r, FOO) == None && !Merged(r)
  {
    FooBar();
    CompactIsMerged(FOOBAR_TREE);
    forall k: Key | Get(FOOBAR_TREE, k).Some?
      ensures |k| <= 536870911
    {
      FooBarKeys(k);
    }
    assert Get(FOOBAR_TREE.children[0], []) == Some(1) && FOO[3..] == [];
    var previous, freed, overrun, outside; ghost var stop;
    r, previous, freed, overrun, outside, stop := Remove(FOOBAR_TREE, FOO);
  }

  // ---------------------------------------------------------------- a chain that is too long

  /** The first step of a path, where the last one is the usual end to take off. */
  lemma {:induction false} FrontFrame(p: Path, n: Node)
    requires PathOk(p) && p != []
    ensures PathOk(p[1..]) && Plug(p, n) == Refit(p[0], Plug(p[1..], n))
    ensures PathKey(p) == Label(p[0].node, p[0].child) + PathKey(p[1..])
    decreases |p|
  {
    hide Good, Shape, Refit, Label;
    var f, q := p[|p| - 1], p[..|p| - 1];
    if |p| > 1 {
      FrontFrame(q, Refit(f, n));
      assert p[1..][..|p| - 2] == q[1..] && p[1..][|p| - 2] == f;
    } else {
      assert q == [] && p[1..] == [];
    }
  }

  function Zeros(n: nat): seq<Byte> {
    seq(n, _ => 0)
  }

  const LEAF: Node := Node(Some(2), false, [], [])

  /** Behind three bytes: all but three bytes of a full node, then n bytes, then a key. */
  function Rest(n: nat): Node {
    Chain(None, Zeros(536870911 - 3), Chain(None, Zeros(n), LEAF))
  }

  /** The keys of two bytes and of n bytes more than a node can hold. */
  function Overlong(n: nat): Node {
    Chain(None, Zeros(2), Chain(Some(1), Zeros(1), Rest(n)))
  }

  /**
    Removing the shorter key overruns the merged node: the longer key loses its last n bytes, and with
    more than 13 of them the copy leaves the memory of the node.
  */
  method RemoveOverlong(n: nat) returns (r: Node, overrun: bool, outside: bool)
    requires 0 < n <= 536870911
    ensures Good(Overlong(n)) && Get(Overlong(n), Zeros(2)) == Some(1)
    ensures Get(Overlong(n), Zeros(536870911 + n)) == Some(2)
    ensures overrun && (outside <==> n > 13)
    ensures Get(r, Zeros(536870911 + n)) == None && Get(r, Zeros(536870911)) == Some(2)
  {
    hide Good, Get, MakesOverrun, MakesLeavesRoom, RemovalCut, RemovedCut, Removed, Merged, LeavesChain, Overlong, KeysFit;
    OverlongIsGood(n);
    OverlongGet(n, 2);
    OverlongGet(n, 536870911 + n);
    var previous, freed; ghost var stop;
    r, previous, freed, overrun, outside, stop := Remove(Overlong(n), Zeros(2));
    OverlongStop(n, stop);
    OverlongAfter(n, r, freed);
  }

  lemma OverlongIsGood(n: nat)
    requires 0 < n <= 536870911
    ensures Good(Overlong(n)) && Rooted(Overlong(n))
  {
    assert Good(LEAF) && Good(Chain(None, Zeros(n), LEAF)) && Good(Rest(n)) && Good(Chain(Some(1), Zeros(1), Rest(n)));
  }

  lemma ZerosBehind(a: nat, b: nat)
    ensures (Zeros(a) <= Zeros(b) <==> a <= b) && (a <= b ==> Zeros(b)[a..] == Zeros(b - a))
  {
  }

  /** What the tree holds under zeros of any number. */
  lemma OverlongGet(n: nat, i: nat)
    requires 0 < n <= 536870911
    ensures Get(Overlong(n), Zeros(i)) == if i == 2 then Some(1) else if i == 536870911 + n then Some(2) else None
  {
    hide Get;
    var last := Chain(None, Zeros(n), LEAF);
    ChainOfZeros(None, 2, Chain(Some(1), Zeros(1), Rest(n)), i);
    if i >= 2 {
      ChainOfZeros(Some(1), 1, Rest(n), i - 2);
    }
    if i >= 3 {
      ChainOfZeros(None, 536870911 - 3, last, i - 3);
      if i >= 536870911 {
        ChainOfZeros(None, n, LEAF, i - 536870911);
        if i >= 536870911 + n {
          LeafGet(Zeros(i - 536870911 - n));
        }
      }
    }
  }

  lemma LeafGet(k: Key)
    ensures Get(LEAF, k) == if k == [] then Some(2) else None
  {
  }

  lemma ChainOfZeros(key: Option<Value>, n: nat, child: Node, i: nat)
    requires 0 < n <= 536870911
    ensures Get(Chain(key, Zeros(n), child), Zeros(i))
         == if i == 0 then key else if n <= i then Get(child, Zeros(i - n)) else None
  {
    hide Get;
    ZerosBehind(n, i);
    GetChain(key, Zeros(n), child, Zeros(i));
  }

  /** The walk ends at the node behind the two bytes. */
  lemma OverlongStop(n: nat, stop: Stop)
    requires 0 < n <= 536870911 && StopsAt(Overlong(n), Zeros(2), stop)
    ensures MakesOverrun(stop.path, stop.node)
    ensures MakesLeavesRoom(stop.path, stop.node) <==> n > 13
    ensures RemovalCut(stop.path, stop.node) == Cut([], Zeros(536870911 + n), 536870911)
  {
    hide MakesOverrun, MakesLeavesRoom, RemovalCut;
    var path, h := stop.path, stop.node;
    OverlongPlace(n, stop);
    var f := path[0];
    FrontFrame(path, h);
    assert path[1..] == [] && path[..0] == [] && path == [f];
    assert Refit(f, h) == Overlong(n) && f.node.children == [f.node.children[0]];
    assert Overlong(n).children[0] == Chain(Some(1), Zeros(1), Rest(n)) && Refit(f, h).children[f.child] == h && f.child == 0;
    OverlongOverruns(n, path, h);
  }

  lemma OverlongPlace(n: nat, stop: Stop)
    requires 0 < n <= 536870911 && StopsAt(Overlong(n), Zeros(2), stop)
    ensures |stop.path| == 1 && PathOk(stop.path)
  {
    hide Good, Get;
    var path, h := stop.path, stop.node;
    if path != [] {
      FrontFrame(path, h);
      if |path| > 1 {
        FrontFrame(path[1..], h);
        LabelNotEmpty(path[1]);
      }
    }
  }

  lemma LabelNotEmpty(f: Frame)
    requires FrameOk(f)
    ensures Label(f.node, f.child) != []
  {
  }

  lemma OverlongOverruns(n: nat, path: Path, h: Node)
    requires 0 < n <= 536870911 && PathOk(path) && |path| == 1
    requires h == Chain(Some(1), Zeros(1), Rest(n)) && Refit(path[0], h) == Overlong(n)
    ensures MakesOverrun(path, h)
    ensures MakesLeavesRoom(path, h) <==> n > 13
    ensures RemovalCut(path, h) == Cut([], Zeros(536870911 + n), 536870911)
  {
    hide CapCount, CapBytes, ChainBytes;
    var bare := Unkeyed(h);
    var top := Refit(path[0], bare);
    assert path[..0] == [] && LinkAbove(path) && Top(path, bare) == top && TopPath(path) == [];
    assert top == Chain(None, Zeros(2), bare) && bare == Chain(None, Zeros(1), Rest(n));
    OverlongScans(n);
  }

  /** What the two scans count. */
  lemma OverlongScans(n: nat)
    requires 0 < n <= 536870911
    ensures var bare := Chain(None, Zeros(1), Rest(n));
            && CapCount(bare, 2) > 0 && CapBytes(bare, 2) == 536870911
            && ChainBytes(Chain(None, Zeros(2), bare)) == Zeros(536870911 + n)
  {
    var last := Chain(None, Zeros(n), LEAF);
    var bare := Chain(None, Zeros(1), Rest(n));
    assert CapBytes(last, 536870911) == 536870911;
    assert CapBytes(Rest(n), 3) == 536870911;
    assert CapBytes(bare, 2) == CapBytes(Rest(n), 3);
    assert ChainBytes(LEAF) == [] && ChainBytes(last) == Zeros(n);
    assert ChainBytes(Rest(n)) == Zeros(536870911 - 3 + n);
    assert ChainBytes(bare) == Zeros(536870911 - 2 + n);
  }

  lemma OverlongAfter(n: nat, r: Node, freed: int)
    requires 0 < n <= 536870911
    requires RemovedCut(Overlong(n), r, Zeros(2), freed, Cut([], Zeros(536870911 + n), 536870911))
    ensures Get(r, Zeros(536870911 + n)) == None && Get(r, Zeros(536870911)) == Some(2)
  {
    hide Get, Overlong, Rooted, Tally;
    var cut := Cut([], Zeros(536870911 + n), 536870911);
    assert cut.at + cut.bytes[..cut.kept] == Zeros(536870911);
    RestoredZeros(cut, n);
    RestoredZeros(cut, 0);
    OverlongGet(n, 536870911 + n);
    OverlongGet(n, 536870911 + n + n);
  }

  lemma RestoredZeros(cut: Cut, i: nat)
    requires cut.kept == 536870911 <= |cut.bytes| && cut == Cut([], Zeros(|cut.bytes|), 536870911)
    ensures cut.Restored(Zeros(536870911 + i)) == Some(Zeros(|cut.bytes| + i))
  {
    ZerosBehind(536870911, 536870911 + i);
    assert cut.at + cut.bytes[..cut.kept] == Zeros(536870911);
    assert cut.at + cut.bytes + Zeros(i) == Zeros(|cut.bytes| + i);
  }
}
