/**
  The radix tree of src/rax as a value: nodes with their edge bytes and children, the map a tree
  stands for, and paths from the head down to a node, along which one subtree can be replaced.
*/
module RaxTree {
  import opened Wrappers
  import opened Bytes

  type Key = seq<Byte>
  type Value = int

  /**
    A compressed node has one child behind all of its edge bytes; any other node has one child
    per edge byte. A node that represents a stored key carries its value.
  */
  datatype Node = Node(key: Option<Value>, compr: bool, edges: seq<Byte>, children: seq<Node>)

  const EMPTY: Node := Node(None, false, [], [])

  ghost predicate Sorted(edges: seq<Byte>) {
    forall i, j | 0 <= i < j < |edges| :: edges[i] < edges[j]
  }

  /** A compressed node has two bytes or more, and no more than its size field of 29 bits can say. */
  ghost predicate Shape(n: Node) {
    if n.compr then 2 <= |n.edges| <= 536870911 && |n.children| == 1
    else |n.edges| == |n.children| && Sorted(n.edges)
  }

  /** A well-formed subtree: sorted edges everywhere and a key at every leaf. */
  ghost predicate Good(n: Node) {
    && Shape(n)
    && (n.children == [] ==> n.key.Some?)
    && forall i | 0 <= i < |n.children| :: Good(n.children[i])
  }

  /** A node with well-formed subtrees that may itself be a leaf without a key. */
  ghost predicate Open(n: Node) {
    Shape(n) && forall i | 0 <= i < |n.children| :: Good(n.children[i])
  }

  /** The position of byte c among the edges, or their number. */
  function EdgeIndex(edges: seq<Byte>, c: Byte): (i: nat)
    ensures i <= |edges|
    ensures i < |edges| ==> edges[i] == c
    ensures c !in edges[..i]
  {
    if edges == [] then 0
    else if edges[0] == c then 0
    else
      var i := EdgeIndex(edges[1..], c);
      assert edges[..i + 1] == [edges[0]] + edges[1..][..i];
      i + 1
  }

  lemma EdgeIndexOf(edges: seq<Byte>, i: nat)
    requires Sorted(edges) && i < |edges|
    ensures EdgeIndex(edges, edges[i]) == i
  {
    var k := EdgeIndex(edges, edges[i]);
    assert k < |edges| ==> edges[k] == edges[i];
  }

  lemma EdgeIndexMissing(edges: seq<Byte>, c: Byte)
    ensures c !in edges <==> EdgeIndex(edges, c) == |edges|
  {
    var k := EdgeIndex(edges, c);
    assert k == |edges| ==> edges[..k] == edges;
  }

  /** The value stored under k, if any: the map a subtree stands for. */
  function Get(n: Node, k: Key): Option<Value>
    decreases n
  {
    if k == [] then n.key
    else if n.compr then
      if |n.children| == 1 && n.edges <= k then Get(n.children[0], k[|n.edges|..]) else None
    else
      var i := EdgeIndex(n.edges, k[0]);
      if i < |n.edges| && i < |n.children| then Get(n.children[i], k[1..]) else None
  }

  // ---------------------------------------------------------------- paths

  /** One step down: the parent and which of its children was taken. */
  datatype Frame = Frame(node: Node, child: nat)

  type Path = seq<Frame>

  ghost predicate FrameOk(f: Frame) {
    && Shape(f.node)
    && f.child < |f.node.children|
    && forall i | 0 <= i < |f.node.children| && i != f.child :: Good(f.node.children[i])
  }

  ghost predicate PathOk(p: Path) {
    forall i | 0 <= i < |p| :: FrameOk(p[i])
  }

  /** The bytes a step down consumes. */
  function Label(n: Node, child: nat): Key
    requires n.compr || child < |n.edges|
  {
    if n.compr then n.edges else [n.edges[child]]
  }

  function PathKey(p: Path): Key
    requires PathOk(p)
  {
    if p == [] then []
    else
      var last := p[|p| - 1];
      PathKey(p[..|p| - 1]) + Label(last.node, last.child)
  }

  function Refit(f: Frame, n: Node): Node
    requires f.child < |f.node.children|
  {
    f.node.(children := f.node.children[f.child := n])
  }

  /** The whole tree when the subtree at the end of the path is n. */
  function Plug(p: Path, n: Node): Node
    requires PathOk(p)
    decreases |p|
  {
    if p == [] then n
    else Plug(p[..|p| - 1], Refit(p[|p| - 1], n))
  }

  lemma PathOkPrefix(p: Path, f: Frame, n: Node)
    requires PathOk(p) && FrameOk(f)
    ensures PathOk(p + [f])
    ensures PathKey(p + [f]) == PathKey(p) + Label(f.node, f.child)
    ensures Plug(p + [f], n) == Plug(p, Refit(f, n))
  {
    var q := p + [f];
    assert q[..|q| - 1] == p;
  }

  lemma PathOkParent(p: Path)
    requires PathOk(p) && p != []
    ensures PathOk(p[..|p| - 1]) && FrameOk(p[|p| - 1])
    ensures var f := p[|p| - 1]; f.child < |f.node.children| && (f.node.compr || f.child < |f.node.edges|)
  {
  }

  /** Below a frame: keys behind the label go to the child, the others do not see it. */
  lemma GetRefit(f: Frame, n: Node, m: Node, k: Key)
    requires FrameOk(f)
    ensures Label(f.node, f.child) <= k ==>
              Get(Refit(f, n), k) == Get(n, k[|Label(f.node, f.child)|..])
    ensures !(Label(f.node, f.child) <= k) ==> Get(Refit(f, n), k) == Get(Refit(f, m), k)
  {
    var step := Label(f.node, f.child);
    if k != [] && !f.node.compr {
      EdgeIndexOf(f.node.edges, f.child);
      var i := EdgeIndex(f.node.edges, k[0]);
      assert step <= k <==> f.node.edges[f.child] == k[0];
    }
  }

  /** Reading a + b off the front of k is reading a and then b. */
  lemma TwoSteps(a: Key, b: Key, k: Key)
    ensures a + b <= k <==> a <= k && b <= k[|a|..]
    ensures a + b <= k ==> k[|a + b|..] == k[|a|..][|b|..]
  {
    if a <= k {
      assert k == a + k[|a|..];
      if b <= k[|a|..] {
        assert k[|a|..] == b + k[|a|..][|b|..];
      }
    }
    if a + b <= k {
      assert k[..|a|] == (a + b)[..|a|] == a;
      assert k[|a|..][..|b|] == (a + b)[|a|..] == b;
    }
  }

  /** Replacing the subtree at the end of a path changes the map only behind the path's key. */
  lemma {:induction false} GetPlug(p: Path, n: Node, m: Node, k: Key)
    requires PathOk(p)
    ensures PathKey(p) <= k ==> Get(Plug(p, n), k) == Get(n, k[|PathKey(p)|..])
    ensures !(PathKey(p) <= k) ==> Get(Plug(p, n), k) == Get(Plug(p, m), k)
    decreases |p|
  {
    hide Get, Label, Refit, FrameOk;
    if p == [] {
      assert k[0..] == k;
    } else {
      var f, q := p[|p| - 1], p[..|p| - 1];
      PathOkParent(p);
      var head, step := PathKey(q), Label(f.node, f.child);
      TwoSteps(head, step, k);
      GetPlug(q, Refit(f, n), Refit(f, m), k);
      if head <= k {
        GetRefit(f, n, m, k[|head|..]);
        GetPlug(q, Refit(f, m), Refit(f, m), k);
      }
    }
  }

  lemma GoodRefit(f: Frame, n: Node)
    requires FrameOk(f) && Good(n)
    ensures Good(Refit(f, n))
  {
    var r := Refit(f, n);
    forall i | 0 <= i < |r.children|
      ensures Good(r.children[i])
    {
    }
  }

  /** A tree rebuilt around a well-formed subtree is well formed. */
  lemma {:induction false} GoodPlug(p: Path, n: Node)
    requires PathOk(p) && Good(n)
    ensures Good(Plug(p, n))
    decreases |p|
  {
    if p != [] {
      GoodRefit(p[|p| - 1], n);
      GoodPlug(p[..|p| - 1], Refit(p[|p| - 1], n));
    }
  }

  // ---------------------------------------------------------------- counting

  /** The number of nodes of a subtree, or of its key-bearing nodes. */
  function Tally(n: Node, nodes: bool): nat
    decreases n, 1
  {
    (if nodes || n.key.Some? then 1 else 0) + TallyAll(n.children, nodes)
  }

  function TallyAll(ns: seq<Node>, nodes: bool): nat
    decreases ns, 0
  {
    if ns == [] then 0 else Tally(ns[0], nodes) + TallyAll(ns[1..], nodes)
  }

  lemma {:induction false} TallyConcat(a: seq<Node>, b: seq<Node>, nodes: bool)
    ensures TallyAll(a + b, nodes) == TallyAll(a, nodes) + TallyAll(b, nodes)
    decreases |a|
  {
    if a == [] {
      assert a + b == b;
    } else {
      assert (a + b)[1..] == a[1..] + b;
      TallyConcat(a[1..], b, nodes);
    }
  }

  lemma TallyOne(n: Node, nodes: bool)
    ensures TallyAll([n], nodes) == Tally(n, nodes)
  {
    assert [n][1..] == [];
  }

  lemma TallyUpdate(ns: seq<Node>, i: nat, n: Node, nodes: bool)
    requires i < |ns|
    ensures TallyAll(ns[i := n], nodes) == TallyAll(ns, nodes) - Tally(ns[i], nodes) + Tally(n, nodes)
  {
    hide Tally, TallyAll;
    assert ns == ns[..i] + ([ns[i]] + ns[i + 1..]);
    assert ns[i := n] == ns[..i] + ([n] + ns[i + 1..]);
    TallyConcat(ns[..i], [ns[i]] + ns[i + 1..], nodes);
    TallyConcat(ns[..i], [n] + ns[i + 1..], nodes);
    TallyConcat([ns[i]], ns[i + 1..], nodes);
    TallyConcat([n], ns[i + 1..], nodes);
    TallyOne(ns[i], nodes);
    TallyOne(n, nodes);
  }

  lemma TallyInsert(ns: seq<Node>, i: nat, n: Node, nodes: bool)
    requires i <= |ns|
    ensures TallyAll(ns[..i] + [n] + ns[i..], nodes) == TallyAll(ns, nodes) + Tally(n, nodes)
  {
    hide Tally, TallyAll;
    var a, b := ns[..i], ns[i..];
    assert ns == a + b;
    TallyConcat(a, b, nodes);
    TallyConcat(a, [n], nodes);
    TallyConcat(a + [n], b, nodes);
    TallyOne(n, nodes);
  }

  /** Replacing the subtree at the end of a path changes the counts by the difference. */
  lemma {:induction false} TallyPlug(p: Path, n: Node, m: Node, nodes: bool)
    requires PathOk(p)
    ensures Tally(Plug(p, n), nodes) - Tally(n, nodes) == Tally(Plug(p, m), nodes) - Tally(m, nodes)
    decreases |p|
  {
    if p != [] {
      var f := p[|p| - 1];
      TallyUpdate(f.node.children, f.child, n, nodes);
      TallyUpdate(f.node.children, f.child, m, nodes);
      TallyPlug(p[..|p| - 1], Refit(f, n), Refit(f, m), nodes);
    }
  }

  // ---------------------------------------------------------------- compression

  /** A node that exists only to link its parent to its only child. */
  predicate IsLink(n: Node) {
    n.key.None? && |n.children| == 1
  }

  /** No chain could be shorter: behind a single child there is never a mere link. */
  ghost predicate Compact(n: Node) {
    && (|n.children| == 1 ==> !IsLink(n.children[0]))
    && forall i | 0 <= i < |n.children| :: Compact(n.children[i])
  }

  lemma CompactRefit(f: Frame, m: Node, n: Node)
    requires f.child < |f.node.children|
    requires Compact(Refit(f, m)) && Compact(n)
    requires IsLink(n) ==> IsLink(m) || |f.node.children| >= 2
    ensures Compact(Refit(f, n))
  {
    var a, b := Refit(f, m), Refit(f, n);
    forall i | 0 <= i < |b.children|
      ensures Compact(b.children[i])
    {
      assert i != f.child ==> b.children[i] == a.children[i];
    }
    assert |b.children| == 1 ==> a.children[0] == m;
  }

  lemma {:induction false} CompactInside(p: Path, m: Node)
    requires PathOk(p) && Compact(Plug(p, m))
    ensures Compact(m)
    decreases |p|
  {
    if p != [] {
      var f := p[|p| - 1];
      CompactInside(p[..|p| - 1], Refit(f, m));
      assert Refit(f, m).children[f.child] == m;
    }
  }

  /** Replacing a subtree keeps the tree compact unless it puts a link behind a single child. */
  lemma {:induction false} CompactPlug(p: Path, m: Node, n: Node)
    requires PathOk(p) && Compact(Plug(p, m)) && Compact(n)
    requires IsLink(n) ==> p == [] || IsLink(m) || |p[|p| - 1].node.children| >= 2
    ensures Compact(Plug(p, n))
    decreases |p|
  {
    if p != [] {
      var f := p[|p| - 1];
      CompactInside(p[..|p| - 1], Refit(f, m));
      CompactRefit(f, m, n);
      CompactPlug(p[..|p| - 1], Refit(f, m), Refit(f, n));
    }
  }
}
