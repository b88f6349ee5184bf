/**
  What raxRemove keeps of the compression. Its comments describe chains of nodes that are not keys
  and have a single child, to be merged after every removal; the code merges a node that stops being
  a key only if it has one edge byte.
*/
module RaxMerged {
  import opened Wrappers
  import opened RaxTree

  /** No two links in a row. */
  ghost predicate Merged(n: Node) {
    && (IsLink(n) ==> !IsLink(n.children[0]))
    && forall i | 0 <= i < |n.children| :: Merged(n.children[i])
  }

  ghost predicate MergedBelow(n: Node) {
    forall i | 0 <= i < |n.children| :: Merged(n.children[i])
  }

  /** A maximally compressed tree is merged. */
  lemma {:induction false} CompactIsMerged(n: Node)
    requires Compact(n)
    ensures Merged(n)
  {
    forall i | 0 <= i < |n.children|
      ensures Merged(n.children[i])
    {
      CompactIsMerged(n.children[i]);
    }
  }

  /**
    Below a node, with or without a link above it: the key k ends at a compressed node that, once it
    is no key any more, is a link next to another link.
  */
  ghost predicate LeavesChain(n: Node, k: Key, linkAbove: bool)
    decreases n
  {
    if k == [] then n.compr && n.key.Some? && (linkAbove || (|n.children| == 1 && IsLink(n.children[0])))
    else if n.compr then |n.children| == 1 && n.edges <= k && LeavesChain(n.children[0], k[|n.edges|..], IsLink(n))
    else
      var i := EdgeIndex(n.edges, k[0]);
      i < |n.edges| && i < |n.children| && LeavesChain(n.children[i], k[1..], IsLink(n))
  }

  ghost predicate LinkAbove(p: Path) {
    p != [] && IsLink(p[|p| - 1].node)
  }

  lemma LeavesStep(f: Frame, n: Node, k: Key, above: bool)
    requires FrameOk(f)
    ensures Label(f.node, f.child) != []
    ensures LeavesChain(Refit(f, n), Label(f.node, f.child) + k, above) == LeavesChain(n, k, IsLink(f.node))
  {
    var whole := Label(f.node, f.child) + k;
    if f.node.compr {
      assert whole[|f.node.edges|..] == k;
    } else {
      EdgeIndexOf(f.node.edges, f.child);
      assert whole[1..] == k;
    }
  }

  lemma {:induction false} LeavesPlug(p: Path, n: Node, k: Key, above: bool)
    requires PathOk(p)
    ensures LeavesChain(Plug(p, n), PathKey(p) + k, above) == LeavesChain(n, k, if p == [] then above else LinkAbove(p))
    decreases |p|
  {
    hide LeavesChain, Label, Refit, FrameOk;
    if p == [] {
      assert PathKey(p) + k == k;
    } else {
      var f, q := p[|p| - 1], p[..|p| - 1];
      PathOkParent(p);
      var step := Label(f.node, f.child);
      assert PathKey(p) + k == PathKey(q) + (step + k);
      LeavesPlug(q, Refit(f, n), step + k, above);
      LeavesStep(f, n, k, if q == [] then above else LinkAbove(q));
    }
  }

  // ---------------------------------------------------------------- replacing a subtree

  lemma MergedRefit(f: Frame, m: Node, n: Node)
    requires f.child < |f.node.children| && Merged(Refit(f, m))
    ensures Merged(Refit(f, n)) <==> Merged(n) && !(IsLink(f.node) && IsLink(n))
    ensures Merged(m)
  {
    var a, b := Refit(f, m), Refit(f, n);
    assert a.children[f.child] == m && b.children[f.child] == n;
    forall i | 0 <= i < |b.children| && i != f.child
      ensures Merged(b.children[i])
    {
      assert b.children[i] == a.children[i];
    }
  }

  lemma RefitLink(f: Frame, n: Node)
    requires f.child < |f.node.children|
    ensures IsLink(Refit(f, n)) <==> IsLink(f.node)
  {
  }

  /** Another subtree keeps the tree merged exactly if it is merged and puts no link behind a link. */
  lemma {:induction false} MergedPlug(p: Path, m: Node, n: Node)
    requires PathOk(p) && Merged(Plug(p, m))
    ensures Merged(Plug(p, n)) <==> Merged(n) && !(LinkAbove(p) && IsLink(n))
    ensures Merged(m)
    decreases |p|
  {
    hide Merged, Refit;
    if p != [] {
      var f, q := p[|p| - 1], p[..|p| - 1];
      PathOkParent(p);
      MergedPlug(q, Refit(f, m), Refit(f, m));
      MergedPlug(q, Refit(f, m), Refit(f, n));
      RefitLink(f, m);
      RefitLink(f, n);
      MergedRefit(f, m, n);
    }
  }

  lemma MergedChildren(n: Node)
    requires Merged(n)
    ensures MergedBelow(n)
  {
  }

  /** A link to a subtree that is no link. */
  lemma MergedLink(n: Node)
    requires IsLink(n) && !IsLink(n.children[0]) && MergedBelow(n)
    ensures Merged(n)
  {
  }

  lemma MergedOther(n: Node)
    requires !IsLink(n)
    ensures Merged(n) <==> MergedBelow(n)
  {
  }

  // ---------------------------------------------------------------- the example of the comments

  const FOO: Key := [70, 79, 79]
  const FOOBAR_TREE: Node :=
    Node(None, true, [70, 79, 79], [Node(Some(1), true, [66, 65, 82], [Node(Some(2), false, [], [])])])

  /** The tree of "FOO" and "FOOBAR" is compressed, and removing "FOO" is the case that leaves two links. */
  lemma FooBar()
    ensures Good(FOOBAR_TREE) && Compact(FOOBAR_TREE) && LeavesChain(FOOBAR_TREE, FOO, false)
  {
    var bar := FOOBAR_TREE.children[0];
    assert Get(bar.children[0], []) == Some(2);
    assert FOO[3..] == [];
    assert LeavesChain(bar, [], true);
    assert Compact(bar.children[0]);
    assert Compact(bar);
  }
}
