/**
  raxLowWalk and raxFind of src/rax/rax.c.

  The tree is a value and the parent links are a path from the head: writing through a parent
  link is replacing the subtree at the end of the path.
*/
module Rax {
  import opened Wrappers
  import opened Bytes
  import opened RaxTree

  const RAX_NODE_MAX_SIZE := 0x1fff_ffff

  // ---------------------------------------------------------------- walking down

  /** Where raxLowWalk stops: after i bytes of the key, at node, j bytes into a compressed node. */
  datatype Stop = Stop(i: nat, node: Node, path: Path, j: nat)

  ghost predicate StopsAt(root: Node, s: Key, stop: Stop) {
    && PathOk(stop.path) && Open(stop.node) && (stop.path != [] ==> Good(stop.node))
    && Plug(stop.path, stop.node) == root
    && stop.i <= |s|
    && (if stop.node.compr then
          && stop.j < |stop.node.edges|
          && PathKey(stop.path) + stop.node.edges[..stop.j] == s[..stop.i]
          && (stop.i < |s| ==> stop.node.edges[stop.j] != s[stop.i])
        else
          && stop.j == 0
          && PathKey(stop.path) == s[..stop.i]
          && (stop.i < |s| ==> s[stop.i] !in stop.node.edges))
  }

  /** The path leads from root to node through the nodes themselves. */
  ghost predicate Trail(root: Node, path: Path, node: Node)
    decreases |path|
  {
    if path == [] then node == root
    else
      var f := path[|path| - 1];
      f.child < |f.node.children| && f.node.children[f.child] == node
      && Trail(root, path[..|path| - 1], f.node)
  }

  lemma TrailStep(root: Node, path: Path, h: Node, j: nat)
    requires Trail(root, path, h) && j < |h.children|
    ensures Trail(root, path + [Frame(h, j)], h.children[j])
  {
    var more := path + [Frame(h, j)];
    assert more[..|more| - 1] == path;
  }

  /** The walk ended on a node that stands for exactly s. */
  predicate OnKey(s: Key, stop: Stop) {
    stop.i == |s| && (!stop.node.compr || stop.j == 0)
  }

  /** How many edge bytes of a compressed node the key follows from position i. */
  method CommonBytes(edges: seq<Byte>, s: Key, i: nat) returns (j: nat)
    requires i <= |s|
    ensures j <= |edges| && i + j <= |s| && edges[..j] == s[i..i + j]
    ensures j < |edges| && i + j < |s| ==> edges[j] != s[i + j]
  {
    j := 0;
    while j < |edges| && i + j < |s| && edges[j] == s[i + j]
      invariant 0 <= j <= |edges| && i + j <= |s|
      invariant edges[..j] == s[i..i + j]
    {
      assert edges[..j + 1] == edges[..j] + [edges[j]];
      assert s[i..i + (j + 1)] == s[i..i + j] + [s[i + j]];
      j := j + 1;
    }
  }

  /** raxLowWalk. */
  method LowWalk(root: Node, s: Key) returns (stop: Stop)
    requires Open(root)
    ensures StopsAt(root, s, stop)
    ensures Trail(root, stop.path, stop.node)
  {
    hide Plug, PathKey, Good, Trail;
    var h, path: Path, i := root, [], 0;
    EmptyPath(root);
    assert s[..0] == [];
    while h.edges != [] && i < |s|
      invariant 0 <= i <= |s|
      invariant PathOk(path) && Open(h) && (path != [] ==> Good(h))
      invariant Plug(path, h) == root && PathKey(path) == s[..i]
      invariant Trail(root, path, h)
      decreases |s| - i
    {
      var j := 0;
      if h.compr {
        j := CommonBytes(h.edges, s, i);
        if j != |h.edges| {
          assert s[..i + j] == s[..i] + s[i..i + j];
          return Stop(i + j, h, path, j);
        }
        assert h.edges[..j] == h.edges;
        j := 0;
      } else {
        j := EdgeIndex(h.edges, s[i]);
        EdgeIndexMissing(h.edges, s[i]);
        if j == |h.edges| {
          return Stop(i, h, path, 0);
        }
      }
      var n := |Label(h, j)|;
      assert s[..i + n] == s[..i] + Label(h, j);
      StepDown(path, h, j);
      TrailStep(root, path, h, j);
      path, h, i := path + [Frame(h, j)], h.children[j], i + n;
    }
    assert h.compr ==> h.edges[..0] == [] && s[..i] == s[..i] + [];
    stop := Stop(i, h, path, 0);
  }

  lemma EmptyPath(root: Node)
    ensures PathKey([]) == [] && Plug([], root) == root && Trail(root, [], root)
  {
  }

  lemma StepDown(path: Path, h: Node, j: nat)
    requires PathOk(path) && Open(h) && j < |h.children|
    ensures FrameOk(Frame(h, j)) && PathOk(path + [Frame(h, j)])
    ensures PathKey(path + [Frame(h, j)]) == PathKey(path) + Label(h, j)
    ensures Plug(path + [Frame(h, j)], h.children[j]) == Plug(path, h)
    ensures Good(h.children[j]) && Open(h.children[j])
  {
    var f := Frame(h, j);
    PathOkPrefix(path, f, h.children[j]);
    assert h.children[j := h.children[j]] == h.children;
    assert Refit(f, h.children[j]) == h;
    OpenChild(h, j);
  }

  lemma OpenChild(h: Node, j: nat)
    requires Open(h) && j < |h.children|
    ensures Good(h.children[j]) && Open(h.children[j])
  {
  }

  /** The node where the walk stopped decides the lookup. */
  lemma StopDecides(root: Node, s: Key, stop: Stop)
    requires StopsAt(root, s, stop)
    ensures Get(root, s) == if OnKey(s, stop) then stop.node.key else None
  {
    hide Plug, PathKey, Good;
    var head, h := PathKey(stop.path), stop.node;
    assert s == s[..stop.i] + s[stop.i..];
    assert head <= s;
    GetPlug(stop.path, h, h, s);
    var rest := s[|head|..];
    if !h.compr && rest != [] {
      EdgeIndexMissing(h.edges, rest[0]);
    }
  }

  /** raxFind. */
  method Find(root: Node, s: Key) returns (value: Option<Value>)
    requires Open(root)
    ensures value == Get(root, s)
  {
    var stop := LowWalk(root, s);
    StopDecides(root, s, stop);
    if OnKey(s, stop) {
      value := stop.node.key;
    } else {
      value := None;
    }
  }
}
