/**
  The lexicographic order of keys and what it says about a radix tree: every subtree holds the
  keys behind its path, and stepping up from a finished subtree or to a neighbouring edge reaches
  the next or the previous key.
*/
module RaxOrder {
  import opened Bytes
  import opened RaxTree
  import opened Rax

  // ---------------------------------------------------------------- keys

  /** memcmp order, a proper prefix first. */
  predicate Less(a: Key, b: Key) {
    if b == [] then false
    else if a == [] then true
    else if a[0] != b[0] then a[0] < b[0]
    else Less(a[1..], b[1..])
  }

  ghost predicate DiffersAt(a: Key, b: Key, i: nat) {
    i < |a| && i < |b| && a[..i] == b[..i] && a[i] < b[i]
  }

  /** memcmp order: a proper prefix comes first, and otherwise the first byte that differs decides. */
  lemma {:induction false} LessMeans(a: Key, b: Key)
    ensures Less(a, b) <==> (a <= b && a != b) || exists i: nat :: DiffersAt(a, b, i)
    decreases |a|
  {
    if a != [] && b != [] {
      if a[0] == b[0] {
        LessMeans(a[1..], b[1..]);
        assert a == [a[0]] + a[1..] && b == [b[0]] + b[1..];
        if i: nat :| DiffersAt(a[1..], b[1..], i) {
          assert a[..i + 1] == [a[0]] + a[1..][..i] && b[..i + 1] == [b[0]] + b[1..][..i];
          assert DiffersAt(a, b, i + 1);
        }
        if j: nat :| DiffersAt(a, b, j) {
          assert j > 0 && a[1..][..j - 1] == a[..j][1..] && b[1..][..j - 1] == b[..j][1..];
          assert DiffersAt(a[1..], b[1..], j - 1);
        }
      } else if a[0] < b[0] {
        assert DiffersAt(a, b, 0);
      } else if j: nat :| DiffersAt(a, b, j) {
        assert j > 0 && a[..j][0] == b[..j][0];
      }
    }
  }

  /** b comes after every key that starts with p. */
  predicate After(p: Key, b: Key) {
    Less(p, b) && !(p <= b)
  }

  lemma {:induction false} LessBehind(p: Key, a: Key, b: Key)
    ensures Less(p + a, p + b) <==> Less(a, b)
    decreases |p|
  {
    if p == [] {
      assert p + a == a && p + b == b;
    } else {
      assert (p + a)[1..] == p[1..] + a && (p + b)[1..] == p[1..] + b;
      LessBehind(p[1..], a, b);
    }
  }

  /** A key outside q's subtree compares with everything in it as with q. */
  lemma {:induction false} LessApart(q: Key, x: Key, k: Key)
    requires !(q <= k)
    ensures Less(q + x, k) <==> Less(q, k)
    ensures Less(k, q + x) <==> Less(k, q)
    decreases |q|
  {
    if k != [] && q[0] == k[0] {
      assert (q + x)[1..] == q[1..] + x;
      assert !(q[1..] <= k[1..]) by {
        assert q == [q[0]] + q[1..] && k == [k[0]] + k[1..];
      }
      LessApart(q[1..], x, k[1..]);
    }
  }

  lemma {:induction false} LessTotal(a: Key, b: Key)
    ensures a == b || Less(a, b) || Less(b, a)
    ensures !(Less(a, b) && Less(b, a))
    ensures !Less(a, a)
    decreases |a|
  {
    if a != [] && b != [] && a[0] == b[0] {
      LessTotal(a[1..], b[1..]);
      assert a == [a[0]] + a[1..] && b == [b[0]] + b[1..];
    } else if a != [] {
      assert a[1..] == a[1..];
      LessTotal(a[1..], a[1..]);
    }
  }

  lemma {:induction false} LessTransitive(a: Key, b: Key, c: Key)
    requires Less(a, b) && Less(b, c)
    ensures Less(a, c)
    decreases |a|
  {
    if a != [] && a[0] == b[0] == c[0] {
      LessTransitive(a[1..], b[1..], c[1..]);
    }
  }

  lemma LessExtends(p: Key, x: Key)
    requires x != []
    ensures Less(p, p + x) && !Less(p + x, p)
  {
    LessBehind(p, [], x);
    LessBehind(p, x, []);
    assert p + [] == p;
  }

  // ---------------------------------------------------------------- least and greatest in a subtree

  ghost function LeastKey(n: Node): Key
    requires Good(n)
  {
    if n.key.Some? then [] else Label(n, 0) + LeastKey(n.children[0])
  }

  ghost function GreatestKey(n: Node): Key
    requires Good(n)
  {
    if n.children == [] then []
    else
      var i := |n.children| - 1;
      Label(n, i) + GreatestKey(n.children[i])
  }

  /** A key of n other than the empty one continues below one of its edges. */
  lemma BelowEdge(n: Node, k: Key) returns (i: nat)
    requires Good(n) && k != [] && Get(n, k).Some?
    ensures i < |n.children| && (!n.compr ==> i < |n.edges| && n.edges[i] == k[0])
    ensures Label(n, i) <= k && Get(n.children[i], k[|Label(n, i)|..]).Some?
  {
    i := if n.compr then 0 else EdgeIndex(n.edges, k[0]);
  }

  lemma GetBelow(n: Node, i: nat, k: Key)
    requires Good(n) && i < |n.children|
    ensures Get(n, Label(n, i) + k) == Get(n.children[i], k)
  {
    var whole := Label(n, i) + k;
    assert whole[|Label(n, i)|..] == k;
    if !n.compr {
      EdgeIndexOf(n.edges, i);
    }
  }

  lemma {:induction false} LeastIsKey(n: Node)
    requires Good(n)
    ensures Get(n, LeastKey(n)).Some?
    decreases n
  {
    if n.key.None? {
      LeastIsKey(n.children[0]);
      GetBelow(n, 0, LeastKey(n.children[0]));
    }
  }

  lemma {:induction false} LeastIsLeast(n: Node, k: Key)
    requires Good(n) && Get(n, k).Some?
    ensures k == LeastKey(n) || Less(LeastKey(n), k)
    decreases n
  {
    if n.key.None? {
      var i := BelowEdge(n, k);
      var first := Label(n, 0);
      if i == 0 {
        var rest := k[|first|..];
        assert k == first + rest;
        LeastIsLeast(n.children[0], rest);
        LessBehind(first, LeastKey(n.children[0]), rest);
      } else {
        assert n.edges[0] < n.edges[i];
      }
    }
  }

  lemma {:induction false} GreatestIsKey(n: Node)
    requires Good(n)
    ensures Get(n, GreatestKey(n)).Some?
    decreases n
  {
    if n.children != [] {
      var i := |n.children| - 1;
      GreatestIsKey(n.children[i]);
      GetBelow(n, i, GreatestKey(n.children[i]));
    }
  }

  lemma {:induction false} GreatestIsGreatest(n: Node, k: Key)
    requires Good(n) && Get(n, k).Some?
    ensures k == GreatestKey(n) || Less(k, GreatestKey(n))
    decreases n
  {
    hide Get, Good;
    GoodSorted(n);
    if k != [] {
      var i := BelowEdge(n, k);
      var last := |n.children| - 1;
      var step := Label(n, last);
      if i == last {
        var rest := k[|step|..];
        assert k == step + rest;
        GreatestIsGreatest(n.children[last], rest);
        LessBehind(step, rest, GreatestKey(n.children[last]));
      } else {
        assert n.edges[i] < n.edges[last];
      }
    }
  }

  // ---------------------------------------------------------------- positions in the tree

  lemma {:induction false} TrailGood(root: Node, path: Path, n: Node)
    requires Good(root) && Trail(root, path, n)
    ensures PathOk(path) && Good(n)
    decreases |path|
  {
    if path != [] {
      var f, q := path[|path| - 1], path[..|path| - 1];
      TrailGood(root, q, f.node);
      forall i | 0 <= i < |path|
        ensures FrameOk(path[i])
      {
        assert i < |q| ==> path[i] == q[i];
      }
    }
  }

  /** The node at the end of a trail holds the keys behind the trail's key. */
  lemma {:induction false} GetTrail(root: Node, path: Path, n: Node, k: Key)
    requires Good(root) && Trail(root, path, n)
    ensures PathOk(path) && Good(n)
    ensures Get(root, PathKey(path) + k) == Get(n, k)
    decreases |path|
  {
    hide Good, Get, Label;
    TrailGood(root, path, n);
    if path == [] {
      assert [] + k == k;
    } else {
      var f, q := path[|path| - 1], path[..|path| - 1];
      var step := Label(f.node, f.child);
      TrailGood(root, q, f.node);
      GoodSorted(f.node);
      GetTrail(root, q, f.node, step + k);
      GetBelow(f.node, f.child, k);
      assert PathKey(q) + (step + k) == PathKey(path) + k;
    }
  }

  ghost predicate IsKey(root: Node, k: Key) {
    Get(root, k).Some?
  }

  /** A stored key behind q, seen from the node there. */
  lemma KeyBehind(root: Node, path: Path, n: Node, q: Key, k: Key) returns (rest: Key)
    requires Good(root) && Trail(root, path, n) && PathOk(path) && q == PathKey(path)
    requires q <= k && IsKey(root, k)
    ensures k == q + rest && Get(n, rest).Some?
  {
    rest := k[|q|..];
    assert k == q + rest;
    GetTrail(root, path, n, rest);
  }

  /** What the iterator's key ends with above node n: the bytes of an edge, present or not. */
  predicate Tip(n: Node, x: Key) {
    if n.compr then x == n.edges && x != [] else |x| == 1
  }

  /** k is the first stored key after the subtree of p. */
  ghost predicate FirstAfter(root: Node, p: Key, k: Key) {
    IsKey(root, k) && After(p, k) && forall r: Key :: IsKey(root, r) && After(p, r) ==> r == k || Less(k, r)
  }

  /** k is the first stored key greater than p. */
  ghost predicate FirstAbove(root: Node, p: Key, k: Key) {
    IsKey(root, k) && Less(p, k) && forall r: Key :: IsKey(root, r) && Less(p, r) ==> r == k || Less(k, r)
  }

  /** k is the last stored key smaller than p. */
  ghost predicate LastBelow(root: Node, p: Key, k: Key) {
    IsKey(root, k) && Less(k, p) && forall r: Key :: IsKey(root, r) && Less(r, p) ==> r == k || Less(r, k)
  }

  /** Going up from an edge with no greater neighbour loses no later key. */
  lemma NothingNext(root: Node, path: Path, n: Node, x: Key, k: Key)
    requires Good(root) && Trail(root, path, n) && PathOk(path) && Tip(n, x) && IsKey(root, k)
    requires !n.compr ==> forall i | 0 <= i < |n.edges| :: n.edges[i] <= x[0]
    ensures After(PathKey(path) + x, k) <==> After(PathKey(path), k)
  {
    hide Get, Good, PathKey, Trail;
    var q := PathKey(path);
    if q <= k {
      var rest := KeyBehind(root, path, n, q, k);
      LessBehind(q, x, rest);
      GetTrail(root, path, n, rest);
      if rest != [] {
        var i := BelowEdge(n, rest);
        assert n.compr ==> q + x <= k;
        if !n.compr && n.edges[i] == x[0] {
          assert Label(n, i) == x;
          assert q + x <= k;
        }
      }
    } else {
      LessApart(q, x, k);
      assert q + x <= k ==> q <= k;
    }
  }

  /** The next greater edge leads to the next key. */
  lemma NextEdge(root: Node, path: Path, n: Node, x: Key, i: nat)
    requires Good(root) && Trail(root, path, n) && PathOk(path) && Tip(n, x) && !n.compr && Good(n)
    requires i < |n.children| && i < |n.edges| && n.edges[i] > x[0]
    requires forall j | 0 <= j < i :: n.edges[j] <= x[0]
    ensures FirstAfter(root, PathKey(path) + x, PathKey(path) + [n.edges[i]] + LeastKey(n.children[i]))
  {
    hide Get, PathKey, Trail, LeastKey;
    var q := PathKey(path);
    var low := [n.edges[i]] + LeastKey(n.children[i]);
    var t := q + low;
    assert t == q + [n.edges[i]] + LeastKey(n.children[i]);
    LeastIsKey(n.children[i]);
    GetBelow(n, i, LeastKey(n.children[i]));
    GetTrail(root, path, n, low);
    LessBehind(q, x, low);
    assert t[|q|] == n.edges[i];
    assert (q + x)[|q|] == x[0];
    forall r: Key | IsKey(root, r) && After(q + x, r)
      ensures r == t || Less(t, r)
    {
      NextEdgeLeast(root, path, n, x, i, r);
    }
  }

  lemma NextEdgeLeast(root: Node, path: Path, n: Node, x: Key, i: nat, r: Key)
    requires Good(root) && Trail(root, path, n) && PathOk(path) && Tip(n, x) && !n.compr && Good(n)
    requires i < |n.children| && i < |n.edges| && n.edges[i] > x[0]
    requires forall j | 0 <= j < i :: n.edges[j] <= x[0]
    requires IsKey(root, r) && After(PathKey(path) + x, r)
    ensures var t := PathKey(path) + ([n.edges[i]] + LeastKey(n.children[i])); r == t || Less(t, r)
  {
    hide Get, PathKey, Trail, LeastKey, Good;
    var q := PathKey(path);
    GoodSorted(n);
    var low := [n.edges[i]] + LeastKey(n.children[i]);
    if q <= r {
      var rest := KeyBehind(root, path, n, q, r);
      LessBehind(q, x, rest);
      LessBehind(q, low, rest);
      assert rest != [];
      var j := BelowEdge(n, rest);
      if j == i {
        var tail := rest[1..];
        assert rest == [n.edges[i]] + tail;
        LeastIsLeast(n.children[i], tail);
        LessBehind([n.edges[i]], LeastKey(n.children[i]), tail);
      }
    } else {
      LessApart(q, x, r);
      LessApart(q, low, r);
    }
  }

  lemma GoodSorted(n: Node)
    requires Good(n)
    ensures Shape(n)
    ensures forall i | 0 <= i < |n.children| :: Good(n.children[i])
  {
  }

  /** From a node with children the next key is the least one below its first edge. */
  lemma NextBelow(root: Node, path: Path, n: Node)
    requires Good(root) && Trail(root, path, n) && PathOk(path) && Good(n) && n.children != []
    ensures FirstAbove(root, PathKey(path), PathKey(path) + (Label(n, 0) + LeastKey(n.children[0])))
  {
    hide Get, PathKey, Trail, LeastKey;
    var p, least := PathKey(path), LeastKey(n.children[0]);
    var low := Label(n, 0) + least;
    LeastIsKey(n.children[0]);
    GetBelow(n, 0, least);
    GetTrail(root, path, n, low);
    LessExtends(p, low);
    forall r: Key | IsKey(root, r) && Less(p, r)
      ensures r == p + low || Less(p + low, r)
    {
      if p <= r {
        var rest := KeyBehind(root, path, n, p, r);
        LessBehind(p, low, rest);
        LessTotal(p, p);
        assert rest != [] by {
          assert p + [] == p;
        }
        var i := BelowEdge(n, rest);
        if i == 0 {
          var tail := rest[|Label(n, 0)|..];
          assert rest == Label(n, 0) + tail;
          LeastIsLeast(n.children[0], tail);
          LessBehind(Label(n, 0), least, tail);
        }
      } else {
        LessApart(p, low, r);
      }
    }
  }

  /** Behind a leaf there is no other key. */
  lemma NextOfLeaf(root: Node, path: Path, n: Node, k: Key)
    requires Good(root) && Trail(root, path, n) && PathOk(path) && n.children == [] && IsKey(root, k)
    ensures Less(PathKey(path), k) <==> After(PathKey(path), k)
  {
    hide PathKey, Trail;
    var p := PathKey(path);
    TrailGood(root, path, n);
    if p <= k {
      var rest := KeyBehind(root, path, n, p, k);
      LessTotal(p, p);
      assert rest == [];
      assert p + [] == p;
    }
  }

  /** Going up from an edge with no smaller neighbour passes only the node itself. */
  lemma NothingPrev(root: Node, path: Path, n: Node, x: Key, k: Key)
    requires Good(root) && Trail(root, path, n) && PathOk(path) && Tip(n, x) && IsKey(root, k)
    requires !n.compr ==> forall i | 0 <= i < |n.edges| :: n.edges[i] >= x[0]
    requires k != PathKey(path)
    ensures Less(k, PathKey(path) + x) <==> Less(k, PathKey(path))
  {
    hide Get, Good, PathKey, Trail;
    var q := PathKey(path);
    if q <= k {
      var rest := KeyBehind(root, path, n, q, k);
      assert rest != [] by {
        assert q + [] == q;
      }
      LessExtends(q, rest);
      LessBehind(q, rest, x);
      GetTrail(root, path, n, rest);
      var i := BelowEdge(n, rest);
      if n.compr {
        NotBelowPrefix(x, rest);
      } else {
        assert rest[0] == x[0] ==> !Less(rest[1..], x[1..]);
      }
    } else {
      LessApart(q, x, k);
    }
  }

  /** The next smaller edge leads to the previous key. */
  lemma PrevEdge(root: Node, path: Path, n: Node, x: Key, i: nat)
    requires Good(root) && Trail(root, path, n) && PathOk(path) && Tip(n, x) && !n.compr && Good(n)
    requires i < |n.children| && i < |n.edges| && n.edges[i] < x[0]
    requires forall j | i < j < |n.edges| :: n.edges[j] >= x[0]
    ensures LastBelow(root, PathKey(path) + x, PathKey(path) + [n.edges[i]] + GreatestKey(n.children[i]))
  {
    hide Get, PathKey, Trail, GreatestKey;
    var q := PathKey(path);
    var high := [n.edges[i]] + GreatestKey(n.children[i]);
    var t := q + high;
    assert t == q + [n.edges[i]] + GreatestKey(n.children[i]);
    GreatestIsKey(n.children[i]);
    GetBelow(n, i, GreatestKey(n.children[i]));
    GetTrail(root, path, n, high);
    LessBehind(q, high, x);
    forall r: Key | IsKey(root, r) && Less(r, q + x)
      ensures r == t || Less(r, t)
    {
      PrevEdgeGreatest(root, path, n, x, i, r);
    }
  }

  lemma PrevEdgeGreatest(root: Node, path: Path, n: Node, x: Key, i: nat, r: Key)
    requires Good(root) && Trail(root, path, n) && PathOk(path) && Tip(n, x) && !n.compr && Good(n)
    requires i < |n.children| && i < |n.edges| && n.edges[i] < x[0]
    requires forall j | i < j < |n.edges| :: n.edges[j] >= x[0]
    requires IsKey(root, r) && Less(r, PathKey(path) + x)
    ensures var t := PathKey(path) + ([n.edges[i]] + GreatestKey(n.children[i])); r == t || Less(r, t)
  {
    hide Get, PathKey, Trail, GreatestKey, Good;
    var q := PathKey(path);
    GoodSorted(n);
    var high := [n.edges[i]] + GreatestKey(n.children[i]);
    if q <= r {
      var rest := KeyBehind(root, path, n, q, r);
      LessBehind(q, rest, x);
      LessBehind(q, rest, high);
      if rest != [] {
        var j := BelowEdge(n, rest);
        assert rest[0] <= x[0];
        if j == i {
          var tail := rest[1..];
          assert rest == [n.edges[i]] + tail;
          GreatestIsGreatest(n.children[i], tail);
          LessBehind([n.edges[i]], tail, GreatestKey(n.children[i]));
        }
      }
    } else {
      LessApart(q, x, r);
      LessApart(q, high, r);
    }
  }

  // ---------------------------------------------------------------- seeking

  /** The stored keys above ele are those above p, after p, or those below ele are those below p. */
  ghost predicate SameAbove(root: Node, ele: Key, p: Key) {
    forall k: Key :: IsKey(root, k) ==> (Less(ele, k) <==> Less(p, k))
  }

  ghost predicate SameAfter(root: Node, ele: Key, p: Key) {
    forall k: Key :: IsKey(root, k) ==> (Less(ele, k) <==> After(p, k))
  }

  ghost predicate SameBelow(root: Node, ele: Key, p: Key) {
    forall k: Key :: IsKey(root, k) ==> (Less(k, ele) <==> Less(k, p))
  }

  /** A node without an edge for the next byte: no stored key starts with the bytes read. */
  lemma MissedEdge(root: Node, path: Path, n: Node, q: Key, c: Byte, rest: Key)
    requires Good(root) && Trail(root, path, n) && PathOk(path) && PathKey(path) == q && Good(n)
    requires !n.compr && c !in n.edges
    ensures SameAfter(root, q + [c] + rest, q + [c]) && SameBelow(root, q + [c] + rest, q + [c])
  {
    hide Good, Get, PathKey, Trail, Less;
    var p := q + [c];
    forall k: Key | IsKey(root, k)
      ensures !(p <= k)
      ensures Less(p + rest, k) <==> Less(p, k)
      ensures Less(k, p + rest) <==> Less(k, p)
    {
      if p <= k {
        var tail := KeyBehind(root, path, n, q, k);
        assert tail[0] == k[|q|] == c;
        var i := BelowEdge(n, tail);
        assert false;
      }
      LessApart(p, rest, k);
    }
  }

  /** A stored key behind a compressed node is the node's own or starts with all its bytes. */
  lemma BehindCompressed(root: Node, path: Path, n: Node, q: Key, k: Key)
    requires Good(root) && Trail(root, path, n) && PathOk(path) && PathKey(path) == q && Good(n)
    requires n.compr && IsKey(root, k) && q <= k
    ensures k == q || q + n.edges <= k
  {
    hide Good, Get, PathKey, Trail;
    var rest := KeyBehind(root, path, n, q, k);
    if rest != [] {
      var i := BelowEdge(n, rest);
      assert k[|q|..] == rest;
    } else {
      assert q + [] == q;
    }
  }

  /** Two keys that part at byte j of a compressed node compare by that byte. */
  lemma PartAt(q: Key, edges: seq<Byte>, j: nat, ele: Key, k: Key)
    requires j < |edges| && q + edges[..j] <= ele && q + edges <= k
    requires |q| + j < |ele| && ele[|q| + j] != edges[j]
    ensures Less(ele, k) <==> ele[|q| + j] < edges[j]
    ensures Less(k, ele) <==> edges[j] < ele[|q| + j]
  {
    var p := q + edges[..j];
    var a, b := ele[|p|..], k[|p|..];
    assert ele == p + a;
    assert k[..|q| + |edges|] == q + edges;
    assert k[|q|..|q| + j] == edges[..j];
    assert k == p + b;
    assert b[0] == k[|q| + j] == (q + edges)[|q| + j] == edges[j];
    LessBehind(p, a, b);
    LessBehind(p, b, a);
  }

  /** The seek stopped inside a compressed node on a different byte. */
  lemma MissedByte(root: Node, path: Path, n: Node, q: Key, ele: Key, j: nat)
    requires Good(root) && Trail(root, path, n) && PathOk(path) && PathKey(path) == q && Good(n)
    requires n.compr && j < |n.edges| && q + n.edges[..j] <= ele
    requires |q| + j < |ele| && ele[|q| + j] != n.edges[j]
    ensures n.edges[j] > ele[|q| + j] ==> SameAbove(root, ele, q) && SameBelow(root, ele, q + n.edges)
    ensures n.edges[j] < ele[|q| + j] ==> SameAfter(root, ele, q + n.edges)
  {
    hide Good, Get, PathKey, Trail, Less;
    var p := q + n.edges;
    var more := ele[|q|..];
    assert ele == q + more && more != [] by {
      assert q <= q + n.edges[..j];
    }
    LessExtends(q, more);
    LessExtends(q, n.edges);
    forall k: Key | IsKey(root, k)
      ensures n.edges[j] > ele[|q| + j] ==> (Less(ele, k) <==> Less(q, k)) && (Less(k, ele) <==> Less(k, p))
      ensures n.edges[j] < ele[|q| + j] ==> (Less(ele, k) <==> After(p, k))
    {
      if q <= k {
        BehindCompressed(root, path, n, q, k);
        LessTotal(q, q);
        if p <= k {
          PartAt(q, n.edges, j, ele, k);
          NotBelowPrefix(p, k);
          AbovePrefix(q, n.edges, k);
        }
      } else {
        LessApart(q, more, k);
        LessApart(q, n.edges, k);
        assert p <= k ==> q <= k;
      }
    }
  }

  lemma NotBelowPrefix(p: Key, k: Key)
    requires p <= k
    ensures !Less(k, p)
  {
    assert k == p + k[|p|..];
    if k[|p|..] == [] {
      LessTotal(p, p);
    } else {
      LessExtends(p, k[|p|..]);
    }
  }

  lemma AbovePrefix(q: Key, x: Key, k: Key)
    requires x != [] && q + x <= k
    ensures Less(q, k)
  {
    assert k == q + k[|q|..] && k[|q|..] != [];
    LessExtends(q, k[|q|..]);
  }

  /** The key sought ended inside a compressed node. */
  lemma EndedInside(root: Node, path: Path, n: Node, q: Key, ele: Key, j: nat)
    requires Good(root) && Trail(root, path, n) && PathOk(path) && PathKey(path) == q && Good(n)
    requires n.compr && 0 < j < |n.edges| && ele == q + n.edges[..j]
    ensures SameAbove(root, ele, q)
    ensures n.key.None? ==> SameBelow(root, ele, q)
    ensures n.key.Some? ==> LastBelow(root, ele, q)
  {
    hide Good, Get, PathKey, Trail, Less;
    var part := n.edges[..j];
    LessExtends(q, part);
    LessTotal(q, q);
    NodeKey(root, path, n, q);
    forall k: Key | IsKey(root, k)
      ensures Less(ele, k) <==> Less(q, k)
      ensures k != q ==> (Less(k, ele) <==> Less(k, q))
    {
      if q <= k {
        BehindCompressed(root, path, n, q, k);
        if q + n.edges <= k {
          assert n.edges == part + n.edges[j..];
          assert ele + n.edges[j..] == q + n.edges;
          AbovePrefix(ele, n.edges[j..], k);
          AbovePrefix(q, n.edges, k);
          NotBelowPrefix(ele, k);
          NotBelowPrefix(q, k);
        }
      } else {
        LessApart(q, part, k);
      }
    }
  }

  lemma NodeKey(root: Node, path: Path, n: Node, q: Key)
    requires Good(root) && Trail(root, path, n) && PathOk(path) && PathKey(path) == q
    ensures n.key.Some? <==> IsKey(root, q)
    ensures Get(root, q) == n.key
  {
    GetTrail(root, path, n, []);
    assert q + [] == q;
  }

  /** The greatest key of a compressed node is the last one below a greater byte. */
  lemma GreatestBelow(root: Node, path: Path, n: Node, q: Key, ele: Key, j: nat)
    requires Good(root) && Trail(root, path, n) && PathOk(path) && PathKey(path) == q && Good(n)
    requires n.compr && j < |n.edges| && q + n.edges[..j] <= ele
    requires |q| + j < |ele| && ele[|q| + j] > n.edges[j]
    ensures LastBelow(root, ele, q + GreatestKey(n))
  {
    hide Get, PathKey, Trail, Less;
    var high := GreatestKey(n);
    var t := q + high;
    var more := ele[|q|..];
    assert ele == q + more by {
      assert q <= q + n.edges[..j];
    }
    GreatestIsKey(n);
    GetTrail(root, path, n, high);
    assert q + n.edges <= t;
    PartAt(q, n.edges, j, ele, t);
    forall r: Key | IsKey(root, r) && Less(r, ele)
      ensures r == t || Less(r, t)
    {
      if q <= r {
        var rest := KeyBehind(root, path, n, q, r);
        GreatestIsGreatest(n, rest);
        LessBehind(q, rest, high);
      } else {
        LessApart(q, more, r);
        LessApart(q, high, r);
      }
    }
  }
}
