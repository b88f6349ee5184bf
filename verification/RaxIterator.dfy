/**
  The iterator of src/rax/rax.c: a current node, the stack of its parents, the key bytes read on
  the way down, and two flags. raxSeek lands on the extreme key that satisfies the operator, and
  raxNext moves to the least key above the current one.
*/
module RaxIterator {
  import opened Sets
  import opened Wrappers
  import opened Bytes
  import opened RaxTree
  import opened Rax
  import opened RaxOrder

  datatype SeekOp = First | Last | Eq | Lt | Le | Gt | Ge

  function Nodes(path: Path): seq<Node> {
    seq(|path|, i requires 0 <= i < |path| => path[i].node)
  }

  lemma NodesOf(path: Path, f: Frame)
    ensures Nodes(path + [f]) == Nodes(path) + [f.node]
    ensures path != [] ==> Nodes(path)[..|path| - 1] == Nodes(path[..|path| - 1])
  {
  }

  /** A position: the trail from root to node spells key, and stack holds the nodes passed. */
  ghost predicate At(root: Node, path: Path, stack: seq<Node>, node: Node, key: Key) {
    && Good(root) && Trail(root, path, node) && PathOk(path) && Good(node)
    && PathKey(path) == key && Nodes(path) == stack
  }

  lemma AtChild(root: Node, path: Path, stack: seq<Node>, n: Node, key: Key, i: nat)
    requires At(root, path, stack, n, key) && i < |n.children|
    ensures At(root, path + [Frame(n, i)], stack + [n], n.children[i], key + Label(n, i))
  {
    hide Good, PathKey, Trail;
    var f := Frame(n, i);
    TrailStep(root, path, n, i);
    TrailGood(root, path + [f], n.children[i]);
    GoodSorted(n);
    PathOkPrefix(path, f, n);
    NodesOf(path, f);
  }

  /** Popping the stack: the parent, its own position, and the label that leads back down. */
  lemma AtParent(root: Node, path: Path, stack: seq<Node>, n: Node, key: Key)
    requires At(root, path, stack, n, key) && stack != []
    ensures path != [] && |stack| == |path| && path[|path| - 1].node == stack[|stack| - 1]
    ensures var f, q := path[|path| - 1], path[..|path| - 1];
            && f.child < |f.node.children| && Good(f.node)
            && PathOk(q)
            && key == PathKey(q) + Label(f.node, f.child)
            && At(root, q, stack[..|stack| - 1], f.node, PathKey(q))
  {
    hide Good, PathKey;
    var f, q := path[|path| - 1], path[..|path| - 1];
    TrailGood(root, q, f.node);
    GoodSorted(f.node);
    LastKey(path);
    NodesOf(path, f);
  }

  lemma LastKey(path: Path)
    requires PathOk(path) && path != []
    ensures PathKey(path) == PathKey(path[..|path| - 1]) + Label(path[|path| - 1].node, path[|path| - 1].child)
  {
  }

  // ---------------------------------------------------------------- scanning edges

  /** The first edge greater than c, or their number. */
  method GreaterEdge(edges: seq<Byte>, c: Byte) returns (i: nat)
    ensures i <= |edges| && (forall j | 0 <= j < i :: edges[j] <= c)
    ensures i < |edges| ==> edges[i] > c
  {
    i := 0;
    while i < |edges|
      invariant 0 <= i <= |edges| && forall j | 0 <= j < i :: edges[j] <= c
    {
      if edges[i] > c {
        return;
      }
      i := i + 1;
    }
  }

  /** The last edge smaller than c, or -1. */
  method SmallerEdge(edges: seq<Byte>, c: Byte) returns (i: int)
    ensures -1 <= i < |edges| && (forall j | i < j < |edges| :: edges[j] >= c)
    ensures i >= 0 ==> edges[i] < c
  {
    i := |edges| - 1;
    while i >= 0
      invariant -1 <= i < |edges| && forall j | i < j < |edges| :: edges[j] >= c
    {
      if edges[i] < c {
        return;
      }
      i := i - 1;
    }
  }

  class Iterator {
    const root: Node
    const numele: int
    var eof: bool
    var justSeeked: bool
    var key: Key
    var data: Option<Value>
    var node: Node
    var stack: seq<Node>
    ghost var path: Path

    /** The iterator stands at a node of the tree. */
    ghost predicate Placed()
      reads this
    {
      At(root, path, stack, node, key)
    }

    /** The iterator stands on a stored key and shows its value. */
    ghost predicate OnKey()
      reads this
    {
      Placed() && node.key.Some? && data == node.key
    }

    /** raxStart: at the end until a seek. */
    constructor (tree: Node, elements: int)
      requires Good(tree) || tree == EMPTY
      requires elements == Tally(tree, false)
      ensures root == tree && numele == elements && eof
    {
      root, numele, eof, justSeeked := tree, elements, true, false;
      key, data, node, stack, path := [], None, tree, [], [];
    }

    /** One step down to child i. */
    method Enter(i: nat)
      requires Placed() && i < |node.children|
      modifies this
      ensures Placed() && node == old(node.children[i]) && key == old(key + Label(node, i))
      ensures unchanged(`eof) && unchanged(`justSeeked) && unchanged(`data)
    {
      AtChild(root, path, stack, node, key, i);
      path := path + [Frame(node, i)];
      stack := stack + [node];
      key := key + Label(node, i);
      node := node.children[i];
    }

    /** The downward half of raxIteratorNextStep: first children until a key is met. */
    method DescendFirst()
      requires Placed() && node.children != []
      modifies this
      ensures OnKey() && key == old(key + (Label(node, 0) + LeastKey(node.children[0])))
      ensures unchanged(`eof) && unchanged(`justSeeked)
    {
      hide Good, PathKey, Trail;
      GoodSorted(node);
      ghost var goal := key + (Label(node, 0) + LeastKey(node.children[0]));
      Enter(0);
      assert key + LeastKey(node) == goal;
      while node.key.None?
        invariant Placed() && key + LeastKey(node) == goal
        invariant unchanged(`eof) && unchanged(`justSeeked)
        decreases node
      {
        KeylessHasChild(node);
        Enter(0);
      }
      data := node.key;
    }

    /** raxSeekGreatest: last children until a leaf. */
    method SeekGreatest()
      requires Placed()
      modifies this
      ensures Placed() && node.key.Some? && key == old(key + GreatestKey(node))
      ensures unchanged(`eof) && unchanged(`justSeeked) && unchanged(`data)
    {
      hide Good, PathKey, Trail;
      ghost var goal := key + GreatestKey(node);
      while node.children != []
        invariant Placed() && key + GreatestKey(node) == goal
        invariant unchanged(`eof) && unchanged(`justSeeked) && unchanged(`data)
        decreases node
      {
        GoodSorted(node);
        Enter(|node.children| - 1);
      }
      LeafHasKey(node);
    }

    /** Below the node at base hangs the tip of an edge: the iterator's key is base plus that tip. */
    ghost predicate Hanging(base: Key)
      reads this
    {
      At(root, path, stack, node, base) && base <= key && Tip(node, key[|base|..])
    }

    /** One step up, or none if the iterator already hangs below its node. */
    method Rise(noup: bool, ghost base: Key) returns (ghost q: Key, last: Byte)
      requires if noup then Hanging(base) else Placed() && stack != []
      modifies `node, `stack, `path
      ensures Hanging(q) && last == key[|key| - 1] && |stack| == old(|stack|) - (if noup then 0 else 1)
      ensures !noup && !node.compr ==> key[|q|..][0] in node.edges
    {
      hide Good, PathKey, Trail;
      if noup {
        q := base;
        TipIsBehind(key, base);
      } else {
        AtParent(root, path, stack, node, key);
        ghost var f := path[|path| - 1];
        q := PathKey(path[..|path| - 1]);
        GoodSorted(f.node);
        assert key[|q|..] == Label(f.node, f.child);
        node := stack[|stack| - 1];
        stack, path := stack[..|stack| - 1], path[..|path| - 1];
      }
      last := key[|key| - 1];
    }

    /**
      The upward half of raxIteratorNextStep: up until some node has an edge greater than the one
      the iterator comes from, and into that edge.
    */
    method ClimbNext(up: bool, ghost base: Key) returns (found: bool)
      requires if up then Placed() else Hanging(base)
      modifies this
      ensures unchanged(`eof) && unchanged(`justSeeked) && unchanged(`data)
      ensures found ==> Placed() && FirstAfter(root, old(key), key + LeastKey(node))
      ensures !found ==> forall k: Key :: IsKey(root, k) ==> !After(old(key), k)
    {
      hide Good, PathKey, Trail, After, At, FirstAfter, Nodes, IsKey;
      ghost var goal := key;
      var noup := !up;
      ghost var from := base;
      while true
        invariant if noup then Hanging(from) else Placed()
        invariant forall k: Key :: IsKey(root, k) ==> (After(goal, k) <==> After(key, k))
        invariant unchanged(`eof) && unchanged(`justSeeked) && unchanged(`data)
        decreases |stack| + if noup then 1 else 0
      {
        if !noup && stack == [] {
          NothingAfterAll(root, path, stack, node, key);
          return false;
        }
        var few := if noup then 0 else 1;
        var q, last := Rise(noup, from);
        noup := false;
        ghost var tip := key[|q|..];
        TipLast(node, key, q, last);
        key := key[..|key| - (if node.compr then |node.edges| else 1)];
        assert key == q;
        AtFacts(root, path, stack, node, key);
        var i := |node.edges|;
        if !node.compr && |node.edges| > few {
          i := GreaterEdge(node.edges, last);
        }
        if i < |node.edges| {
          NextEdge(root, path, node, tip, i);
          FirstAfterSame(root, goal, q + tip, q + [node.edges[i]] + LeastKey(node.children[i]));
          Enter(i);
          return true;
        }
        forall k: Key | IsKey(root, k)
          ensures After(q + tip, k) <==> After(q, k)
        {
          NothingNext(root, path, node, tip, k);
        }
      }
    }

    /** raxIteratorNextStep with the end-of-iteration flag already tested. */
    method NextStep(noup: bool, ghost base: Key)
      requires if noup then Hanging(base) else Placed()
      requires !eof
      modifies this
      ensures justSeeked == old(justSeeked)
      ensures !eof && !noup ==> OnKey() && FirstAbove(root, old(key), key)
      ensures !eof && noup ==> OnKey() && FirstAfter(root, old(key), key)
      ensures eof ==> key == old(key) && node == old(node) && stack == old(stack) && path == old(path)
      ensures eof && !noup ==> forall k: Key :: IsKey(root, k) ==> !Less(old(key), k)
      ensures eof && noup ==> forall k: Key :: IsKey(root, k) ==> !After(old(key), k)
    {
      hide Good, PathKey, Trail, After, FirstAfter, FirstAbove, Nodes, IsKey;
      var origKey, origNode, origStack := key, node, stack;
      ghost var origPath := path;
      if !noup && node.children != [] {
        NextBelow(root, path, node);
        DescendFirst();
      } else {
        if !noup {
          LeafAbove(root, path, node, key);
        }
        var found := ClimbNext(!noup, base);
        if !found {
          eof := true;
          key, node, stack, path := origKey, origNode, origStack, origPath;
        } else {
          SettleLeast(root, path, stack, node, key);
          if node.key.None? {
            DescendFirst();
          } else {
            data := node.key;
          }
          if !noup {
            AboveFromAfter(root, origKey, key);
          }
        }
      }
    }

    /**
      The loop of raxIteratorPrevStep: up until some node has an edge smaller than the one the
      iterator comes from, and to the greatest key behind it, or until a node passed is itself a key.
    */
    method ClimbPrev(up: bool, ghost base: Key) returns (found: bool)
      requires if up then Placed() else Hanging(base)
      modifies this
      ensures unchanged(`eof) && unchanged(`justSeeked)
      ensures found ==> OnKey() && LastBelow(root, old(key), key)
      ensures !found ==> forall k: Key :: IsKey(root, k) ==> !Less(k, old(key))
    {
      hide Good, PathKey, Trail, Less, At, LastBelow, Nodes, IsKey;
      ghost var goal, from := key, base;
      var noup := !up;
      while true
        invariant if noup then Hanging(from) else Placed()
        invariant forall k: Key :: IsKey(root, k) ==> (Less(k, goal) <==> Less(k, key))
        invariant unchanged(`eof) && unchanged(`justSeeked)
        decreases |stack| + if noup then 1 else 0
      {
        if !noup && stack == [] {
          NothingBelowAll(root, path, stack, node, key);
          return false;
        }
        var few := if noup then 0 else 1;
        var q, last := Rise(noup, from);
        noup := false;
        ghost var tip := key[|q|..];
        TipLast(node, key, q, last);
        key := key[..|key| - (if node.compr then |node.edges| else 1)];
        assert key == q;
        found := TakeSmaller(few, last, tip, goal);
        if found {
          return;
        }
      }
    }

    /** One node of the upward loop, with the iterator on it and tip cut off its key. */
    method TakeSmaller(few: nat, last: Byte, ghost tip: Key, ghost goal: Key) returns (found: bool)
      requires Placed() && Tip(node, tip) && few <= 1
      requires !node.compr ==> tip[0] == last && (few == 1 ==> last in node.edges)
      requires forall k: Key :: IsKey(root, k) ==> (Less(k, goal) <==> Less(k, key + tip))
      modifies this
      ensures unchanged(`eof) && unchanged(`justSeeked)
      ensures found ==> OnKey() && LastBelow(root, goal, key)
      ensures !found ==> Placed() && |stack| == old(|stack|) && key == old(key)
      ensures !found ==> forall k: Key :: IsKey(root, k) ==> (Less(k, goal) <==> Less(k, key))
    {
      hide Good, PathKey, Trail, Less, LastBelow, Nodes, IsKey;
      AtFacts(root, path, stack, node, key);
      var i := -1;
      if !node.compr && |node.edges| > few {
        i := SmallerEdge(node.edges, last);
      }
      if i != -1 {
        EnterSmaller(i, tip, goal);
        return true;
      }
      forall k: Key | IsKey(root, k) && k != key
        ensures Less(k, key + tip) <==> Less(k, key)
      {
        NothingPrev(root, path, node, tip, k);
      }
      NodeIsKey(root, path, node, key, tip);
      found := node.key.Some?;
      if found {
        SelfIsLast(root, goal, key + tip, key);
        data := node.key;
      }
    }

    /** Down the edge before the one the iterator comes from, to the greatest key there. */
    method EnterSmaller(i: nat, ghost tip: Key, ghost goal: Key)
      requires Placed() && Tip(node, tip) && !node.compr && i < |node.edges| && node.edges[i] < tip[0]
      requires forall j | i < j < |node.edges| :: node.edges[j] >= tip[0]
      requires forall k: Key :: IsKey(root, k) ==> (Less(k, goal) <==> Less(k, key + tip))
      modifies this
      ensures unchanged(`eof) && unchanged(`justSeeked) && OnKey() && LastBelow(root, goal, key)
    {
      hide Good, PathKey, Trail, Less, LastBelow, Nodes, IsKey;
      AtFacts(root, path, stack, node, key);
      PrevEdge(root, path, node, tip, i);
      LastBelowSame(root, goal, key + tip, key + [node.edges[i]] + GreatestKey(node.children[i]));
      Enter(i);
      SeekGreatest();
      data := node.key;
    }

    /** raxIteratorPrevStep with the end-of-iteration flag already tested. */
    method PrevStep(noup: bool, ghost base: Key)
      requires if noup then Hanging(base) else Placed()
      requires !eof
      modifies this
      ensures justSeeked == old(justSeeked)
      ensures !eof ==> OnKey() && LastBelow(root, old(key), key)
      ensures eof ==> key == old(key) && node == old(node) && stack == old(stack) && path == old(path)
      ensures eof ==> forall k: Key :: IsKey(root, k) ==> !Less(k, old(key))
    {
      hide At, LastBelow, IsKey, Less;
      var origKey, origNode, origStack := key, node, stack;
      ghost var origPath := path;
      var found := ClimbPrev(!noup, base);
      if !found {
        eof := true;
        key, node, stack, path := origKey, origNode, origStack, origPath;
      }
    }

    // -------------------------------------------------------------- seeking

    /** The walk of raxSeek, with the parents of the stop node on the stack. */
    method WalkTo(ele: Key) returns (i: nat, j: nat)
      requires Good(root)
      modifies `node, `stack, `path
      ensures PathOk(path) && At(root, path, stack, node, PathKey(path))
      ensures StopsAt(root, ele, Stop(i, node, path, j))
    {
      hide Good, PathKey, Trail, Plug;
      GoodIsOpen(root);
      var stop := LowWalk(root, ele);
      TrailGood(root, stop.path, stop.node);
      node, path, stack := stop.node, stop.path, Nodes(stop.path);
      i, j := stop.i, stop.j;
    }

    /** The ">" half of raxSeek, after the walk. */
    method SeekAbove(ele: Key, i: nat, j: nat)
      requires !eof && PathOk(path) && At(root, path, stack, node, PathKey(path))
      requires StopsAt(root, ele, Stop(i, node, path, j))
      requires key == ele[..i - j]
      modifies this
      ensures justSeeked == old(justSeeked)
      ensures if eof then forall k: Key :: IsKey(root, k) ==> !Less(ele, k)
              else OnKey() && FirstAbove(root, ele, key)
    {
      hide Good, PathKey, Trail, Plug, Less, FirstAfter, FirstAbove, IsKey, Nodes;
      ghost var q := PathKey(path);
      StopKey(root, ele, Stop(i, node, path, j));
      assert key == q;
      if i < |ele| && !node.compr {
        MissedEdge(root, path, node, q, ele[i], ele[i + 1..]);
        assert ele == q + [ele[i]] + ele[i + 1..];
        key := key + [ele[i]];
        NextStep(true, q);
        AboveFromSameAfter(root, ele, q + [ele[i]], key, eof);
      } else if i < |ele| {
        MissedByte(root, path, node, q, ele, j);
        if node.edges[j] > ele[i] {
          NextStep(false, q);
          AboveFromSame(root, ele, q, key, eof);
        } else {
          ghost var p := q + node.edges;
          assert p[|q|..] == node.edges;
          key := key + node.edges;
          NextStep(true, q);
          AboveFromSameAfter(root, ele, p, key, eof);
        }
      } else {
        if node.compr && j > 0 {
          EndedInside(root, path, node, q, ele, j);
        } else {
          SameKey(root, ele);
        }
        NextStep(false, q);
        AboveFromSame(root, ele, q, key, eof);
      }
    }

    /** The "<" half of raxSeek, after the walk. */
    method SeekBelow(ele: Key, i: nat, j: nat)
      requires !eof && PathOk(path) && At(root, path, stack, node, PathKey(path))
      requires StopsAt(root, ele, Stop(i, node, path, j))
      requires key == ele[..i - j]
      modifies this
      ensures justSeeked == old(justSeeked)
      ensures if eof then forall k: Key :: IsKey(root, k) ==> !Less(k, ele)
              else OnKey() && LastBelow(root, ele, key)
    {
      hide Good, PathKey, Trail, Plug, Less, LastBelow, IsKey, Nodes;
      ghost var q := PathKey(path);
      StopKey(root, ele, Stop(i, node, path, j));
      assert key == q;
      if i < |ele| && !node.compr {
        MissedEdge(root, path, node, q, ele[i], ele[i + 1..]);
        assert ele == q + [ele[i]] + ele[i + 1..];
        key := key + [ele[i]];
        PrevStep(true, q);
        BelowFromSame(root, ele, q + [ele[i]], key, eof);
      } else if i < |ele| {
        MissedByte(root, path, node, q, ele, j);
        if node.edges[j] < ele[i] {
          GreatestBelow(root, path, node, q, ele, j);
          SeekGreatest();
          data := node.key;
        } else {
          ghost var p := q + node.edges;
          assert p[|q|..] == node.edges;
          key := key + node.edges;
          PrevStep(true, q);
          BelowFromSame(root, ele, p, key, eof);
        }
      } else if node.compr && j > 0 {
        EndedInside(root, path, node, q, ele, j);
        if node.key.Some? {
          data := node.key;
        } else {
          PrevStep(false, q);
          BelowFromSame(root, ele, q, key, eof);
        }
      } else {
        SameKey(root, ele);
        PrevStep(false, q);
        BelowFromSame(root, ele, q, key, eof);
      }
    }

    /** raxSeek with a parsed operator, on a tree that holds keys. */
    method SeekTo(op: SeekOp, ele: Key)
      requires Good(root) && !op.First?
      modifies this
      ensures justSeeked && Lands(root, op, ele, key, eof)
      ensures !eof ==> OnKey()
    {
      hide Good, PathKey, Trail, Plug, Less, LastBelow, FirstAbove, Get, Nodes;
      eof, justSeeked := false, true;
      key := [];
      if op.Last? {
        AtRoot(root);
        node, stack, path := root, [], [];
        SeekGreatest();
        data := node.key;
        LandsLast(root, ele, key);
        return;
      }
      var i, j := WalkTo(ele);
      ghost var stop := Stop(i, node, path, j);
      StopKey(root, ele, stop);
      StopDecides(root, ele, stop);
      if (op.Eq? || op.Le? || op.Ge?) && i == |ele| && (!node.compr || j == 0) && node.key.Some? {
        key := ele;
        data := node.key;
        LandsOn(root, op, ele);
      } else if op.Eq? {
        eof := true;
        LandsNowhere(root, ele);
      } else {
        key := ele[..i - j];
        if op.Gt? || op.Ge? {
          SeekAbove(ele, i, j);
        } else {
          SeekBelow(ele, i, j);
        }
        LandsBeside(root, op, ele, key, eof);
      }
    }

    /** raxSeek: false for an unknown operator; the element is ignored by "^" and "$". */
    method Seek(op: string, ele: Key) returns (ok: bool)
      requires (Good(root) || root == EMPTY) && numele == Tally(root, false)
      modifies this
      ensures ok <==> op != "" && op[0] in "><=^$"
      ensures ok ==> justSeeked && Answers(root, op, ele, key, eof)
      ensures ok && !eof ==> OnKey()
    {
      SpelledOut(op);
      if ParseOp(op).None? {
        eof, justSeeked, key, stack, path := false, true, [], [], [];
        return false;
      }
      SeekParsed(ParseOp(op).value, ele);
      LandsAnswers(root, op, ele, key, eof);
      ok := true;
    }

    method SeekParsed(op: SeekOp, ele: Key)
      requires (Good(root) || root == EMPTY) && numele == Tally(root, false)
      modifies this
      ensures justSeeked && Lands(root, op, ele, key, eof) && (!eof ==> OnKey())
    {
      hide Lands, Good, Less, At;
      eof, justSeeked, key, stack, path := false, true, [], [], [];
      KeysCounted(root);
      if numele == 0 {
        eof := true;
        EmptyLands(root, op, ele, key);
        return;
      }
      if op.First? {
        SeekTo(Ge, []);
        FirstIsAboveNothing(root, ele, key, eof);
      } else {
        SeekTo(op, ele);
      }
    }

    /** raxNext: the element of a fresh seek, or the least stored key above the current one. */
    method Next() returns (more: bool)
      requires !eof ==> OnKey()
      modifies this
      ensures more <==> !eof
      ensures !eof ==> OnKey()
      ensures old(eof) ==> eof
      ensures !old(eof) && old(justSeeked) ==> !eof && key == old(key) && !justSeeked
      ensures !old(eof) && !old(justSeeked) && !eof ==> FirstAbove(root, old(key), key) && !justSeeked
      ensures !old(eof) && !old(justSeeked) && eof ==> forall k: Key :: IsKey(root, k) ==> !Less(old(key), k)
    {
      if eof {
        return false;
      }
      if justSeeked {
        justSeeked := false;
        return true;
      }
      NextStep(false, key);
      more := !eof;
    }

    /**
      Calling raxNext until it returns 0 after a seek: the element sought and every stored key above
      it, each once and in strictly increasing order.
    */
    method Remaining(ghost keys: set<Key>) returns (out: seq<Key>)
      requires !eof ==> OnKey() && justSeeked
      requires forall k: Key :: k in keys <==> IsKey(root, k)
      modifies this
      ensures eof && Increasing(out)
      ensures old(eof) ==> out == []
      ensures !old(eof) ==> forall k: Key :: k in out <==> IsKey(root, k) && (k == old(key) || Less(old(key), k))
    {
      hide Less, IsKey, At, FirstAbove;
      out := [];
      ghost var start := key;
      var more := Next();
      if !more {
        return;
      }
      while more
        invariant more <==> !eof
        invariant !eof ==> OnKey() && !justSeeked
        invariant Increasing(out)
        invariant more && out != [] ==> Less(out[|out| - 1], key)
        invariant forall k: Key :: IsKey(root, k) && (k == start || Less(start, k))
                    <==> k in out || (more && IsKey(root, k) && (k == key || Less(key, k)))
        decreases if more then |KeysAbove(keys, key)| + 1 else 0
      {
        ghost var last, before := key, out;
        KeyHere(root, path, stack, node, key);
        IncreasingMore(out, key);
        out := out + [key];
        more := Next();
        if more {
          FewerAbove(root, keys, last, key);
          StepsOver(root, last, key);
        }
        Collected(root, before, out, last, key, more);
      }
    }
  }

  ghost predicate Increasing(s: seq<Key>) {
    forall i, j | 0 <= i < j < |s| :: Less(s[i], s[j])
  }

  ghost function KeysAbove(keys: set<Key>, p: Key): set<Key> {
    set k | k in keys && Less(p, k)
  }

  lemma IncreasingMore(s: seq<Key>, k: Key)
    requires Increasing(s) && (s != [] ==> Less(s[|s| - 1], k))
    ensures Increasing(s + [k])
  {
    var t := s + [k];
    forall i, j | 0 <= i < j < |t|
      ensures Less(t[i], t[j])
    {
      if j == |s| && i < |s| - 1 {
        LessTransitive(s[i], s[|s| - 1], k);
      }
    }
  }

  lemma KeyHere(root: Node, path: Path, stack: seq<Node>, n: Node, key: Key)
    requires At(root, path, stack, n, key) && n.key.Some?
    ensures IsKey(root, key)
  {
    NodeKey(root, path, n, key);
  }

  /** Stepping to the first key above leaves fewer keys above. */
  lemma FewerAbove(root: Node, keys: set<Key>, last: Key, key: Key)
    requires FirstAbove(root, last, key) && (key in keys <==> IsKey(root, key))
    ensures |KeysAbove(keys, key)| < |KeysAbove(keys, last)|
    ensures Less(last, key)
  {
    var a, b := KeysAbove(keys, key), KeysAbove(keys, last);
    LessTotal(key, key);
    assert key in b && key !in a;
    forall k | k in a
      ensures k in b
    {
      LessTransitive(last, key, k);
    }
    Smaller(a, b, key);
  }

  lemma Smaller(a: set<Key>, b: set<Key>, x: Key)
    requires a <= b && x in b && x !in a
    ensures |a| < |b|
  {
    SubsetSize(a, b - {x});
  }

  /** Between a key and the first one above it there is nothing. */
  lemma StepsOver(root: Node, last: Key, key: Key)
    requires FirstAbove(root, last, key)
    ensures forall k: Key :: IsKey(root, k) ==> (Less(last, k) <==> k == key || Less(key, k))
  {
    forall k: Key | IsKey(root, k)
      ensures Less(last, k) <==> k == key || Less(key, k)
    {
      if Less(key, k) {
        LessTransitive(last, key, k);
      }
    }
  }

  lemma Collected(root: Node, before: seq<Key>, out: seq<Key>, last: Key, key: Key, more: bool)
    requires out == before + [last] && IsKey(root, last)
    requires more ==> forall k: Key :: IsKey(root, k) ==> (Less(last, k) <==> k == key || Less(key, k))
    requires !more ==> forall k: Key :: IsKey(root, k) ==> !Less(last, k)
    ensures forall k: Key :: k in before || (IsKey(root, k) && (k == last || Less(last, k)))
              <==> k in out || (more && IsKey(root, k) && (k == key || Less(key, k)))
  {
  }

  /** The operator as the first one or two characters spell it. */
  function ParseOp(op: string): Option<SeekOp> {
    if op == [] then None
    else if op[0] == '>' then Some(if |op| > 1 && op[1] == '=' then Ge else Gt)
    else if op[0] == '<' then Some(if |op| > 1 && op[1] == '=' then Le else Lt)
    else if op[0] == '=' then Some(Eq)
    else if op[0] == '^' then Some(First)
    else if op[0] == '$' then Some(Last)
    else None
  }

  lemma SpelledOut(op: string)
    ensures ParseOp(op).Some? <==> op != "" && op[0] in "><=^$"
  {
  }

  /** The least stored key with the property, or the end exactly when there is none. */
  ghost predicate AtLeast(root: Node, wanted: Key -> bool, key: Key, eof: bool) {
    if eof then forall k: Key :: IsKey(root, k) ==> !wanted(k)
    else IsKey(root, key) && wanted(key) && forall k: Key :: IsKey(root, k) && wanted(k) ==> k == key || Less(key, k)
  }

  /** The greatest one. */
  ghost predicate AtGreatest(root: Node, wanted: Key -> bool, key: Key, eof: bool) {
    if eof then forall k: Key :: IsKey(root, k) ==> !wanted(k)
    else IsKey(root, key) && wanted(key) && forall k: Key :: IsKey(root, k) && wanted(k) ==> k == key || Less(k, key)
  }

  /** What raxSeek promises for each operator, by the characters it begins with. */
  ghost predicate Answers(root: Node, op: string, ele: Key, key: Key, eof: bool) {
    && ("^" <= op ==> AtLeast(root, k => true, key, eof))
    && ("$" <= op ==> AtGreatest(root, k => true, key, eof))
    && ("=" <= op ==> AtLeast(root, k => k == ele, key, eof))
    && (">=" <= op ==> AtLeast(root, k => k == ele || Less(ele, k), key, eof))
    && (">" <= op && !(">=" <= op) ==> AtLeast(root, k => Less(ele, k), key, eof))
    && ("<=" <= op ==> AtGreatest(root, k => k == ele || Less(k, ele), key, eof))
    && ("<" <= op && !("<=" <= op) ==> AtGreatest(root, k => Less(k, ele), key, eof))
  }

  lemma LandsAnswers(root: Node, op: string, ele: Key, key: Key, eof: bool)
    requires ParseOp(op).Some? && Lands(root, ParseOp(op).value, ele, key, eof)
    ensures Answers(root, op, ele, key, eof)
  {
    hide Less, IsKey;
  }

  predicate Satisfies(op: SeekOp, ele: Key, k: Key) {
    match op
    case First => true
    case Last => true
    case Eq => k == ele
    case Lt => Less(k, ele)
    case Le => k == ele || Less(k, ele)
    case Gt => Less(ele, k)
    case Ge => k == ele || Less(ele, k)
  }

  /** Upward operators want the least satisfying key, downward ones the greatest. */
  predicate Downward(op: SeekOp) {
    op.Last? || op.Lt? || op.Le?
  }

  ghost predicate Lands(root: Node, op: SeekOp, ele: Key, key: Key, eof: bool) {
    if eof then forall k: Key :: IsKey(root, k) ==> !Satisfies(op, ele, k)
    else
      && IsKey(root, key) && Satisfies(op, ele, key)
      && forall k: Key :: IsKey(root, k) && Satisfies(op, ele, k) ==>
           k == key || (if Downward(op) then Less(k, key) else Less(key, k))
  }

  lemma StopKey(root: Node, ele: Key, stop: Stop)
    requires StopsAt(root, ele, stop)
    ensures stop.j <= stop.i && PathKey(stop.path) == ele[..stop.i - stop.j]
    ensures |PathKey(stop.path)| == stop.i - stop.j
    ensures stop.node.compr ==> PathKey(stop.path) + stop.node.edges[..stop.j] <= ele
    ensures stop.i == |ele| && !stop.node.compr ==> PathKey(stop.path) == ele
    ensures stop.i == |ele| && stop.node.compr ==> PathKey(stop.path) + stop.node.edges[..stop.j] == ele
    ensures stop.i == |ele| && stop.j == 0 ==> PathKey(stop.path) == ele
  {
    hide PathKey;
    var q := PathKey(stop.path);
    assert ele[..|ele|] == ele;
    if stop.node.compr {
      var part := stop.node.edges[..stop.j];
      assert |q + part| == |q| + stop.j;
      assert (q + part)[..|q|] == q;
      assert ele[..stop.i][..|q|] == ele[..|q|];
      assert stop.j == 0 ==> q + part == q;
    }
  }

  lemma SameKey(root: Node, ele: Key)
    ensures SameAbove(root, ele, ele) && SameBelow(root, ele, ele)
  {
  }

  lemma AboveFromSame(root: Node, ele: Key, p: Key, key: Key, eof: bool)
    requires SameAbove(root, ele, p)
    ensures !eof && FirstAbove(root, p, key) ==> FirstAbove(root, ele, key)
    ensures (forall k: Key :: IsKey(root, k) ==> !Less(p, k)) ==> forall k: Key :: IsKey(root, k) ==> !Less(ele, k)
  {
  }

  lemma AboveFromSameAfter(root: Node, ele: Key, p: Key, key: Key, eof: bool)
    requires SameAfter(root, ele, p)
    ensures !eof && FirstAfter(root, p, key) ==> FirstAbove(root, ele, key)
    ensures (forall k: Key :: IsKey(root, k) ==> !After(p, k)) ==> forall k: Key :: IsKey(root, k) ==> !Less(ele, k)
  {
  }

  lemma BelowFromSame(root: Node, ele: Key, p: Key, key: Key, eof: bool)
    requires SameBelow(root, ele, p)
    ensures !eof && LastBelow(root, p, key) ==> LastBelow(root, ele, key)
    ensures (forall k: Key :: IsKey(root, k) ==> !Less(k, p)) ==> forall k: Key :: IsKey(root, k) ==> !Less(k, ele)
  {
  }

  lemma AtRoot(root: Node)
    requires Good(root)
    ensures At(root, [], [], root, [])
  {
  }

  lemma LandsLast(root: Node, ele: Key, key: Key)
    requires Good(root) && key == [] + GreatestKey(root)
    ensures Lands(root, Last, ele, key, false)
  {
    assert key == GreatestKey(root);
    GreatestIsKey(root);
    forall k: Key | IsKey(root, k)
      ensures k == key || Less(k, key)
    {
      GreatestIsGreatest(root, k);
    }
  }

  lemma LandsOn(root: Node, op: SeekOp, ele: Key)
    requires op.Eq? || op.Le? || op.Ge?
    requires IsKey(root, ele)
    ensures Lands(root, op, ele, ele, false)
  {
  }

  lemma LandsNowhere(root: Node, ele: Key)
    requires !IsKey(root, ele)
    ensures Lands(root, Eq, ele, [], true)
  {
  }

  lemma LandsBeside(root: Node, op: SeekOp, ele: Key, key: Key, eof: bool)
    requires op.Lt? || op.Gt? || ((op.Le? || op.Ge?) && !IsKey(root, ele))
    requires op.Gt? || op.Ge? ==> if eof then forall k: Key :: IsKey(root, k) ==> !Less(ele, k)
                                  else FirstAbove(root, ele, key)
    requires op.Lt? || op.Le? ==> if eof then forall k: Key :: IsKey(root, k) ==> !Less(k, ele)
                                  else LastBelow(root, ele, key)
    ensures Lands(root, op, ele, key, eof)
  {
  }

  /** A tree counts no element exactly when it is the empty head. */
  lemma KeysCounted(root: Node)
    requires Good(root) || root == EMPTY
    ensures Tally(root, false) == 0 <==> root == EMPTY
  {
    if Good(root) {
      GoodCounts(root);
    }
  }

  lemma {:induction false} GoodCounts(n: Node)
    requires Good(n)
    ensures Tally(n, false) >= 1
    decreases n
  {
    if n.key.None? {
      GoodCounts(n.children[0]);
    }
  }

  lemma EmptyLands(root: Node, op: SeekOp, ele: Key, key: Key)
    requires root == EMPTY
    ensures Lands(root, op, ele, key, true)
  {
    forall k: Key
      ensures !IsKey(root, k)
    {
    }
  }

  lemma FirstIsAboveNothing(root: Node, ele: Key, key: Key, eof: bool)
    requires Lands(root, Ge, [], key, eof)
    ensures Lands(root, First, ele, key, eof)
  {
    forall k: Key
      ensures Satisfies(Ge, [], k)
    {
    }
  }

  lemma GoodIsOpen(n: Node)
    requires Good(n)
    ensures Open(n)
  {
  }

  lemma NothingBelowAll(root: Node, path: Path, stack: seq<Node>, n: Node, key: Key)
    requires At(root, path, stack, n, key) && stack == []
    ensures key == [] && forall k: Key :: !Less(k, key)
  {
    assert |Nodes(path)| == |path|;
  }

  lemma LastBelowSame(root: Node, p: Key, q: Key, t: Key)
    requires LastBelow(root, q, t)
    requires forall k: Key :: IsKey(root, k) ==> (Less(k, p) <==> Less(k, q))
    ensures LastBelow(root, p, t)
  {
  }

  /** The node at q is a stored key or not, and q comes before anything that hangs below it. */
  lemma NodeIsKey(root: Node, path: Path, n: Node, q: Key, tip: Key)
    requires Good(root) && Trail(root, path, n) && PathOk(path) && PathKey(path) == q && Tip(n, tip)
    ensures n.key.Some? <==> IsKey(root, q)
    ensures Less(q, q + tip)
  {
    GetTrail(root, path, n, []);
    assert q + [] == q;
    LessExtends(q, tip);
  }

  lemma SelfIsLast(root: Node, p: Key, edge: Key, q: Key)
    requires IsKey(root, q) && Less(q, edge)
    requires forall k: Key :: IsKey(root, k) && k != q ==> (Less(k, edge) <==> Less(k, q))
    requires forall k: Key :: IsKey(root, k) ==> (Less(k, p) <==> Less(k, edge))
    ensures LastBelow(root, p, q)
  {
  }

  lemma TipIsBehind(key: Key, base: Key)
    requires base <= key && |key| > |base|
    ensures |key| > 0
  {
  }

  lemma TipLast(n: Node, key: Key, q: Key, last: Byte)
    requires q <= key && Tip(n, key[|q|..]) && key != [] && last == key[|key| - 1]
    ensures key == q + key[|q|..]
    ensures |key| - |q| == if n.compr then |n.edges| else 1
    ensures key[..|q|] == q
    ensures !n.compr ==> key[|q|..][0] == last
  {
  }

  lemma AtFacts(root: Node, path: Path, stack: seq<Node>, n: Node, key: Key)
    requires At(root, path, stack, n, key)
    ensures Good(root) && Trail(root, path, n) && PathOk(path) && Good(n) && PathKey(path) == key
    ensures Shape(n) && forall i | 0 <= i < |n.children| :: Good(n.children[i])
  {
  }

  lemma NothingAfterAll(root: Node, path: Path, stack: seq<Node>, n: Node, key: Key)
    requires At(root, path, stack, n, key) && stack == []
    ensures key == [] && forall k: Key :: !After(key, k)
  {
    assert |Nodes(path)| == |path|;
  }

  lemma FirstAfterSame(root: Node, p: Key, q: Key, t: Key)
    requires FirstAfter(root, q, t)
    requires forall k: Key :: IsKey(root, k) ==> (After(p, k) <==> After(q, k))
    ensures FirstAfter(root, p, t)
  {
  }

  lemma LeafAbove(root: Node, path: Path, n: Node, p: Key)
    requires Good(root) && Trail(root, path, n) && PathOk(path) && PathKey(path) == p && n.children == []
    ensures forall k: Key :: IsKey(root, k) ==> (Less(p, k) <==> After(p, k))
  {
    forall k: Key | IsKey(root, k)
      ensures Less(p, k) <==> After(p, k)
    {
      NextOfLeaf(root, path, n, k);
    }
  }

  lemma AboveFromAfter(root: Node, p: Key, t: Key)
    requires FirstAfter(root, p, t)
    requires forall k: Key :: IsKey(root, k) ==> (Less(p, k) <==> After(p, k))
    ensures FirstAbove(root, p, t)
  {
  }

  lemma SettleLeast(root: Node, path: Path, stack: seq<Node>, n: Node, key: Key)
    requires At(root, path, stack, n, key)
    ensures n.key.Some? ==> key + LeastKey(n) == key
    ensures n.key.None? ==> n.children != [] && Good(n.children[0])
    ensures n.key.None? ==> key + LeastKey(n) == key + (Label(n, 0) + LeastKey(n.children[0]))
  {
  }

  lemma KeylessHasChild(n: Node)
    requires Good(n) && n.key.None?
    ensures n.children != [] && Good(n.children[0])
    ensures LeastKey(n) == Label(n, 0) + LeastKey(n.children[0])
  {
  }

  lemma LeafHasKey(n: Node)
    requires Good(n) && n.children == []
    ensures n.key.Some?
  {
  }
}
