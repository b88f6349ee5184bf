/**
  The doubly linked list of src/list/list.c: nodes that point at each other, edited in place.
*/
module LinkedList {
  class Node<T> {
    var prev: Node?<T>
    var next: Node?<T>
    var value: T

    constructor (value: T)
      ensures this.value == value && prev == null && next == null
    {
      this.value := value;
      prev, next := null, null;
    }
  }

  // ---------------------------------------------------------------- nodes and their pointers

  /** No node is in the list twice. */
  ghost predicate Distinct<T>(nodes: seq<Node<T>>) {
    forall i, j :: 0 <= i < j < |nodes| ==> nodes[i] != nodes[j]
  }

  ghost function Prevs<T>(nodes: seq<Node<T>>): (r: seq<Node?<T>>)
    reads nodes
    ensures |r| == |nodes|
  {
    seq(|nodes|, i requires 0 <= i < |nodes| reads nodes => nodes[i].prev)
  }

  ghost function Nexts<T>(nodes: seq<Node<T>>): (r: seq<Node?<T>>)
    reads nodes
    ensures |r| == |nodes|
  {
    seq(|nodes|, i requires 0 <= i < |nodes| reads nodes => nodes[i].next)
  }

  ghost function Values<T>(nodes: seq<Node<T>>): (r: seq<T>)
    reads nodes
    ensures |r| == |nodes|
  {
    seq(|nodes|, i requires 0 <= i < |nodes| reads nodes => nodes[i].value)
  }

  /** The pointers a node has by its place. */
  ghost function PrevOf<T>(nodes: seq<Node<T>>, i: nat): Node?<T>
    requires i < |nodes|
  {
    if i == 0 then null else nodes[i - 1]
  }

  ghost function NextOf<T>(nodes: seq<Node<T>>, i: nat): Node?<T>
    requires i < |nodes|
  {
    if i + 1 == |nodes| then null else nodes[i + 1]
  }

  /** Pointers that agree with the order of the nodes. */
  ghost predicate InOrder<T>(nodes: seq<Node<T>>, ps: seq<Node?<T>>, ns: seq<Node?<T>>) {
    && |ps| == |ns| == |nodes|
    && forall i :: 0 <= i < |nodes| ==> ps[i] == PrevOf(nodes, i) && ns[i] == NextOf(nodes, i)
  }

  function Without<T>(s: seq<T>, i: nat): (r: seq<T>)
    requires i < |s|
    ensures |r| == |s| - 1
  {
    s[..i] + s[i + 1..]
  }

  function With<T>(s: seq<T>, i: nat, x: T): (r: seq<T>)
    requires i <= |s|
    ensures |r| == |s| + 1
  {
    s[..i] + [x] + s[i..]
  }

  lemma WithoutAt<T>(s: seq<T>, i: nat)
    requires i < |s|
    ensures forall k | 0 <= k < |s| - 1 :: Without(s, i)[k] == s[if k < i then k else k + 1]
  {
  }

  lemma WithAt<T>(s: seq<T>, i: nat, x: T)
    requires i <= |s|
    ensures forall k | 0 <= k < i :: With(s, i, x)[k] == s[k]
    ensures With(s, i, x)[i] == x
    ensures forall k | i < k < |With(s, i, x)| :: With(s, i, x)[k] == s[k - 1]
  {
  }

  /** The first and the last node after an edit. */
  lemma WithoutEnds<T>(s: seq<T>, i: nat)
    requires i < |s| && |s| > 1
    ensures Without(s, i)[0] == s[if i == 0 then 1 else 0]
    ensures Without(s, i)[|s| - 2] == s[if i == |s| - 1 then |s| - 2 else |s| - 1]
  {
  }

  lemma WithEnds<T>(s: seq<T>, i: nat, x: T)
    requires i <= |s|
    ensures With(s, i, x)[0] == if i == 0 then x else s[0]
    ensures With(s, i, x)[|s|] == if i == |s| then x else s[|s| - 1]
    ensures With(s, 0, x) == [x] + s && With(s, |s|, x) == s + [x]
  {
  }

  lemma Alone<T>(nodes: seq<Node<T>>, i: nat)
    requires Distinct(nodes) && i < |nodes|
    ensures forall k | 0 <= k < |nodes| && k != i :: nodes[k] != nodes[i]
  {
  }

  lemma DistinctWithout<T>(nodes: seq<Node<T>>, i: nat)
    requires Distinct(nodes) && i < |nodes|
    ensures Distinct(Without(nodes, i)) && nodes[i] !in Without(nodes, i)
    ensures forall n | n in Without(nodes, i) :: n in nodes
  {
    hide Without;
    WithoutAt(nodes, i);
  }

  lemma DistinctWith<T>(nodes: seq<Node<T>>, i: nat, node: Node<T>)
    requires Distinct(nodes) && i <= |nodes| && node !in nodes
    ensures Distinct(With(nodes, i, node))
  {
    hide With;
    WithAt(nodes, i, node);
  }

  lemma PointersWithout<T>(nodes: seq<Node<T>>, i: nat)
    requires i < |nodes|
    ensures Prevs(Without(nodes, i)) == Without(Prevs(nodes), i) && Nexts(Without(nodes, i)) == Without(Nexts(nodes), i)
  {
    hide Without;
    WithoutAt(nodes, i);
    WithoutAt(Prevs(nodes), i);
    WithoutAt(Nexts(nodes), i);
  }

  lemma PointersWith<T>(nodes: seq<Node<T>>, i: nat, node: Node<T>)
    requires i <= |nodes|
    ensures Prevs(With(nodes, i, node)) == With(Prevs(nodes), i, node.prev)
    ensures Nexts(With(nodes, i, node)) == With(Nexts(nodes), i, node.next)
  {
    hide With;
    WithAt(nodes, i, node);
    WithAt(Prevs(nodes), i, node.prev);
    WithAt(Nexts(nodes), i, node.next);
  }

  /** The two writes of a deletion close the gap. */
  lemma OrderWithout<T>(nodes: seq<Node<T>>, ps: seq<Node?<T>>, ns: seq<Node?<T>>, i: nat)
    requires InOrder(nodes, ps, ns) && i < |nodes|
    ensures var ns2 := if i == 0 then ns else ns[i - 1 := NextOf(nodes, i)];
            var ps2 := if i + 1 == |nodes| then ps else ps[i + 1 := PrevOf(nodes, i)];
            InOrder(Without(nodes, i), Without(ps2, i), Without(ns2, i))
  {
    hide Without;
    var ns2 := if i == 0 then ns else ns[i - 1 := NextOf(nodes, i)];
    var ps2 := if i + 1 == |nodes| then ps else ps[i + 1 := PrevOf(nodes, i)];
    WithoutAt(nodes, i);
    WithoutAt(ps2, i);
    WithoutAt(ns2, i);
  }

  /** The two writes of an insertion, with the pointers of the new node. */
  lemma OrderWith<T>(nodes: seq<Node<T>>, ps: seq<Node?<T>>, ns: seq<Node?<T>>, i: nat, node: Node<T>)
    requires InOrder(nodes, ps, ns) && i <= |nodes|
    ensures var ns2 := if i == 0 then ns else ns[i - 1 := node];
            var ps2 := if i == |nodes| then ps else ps[i := node];
            var before := if i == 0 then null else nodes[i - 1];
            var behind := if i == |nodes| then null else nodes[i];
            InOrder(With(nodes, i, node), With(ps2, i, before), With(ns2, i, behind))
  {
    hide With;
    var ns2 := if i == 0 then ns else ns[i - 1 := node];
    var ps2 := if i == |nodes| then ps else ps[i := node];
    WithAt(nodes, i, node);
    WithAt(ps2, i, if i == 0 then null else nodes[i - 1]);
    WithAt(ns2, i, if i == |nodes| then null else nodes[i]);
  }

  /** node->next = x, seen from the whole list. */
  method SetNext<T>(node: Node<T>, x: Node?<T>, ghost nodes: seq<Node<T>>, ghost i: nat)
    requires Distinct(nodes) && i < |nodes| && nodes[i] == node
    modifies node`next
    ensures node.next == x && Nexts(nodes) == old(Nexts(nodes))[i := x] && Prevs(nodes) == old(Prevs(nodes))
  {
    hide Distinct;
    Alone(nodes, i);
    node.next := x;
  }

  /** node->prev = x. */
  method SetPrev<T>(node: Node<T>, x: Node?<T>, ghost nodes: seq<Node<T>>, ghost i: nat)
    requires Distinct(nodes) && i < |nodes| && nodes[i] == node
    modifies node`prev
    ensures node.prev == x && Prevs(nodes) == old(Prevs(nodes))[i := x] && Nexts(nodes) == old(Nexts(nodes))
  {
    hide Distinct;
    Alone(nodes, i);
    node.prev := x;
  }

  // ---------------------------------------------------------------- the list

  class List<T> {
    var head: Node?<T>
    var tail: Node?<T>
    var len: int
    ghost var nodes: seq<Node<T>>

    ghost predicate Valid()
      reads this, nodes
    {
      && len == |nodes| && Distinct(nodes) && InOrder(nodes, Prevs(nodes), Nexts(nodes))
      && head == (if nodes == [] then null else nodes[0])
      && tail == (if nodes == [] then null else nodes[|nodes| - 1])
    }

    /** list_new. */
    constructor ()
      ensures Valid() && nodes == []
    {
      head, tail, len, nodes := null, null, 0, [];
    }

    /** A new value for a node of the list. */
    method SetValue(node: Node<T>, value: T)
      requires Valid() && node in nodes
      modifies node`value
      ensures Valid() && node.value == value
    {
      hide Distinct, InOrder;
      ghost var ps, ns := Prevs(nodes), Nexts(nodes);
      node.value := value;
      assert Prevs(nodes) == ps && Nexts(nodes) == ns;
    }

    /** list_add_node_head. */
    method AddHead(value: T) returns (node: Node<T>)
      requires Valid()
      modifies this, nodes
      ensures Valid() && fresh(node) && node.value == value
      ensures nodes == [node] + old(nodes)
      ensures forall n | n in old(nodes) :: n.value == old(n.value)
    {
      hide Distinct, InOrder, Prevs, Nexts, With, Without;
      node := new Node(value);
      OrderWith(nodes, Prevs(nodes), Nexts(nodes), 0, node);
      DistinctWith(nodes, 0, node);
      if len == 0 {
        head, tail := node, node;
        node.prev, node.next := null, null;
      } else {
        node.prev := null;
        node.next := head;
        SetPrev(head, node, nodes, 0);
        head := node;
      }
      PointersWith(nodes, 0, node);
      len := len + 1;
      WithEnds(nodes, 0, node);
      nodes := With(nodes, 0, node);
    }

    /** list_add_node_tail. */
    method AddTail(value: T) returns (node: Node<T>)
      requires Valid()
      modifies this, nodes
      ensures Valid() && fresh(node) && node.value == value
      ensures nodes == old(nodes) + [node]
      ensures forall n | n in old(nodes) :: n.value == old(n.value)
    {
      hide Distinct, InOrder, Prevs, Nexts, With, Without;
      node := new Node(value);
      ghost var n := |nodes|;
      OrderWith(nodes, Prevs(nodes), Nexts(nodes), n, node);
      DistinctWith(nodes, n, node);
      if len == 0 {
        head, tail := node, node;
        node.prev, node.next := null, null;
      } else {
        node.prev := tail;
        node.next := null;
        SetNext(tail, node, nodes, n - 1);
        tail := node;
      }
      PointersWith(nodes, n, node);
      len := len + 1;
      WithEnds(nodes, n, node);
      nodes := With(nodes, n, node);
    }

    lemma Pointers(i: nat)
      requires Valid() && i < |nodes|
      ensures nodes[i].prev == PrevOf(nodes, i) && nodes[i].next == NextOf(nodes, i)
      ensures head == nodes[i] <==> i == 0
      ensures tail == nodes[i] <==> i == |nodes| - 1
    {
      assert Prevs(nodes)[i] == nodes[i].prev && Nexts(nodes)[i] == nodes[i].next;
    }

    /** list_insert_node: before or after a node of the list. */
    method Insert(at: Node<T>, value: T, after: bool, ghost i: nat) returns (node: Node<T>)
      requires Valid() && i < |nodes| && nodes[i] == at
      modifies this, nodes
      ensures Valid() && fresh(node) && node.value == value
      ensures nodes == With(old(nodes), if after then i + 1 else i, node)
      ensures forall n | n in old(nodes) :: n.value == old(n.value)
    {
      hide Distinct, InOrder, Prevs, Nexts, With, Without;
      node := new Node(value);
      Pointers(i);
      if after {
        node.prev := at;
        node.next := at.next;
        if tail == at {
          tail := node;
        }
      } else {
        node.next := at;
        node.prev := at.prev;
        if head == at {
          head := node;
        }
      }
      LinkIn(node, if after then i + 1 else i);
    }

    /** The second half of list_insert_node: the neighbours point at the new node. */
    method LinkIn(node: Node<T>, ghost k: nat)
      requires len == |nodes| && k <= |nodes| && nodes != [] && node !in nodes && Distinct(nodes)
      requires InOrder(nodes, Prevs(nodes), Nexts(nodes))
      requires node.prev == (if k == 0 then null else nodes[k - 1]) && node.next == (if k == |nodes| then null else nodes[k])
      requires head == (if k == 0 then node else nodes[0]) && tail == if k == |nodes| then node else nodes[|nodes| - 1]
      modifies this, nodes
      ensures Valid() && nodes == With(old(nodes), k, node)
      ensures forall n | n in old(nodes) :: n.value == old(n.value)
      ensures node.value == old(node.value)
    {
      hide Distinct, InOrder, Prevs, Nexts, With, Without;
      OrderWith(nodes, Prevs(nodes), Nexts(nodes), k, node);
      DistinctWith(nodes, k, node);
      if node.prev != null {
        SetNext(node.prev, node, nodes, k - 1);
      }
      if node.next != null {
        SetPrev(node.next, node, nodes, k);
      }
      PointersWith(nodes, k, node);
      WithEnds(nodes, k, node);
      len := len + 1;
      nodes := With(nodes, k, node);
    }

    /** list_del_node. */
    method Delete(node: Node<T>, ghost i: nat)
      requires Valid() && i < |nodes| && nodes[i] == node
      modifies this, nodes
      ensures Valid() && nodes == Without(old(nodes), i)
      ensures forall n | n in old(nodes) :: n.value == old(n.value)
    {
      hide Distinct, InOrder, Prevs, Nexts, With, Without;
      Pointers(i);
      OrderWithout(nodes, Prevs(nodes), Nexts(nodes), i);
      DistinctWithout(nodes, i);
      if node.prev != null {
        SetNext(node.prev, node.next, nodes, i - 1);
      } else {
        head := node.next;
      }
      if node.next != null {
        SetPrev(node.next, node.prev, nodes, i + 1);
      } else {
        tail := node.prev;
      }
      PointersWithout(nodes, i);
      if |nodes| > 1 {
        WithoutEnds(nodes, i);
      }
      len := len - 1;
      nodes := Without(nodes, i);
    }

    /** list_move_head. */
    method MoveHead(node: Node<T>, ghost i: nat)
      requires Valid() && i < |nodes| && nodes[i] == node
      modifies this, nodes
      ensures Valid() && nodes == [node] + Without(old(nodes), i)
      ensures forall n | n in old(nodes) :: n.value == old(n.value)
    {
      hide Distinct, InOrder, Prevs, Nexts;
      Pointers(i);
      if node.prev == null {
        assert nodes == [node] + Without(nodes, 0);
        return;
      }
      hide Without;
      Detach(node, i);
      PutFirst(node);
    }

    /** The first half of list_move_head: the node, which is not the first, leaves the list. */
    method Detach(node: Node<T>, ghost i: nat)
      requires Valid() && 0 < i < |nodes| && nodes[i] == node
      modifies this, nodes
      ensures len == |nodes| + 1 && nodes == Without(old(nodes), i) && node !in nodes && nodes != []
      ensures forall n | n in nodes :: n in old(nodes)
      ensures Distinct(nodes) && InOrder(nodes, Prevs(nodes), Nexts(nodes))
      ensures head == nodes[0] && tail == nodes[|nodes| - 1]
      ensures forall n | n in old(nodes) :: n.value == old(n.value)
    {
      hide Distinct, InOrder, Prevs, Nexts, Without;
      Pointers(i);
      OrderWithout(nodes, Prevs(nodes), Nexts(nodes), i);
      DistinctWithout(nodes, i);
      SetNext(node.prev, node.next, nodes, i - 1);
      if node.next != null {
        SetPrev(node.next, node.prev, nodes, i + 1);
      } else {
        tail := node.prev;
      }
      PointersWithout(nodes, i);
      WithoutEnds(nodes, i);
      nodes := Without(nodes, i);
    }

    /** The second half: the node becomes the head. */
    method PutFirst(node: Node<T>)
      requires len == |nodes| + 1 && node !in nodes && nodes != [] && Distinct(nodes)
      requires InOrder(nodes, Prevs(nodes), Nexts(nodes)) && head == nodes[0] && tail == nodes[|nodes| - 1]
      modifies this, node`prev, node`next, nodes
      ensures Valid() && nodes == [node] + old(nodes) && node.value == old(node.value)
      ensures forall n | n in old(nodes) :: n.value == old(n.value)
    {
      hide Distinct, InOrder, Prevs, Nexts, With;
      OrderWith(nodes, Prevs(nodes), Nexts(nodes), 0, node);
      DistinctWith(nodes, 0, node);
      node.prev := null;
      node.next := head;
      if head != null {
        SetPrev(head, node, nodes, 0);
      }
      head := node;
      PointersWith(nodes, 0, node);
      WithEnds(nodes, 0, node);
      nodes := With(nodes, 0, node);
    }
  }
}
