/**
  The pointers of __quick_list_insert_node in src/list/quicklist.c: a node linked in before or after
  another one, or into an empty list.
*/
module QuicklistLinks {
  import opened LinkedList

  /** The new node behind a node of the list. */
  method LinkAfter<T>(list: List<T>, at: Node<T>, node: Node<T>, ghost i: nat)
    requires list.Valid() && i < |list.nodes| && list.nodes[i] == at && node !in list.nodes
    modifies list, list.nodes, node`prev, node`next
    ensures list.Valid() && list.nodes == With(old(list.nodes), i + 1, node)
    ensures forall n | n in old(list.nodes) :: n.value == old(n.value)
    ensures node.value == old(node.value)
  {
    hide Distinct, InOrder, Prevs, Nexts, With;
    ghost var nodes := list.nodes;
    list.Pointers(i);
    OrderWith(nodes, Prevs(nodes), Nexts(nodes), i + 1, node);
    DistinctWith(nodes, i + 1, node);
    node.prev := at;
    node.next := at.next;
    if at.next != null {
      SetPrev(at.next, node, nodes, i + 1);
    }
    SetNext(at, node, nodes, i);
    PointersWith(nodes, i + 1, node);
    WithEnds(nodes, i + 1, node);
    if list.tail == at {
      list.tail := node;
    }
    list.len := list.len + 1;
    list.nodes := With(nodes, i + 1, node);
  }

  /** The new node before a node of the list. */
  method LinkBefore<T>(list: List<T>, at: Node<T>, node: Node<T>, ghost i: nat)
    requires list.Valid() && i < |list.nodes| && list.nodes[i] == at && node !in list.nodes
    modifies list, list.nodes, node`prev, node`next
    ensures list.Valid() && list.nodes == With(old(list.nodes), i, node)
    ensures forall n | n in old(list.nodes) :: n.value == old(n.value)
    ensures node.value == old(node.value)
  {
    hide Distinct, InOrder, Prevs, Nexts, With;
    ghost var nodes := list.nodes;
    list.Pointers(i);
    OrderWith(nodes, Prevs(nodes), Nexts(nodes), i, node);
    DistinctWith(nodes, i, node);
    node.next := at;
    node.prev := at.prev;
    if at.prev != null {
      SetNext(at.prev, node, nodes, i - 1);
    }
    SetPrev(at, node, nodes, i);
    PointersWith(nodes, i, node);
    WithEnds(nodes, i, node);
    if list.head == at {
      list.head := node;
    }
    list.len := list.len + 1;
    list.nodes := With(nodes, i, node);
  }

  /** Both, or the first node of an empty list, where there is no other node. */
  method LinkNode<T>(list: List<T>, at: Node?<T>, node: Node<T>, after: bool, ghost i: nat)
    requires list.Valid() && node !in list.nodes && node.prev == null && node.next == null
    requires if at == null then list.nodes == [] else i < |list.nodes| && list.nodes[i] == at
    modifies list, list.nodes, node`prev, node`next
    ensures list.Valid()
    ensures list.nodes == if at == null then [node] else With(old(list.nodes), if after then i + 1 else i, node)
    ensures forall n | n in old(list.nodes) :: n.value == old(n.value)
    ensures node.value == old(node.value)
  {
    if at == null {
      list.head, list.tail := node, node;
      list.len := list.len + 1;
      list.nodes := [node];
    } else if after {
      LinkAfter(list, at, node, i);
    } else {
      LinkBefore(list, at, node, i);
    }
  }

  /** A new node at one end of the list, next to the node that was there. */
  method LinkEnd<T>(list: List<T>, value: T, front: bool) returns (was: Node?<T>, node: Node<T>)
    requires list.Valid()
    modifies list, list.nodes
    ensures list.Valid() && fresh(node) && list.nodes == if front then [node] + old(list.nodes) else old(list.nodes) + [node]
    ensures Values(list.nodes) == if front then [value] + old(Values(list.nodes)) else old(Values(list.nodes)) + [value]
    ensures if old(list.nodes) == [] then was == null else was == list.nodes[if front then 1 else |list.nodes| - 2]
    ensures forall i | 0 <= i < |list.nodes| :: list.nodes[i] in old(list.nodes) || fresh(list.nodes[i])
  {
    hide Distinct, InOrder, Prevs, Nexts, With;
    was := if front then list.head else list.tail;
    node := new Node(value);
    ghost var nodes := list.nodes;
    ghost var i := if front || nodes == [] then 0 else |nodes| - 1;
    LinkNode(list, was, node, !front, i);
    WithEnds(nodes, 0, node);
    if nodes != [] && !front {
      assert i + 1 == |nodes|;
    }
  }
}
