/**
  The nodes of the tree proofs and the bytes of src/rax/rax.c put together: the memmoves of
  raxAddChild and raxRemoveChild turn the bytes of a node into the bytes of the edited node.
*/
module RaxNodeBytes {
  import opened Bytes
  import opened RaxTree
  import RaxInsert
  import RaxRemove
  import opened RaxLayout

  /** The pointers of the children one after the other. */
  function Words(addresses: seq<seq<Byte>>): seq<Byte> {
    if addresses == [] then [] else addresses[0] + Words(addresses[1..])
  }

  ghost predicate AllWords(addresses: seq<seq<Byte>>) {
    forall i | 0 <= i < |addresses| :: |addresses[i]| == WORD
  }

  /** These bytes are an uncompressed node with its children at these addresses. */
  ghost predicate Image(buf: seq<Byte>, n: Node, addresses: seq<seq<Byte>>, value: seq<Byte>) {
    && !n.compr && |addresses| == |n.children| == |n.edges| && AllWords(addresses)
    && Holds(buf, n.edges, Words(addresses), value)
  }

  lemma {:induction false} WordsLength(addresses: seq<seq<Byte>>)
    requires AllWords(addresses)
    ensures |Words(addresses)| == WORD * |addresses|
    decreases |addresses|
  {
    if addresses != [] {
      WordsLength(addresses[1..]);
    }
  }

  lemma {:induction false} WordsConcat(a: seq<seq<Byte>>, b: seq<seq<Byte>>)
    ensures Words(a + b) == Words(a) + Words(b)
    decreases |a|
  {
    if a == [] {
      assert a + b == b;
    } else {
      assert (a + b)[1..] == a[1..] + b;
      WordsConcat(a[1..], b);
    }
  }

  lemma WordsSplit(addresses: seq<seq<Byte>>, i: nat)
    requires AllWords(addresses) && i <= |addresses|
    ensures Words(addresses) == Words(addresses[..i]) + Words(addresses[i..])
    ensures |Words(addresses[..i])| == WORD * i && |Words(addresses)| == WORD * |addresses|
    ensures Words(addresses)[..WORD * i] == Words(addresses[..i]) && Words(addresses)[WORD * i..] == Words(addresses[i..])
  {
    hide Words;
    assert addresses == addresses[..i] + addresses[i..];
    WordsConcat(addresses[..i], addresses[i..]);
    WordsLength(addresses[..i]);
    WordsLength(addresses);
  }

  lemma OneWord(x: seq<Byte>)
    ensures Words([x]) == x
  {
    var one: seq<seq<Byte>> := [x];
    assert one[1..] == [];
    assert x + [] == x;
  }

  lemma WordsInsert(addresses: seq<seq<Byte>>, i: nat, x: seq<Byte>)
    requires AllWords(addresses) && i <= |addresses|
    ensures WORD * i <= |Words(addresses)|
    ensures Words(addresses[..i] + [x] + addresses[i..]) == InsertPointer(Words(addresses), i, x)
  {
    hide Words;
    WordsSplit(addresses, i);
    WordsConcat(addresses[..i], [x]);
    WordsConcat(addresses[..i] + [x], addresses[i..]);
    OneWord(x);
  }

  lemma WordsDelete(addresses: seq<seq<Byte>>, i: nat)
    requires AllWords(addresses) && i < |addresses|
    ensures WORD * (i + 1) <= |Words(addresses)|
    ensures Words(addresses[..i] + addresses[i + 1..]) == DeletePointer(Words(addresses), i)
    ensures Words(addresses)[WORD * i..WORD * (i + 1)] == addresses[i]
  {
    hide Words;
    WordsSplit(addresses, i);
    WordsSplit(addresses, i + 1);
    WordsConcat(addresses[..i], addresses[i + 1..]);
    assert addresses[..i + 1] == addresses[..i] + [addresses[i]];
    WordsConcat(addresses[..i], [addresses[i]]);
    OneWord(addresses[i]);
    var w := Words(addresses);
    assert w[..WORD * (i + 1)][WORD * i..] == w[WORD * i..WORD * (i + 1)];
  }

  /** The place the byte scan finds is the place of the tree proofs. */
  lemma SamePlace(edges: seq<Byte>, c: Byte, pos: nat)
    requires Sorted(edges) && pos <= |edges|
    requires (forall i | 0 <= i < pos :: edges[i] <= c) && (pos < |edges| ==> edges[pos] > c)
    ensures pos == RaxInsert.InsertPos(edges, c)
  {
  }

  /** raxAddChild on the bytes of a node gives the bytes of the node with the new child. */
  method AddChild(node: array<Byte>, valueLen: nat, c: Byte, child: seq<Byte>,
                  n: Node, ghost addresses: seq<seq<Byte>>, ghost value: seq<Byte>)
    returns (r: array<Byte>, ghost more: seq<seq<Byte>>)
    requires Image(node[..], n, addresses, value) && Sorted(n.edges) && |value| == valueLen && |child| == WORD
    requires node.Length == Length(|n.edges|, valueLen)
    ensures fresh(r) && r.Length == Length(|n.edges| + 1, valueLen)
    ensures var pos := RaxInsert.InsertPos(n.edges, c);
            && more == addresses[..pos] + [child] + addresses[pos..]
            && Image(r[..], RaxInsert.AddChild(n, c, EMPTY), more, value)
  {
    hide Holds, Words, Length;
    var pos;
    r, pos := RaxLayout.AddChild(node, |n.edges|, valueLen, c, child, n.edges, Words(addresses), value);
    SamePlace(n.edges, c, pos);
    WordsInsert(addresses, pos, child);
    more := addresses[..pos] + [child] + addresses[pos..];
  }

  /** raxRemoveChild on the bytes of a node gives the bytes of the node without that child. */
  method RemoveChild(node: array<Byte>, valueLen: nat, n: Node, child: nat,
                     ghost addresses: seq<seq<Byte>>, ghost value: seq<Byte>, pointer: seq<Byte>)
    returns (r: array<Byte>, ghost less: seq<seq<Byte>>)
    requires Image(node[..], n, addresses, value) && |value| == valueLen && child < |n.children|
    requires pointer == addresses[child] && forall i | 0 <= i < |addresses| && i != child :: addresses[i] != pointer
    modifies node
    ensures fresh(r) && r.Length == Length(|n.edges| - 1, valueLen)
    ensures less == addresses[..child] + addresses[child + 1..]
    ensures Image(r[..], RaxRemove.RemoveChild(Frame(n, child)), less, value)
  {
    hide Holds, Words, Length;
    WordsDelete(addresses, child);
    var i;
    r, i := RaxLayout.RemoveChild(node, |n.edges|, valueLen, pointer, child, n.edges, Words(addresses), value);
    WordsDelete(addresses, i);
    less := addresses[..child] + addresses[child + 1..];
  }
}
