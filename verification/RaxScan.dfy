/**
  The radix tree of src/rax as an ordered map: a seek with any operator on a tree reached by any run
  of insertions and removals, and then next until the end.
*/
module RaxScan {
  import opened RaxTree
  import opened RaxOrder
  import opened RaxIterator
  import opened RaxMap

  lemma KeysOfMap(root: Node, m: Map)
    requires Denotes(root, m)
    ensures forall k: Key :: k in m <==> IsKey(root, k)
  {
  }

  /** The key is the least of the stored ones that are wanted, and with it comes every stored key above. */
  ghost predicate FromLeast(m: Map, wanted: Key -> bool, out: seq<Key>) {
    if out == [] then forall k | k in m :: !wanted(k)
    else
      && out[0] in m && wanted(out[0]) && (forall k | k in m && wanted(k) :: k == out[0] || Less(out[0], k))
      && forall k: Key :: k in out <==> k in m && (k == out[0] || Less(out[0], k))
  }

  ghost predicate FromGreatest(m: Map, wanted: Key -> bool, out: seq<Key>) {
    if out == [] then forall k | k in m :: !wanted(k)
    else
      && out[0] in m && wanted(out[0]) && (forall k | k in m && wanted(k) :: k == out[0] || Less(k, out[0]))
      && forall k: Key :: k in out <==> k in m && (k == out[0] || Less(out[0], k))
  }

  /** What a seek and the keys that follow are, for each operator. */
  ghost predicate Scanned(m: Map, op: string, ele: Key, out: seq<Key>) {
    && ("^" <= op ==> forall k: Key :: k in out <==> k in m)
    && (">=" <= op ==> forall k: Key :: k in out <==> k in m && (k == ele || Less(ele, k)))
    && (">" <= op && !(">=" <= op) ==> forall k: Key :: k in out <==> k in m && Less(ele, k))
    && ("=" <= op ==> FromLeast(m, k => k == ele, out))
    && ("$" <= op ==> if m == map[] then out == [] else |out| == 1 && out[0] in m && forall k | k in m :: k == out[0] || Less(k, out[0]))
    && ("<=" <= op ==> FromGreatest(m, k => k == ele || Less(k, ele), out))
    && ("<" <= op && !("<=" <= op) ==> FromGreatest(m, k => Less(k, ele), out))
  }

  /** The least of an increasing sequence comes first. */
  lemma FirstIsLeast(out: seq<Key>, start: Key)
    requires Increasing(out) && start in out && (forall k | k in out :: k == start || Less(start, k))
    ensures out[0] == start
  {
    hide Less;
    var i :| 0 <= i < |out| && out[i] == start;
    if i > 0 {
      assert out[0] in out && Less(out[0], out[i]);
      LessTotal(start, out[0]);
    }
  }

  /** The keys from the one sought on. */
  ghost predicate Onward(root: Node, key: Key, eof: bool, out: seq<Key>) {
    && (eof <==> out == [])
    && (!eof ==> out[0] == key && forall k: Key :: k in out <==> IsKey(root, k) && (k == key || Less(key, k)))
  }

  lemma OnwardLeast(root: Node, m: Map, wanted: Key -> bool, key: Key, eof: bool, out: seq<Key>)
    requires Denotes(root, m) && AtLeast(root, wanted, key, eof) && Onward(root, key, eof, out)
    ensures FromLeast(m, wanted, out)
  {
    hide Less, IsKey;
    KeysOfMap(root, m);
  }

  lemma OnwardGreatest(root: Node, m: Map, wanted: Key -> bool, key: Key, eof: bool, out: seq<Key>)
    requires Denotes(root, m) && AtGreatest(root, wanted, key, eof) && Onward(root, key, eof, out)
    ensures FromGreatest(m, wanted, out)
  {
    hide Less, IsKey;
    KeysOfMap(root, m);
  }

  /** When everything above a wanted key is wanted too, what comes out is exactly what is wanted. */
  lemma UpwardScan(m: Map, wanted: Key -> bool, out: seq<Key>)
    requires FromLeast(m, wanted, out) && forall a: Key, b: Key :: wanted(a) && Less(a, b) ==> wanted(b)
    ensures forall k: Key :: k in out <==> k in m && wanted(k)
  {
    hide Less;
  }

  lemma GreatestAlone(m: Map, wanted: Key -> bool, out: seq<Key>)
    requires FromGreatest(m, wanted, out) && Increasing(out) && forall k: Key :: wanted(k)
    ensures if m == map[] then out == [] else |out| == 1 && out[0] in m && forall k | k in m :: k == out[0] || Less(k, out[0])
  {
    hide Less;
    if |out| > 1 {
      assert out[1] in out && Less(out[0], out[1]);
      LessAsymmetric(out[0], out[1]);
    }
    if m != map[] {
      var k :| k in m;
      assert wanted(k);
    }
  }

  lemma LessAsymmetric(a: Key, b: Key)
    requires Less(a, b)
    ensures !Less(b, a) && a != b
  {
    hide Less;
    LessTotal(a, b);
  }

  lemma OnwardScanned(root: Node, m: Map, op: string, ele: Key, key: Key, eof: bool, out: seq<Key>)
    requires Denotes(root, m) && Answers(root, op, ele, key, eof) && Onward(root, key, eof, out) && Increasing(out)
    ensures Scanned(m, op, ele, out)
  {
    hide Less, IsKey, AtLeast, AtGreatest, FromLeast, FromGreatest, Onward, Denotes, Increasing;
    var c := if op == "" then ' ' else op[0];
    assert forall head: string | head <= op && head != "" :: head[0] == c;
    if "^" <= op {
      assert "^"[0] == c;
      OnwardLeast(root, m, k => true, key, eof, out);
      UpwardScan(m, k => true, out);
    } else if "$" <= op {
      OnwardGreatest(root, m, k => true, key, eof, out);
      GreatestAlone(m, k => true, out);
    } else if "=" <= op {
      OnwardLeast(root, m, k => k == ele, key, eof, out);
    } else if "<=" <= op {
      OnwardGreatest(root, m, k => k == ele || Less(k, ele), key, eof, out);
    } else if "<" <= op {
      OnwardGreatest(root, m, k => Less(k, ele), key, eof, out);
    } else {
      OnwardUp(root, m, op, ele, key, eof, out);
    }
  }

  lemma AnswersKey(root: Node, op: string, ele: Key, key: Key, eof: bool)
    requires op != "" && op[0] in "><=^$" && Answers(root, op, ele, key, eof) && !eof
    ensures IsKey(root, key)
  {
    hide Less, IsKey;
    assert op[..1] == [op[0]] && op[..1] <= op;
  }

  lemma OnwardUp(root: Node, m: Map, op: string, ele: Key, key: Key, eof: bool, out: seq<Key>)
    requires Denotes(root, m) && Answers(root, op, ele, key, eof) && Onward(root, key, eof, out)
    ensures ">=" <= op ==> forall k: Key :: k in out <==> k in m && (k == ele || Less(ele, k))
    ensures ">" <= op && !(">=" <= op) ==> forall k: Key :: k in out <==> k in m && Less(ele, k)
  {
    hide Less, IsKey, AtLeast, AtGreatest, FromLeast, FromGreatest, Onward, Denotes;
    forall a: Key, b: Key | Less(ele, a) && Less(a, b)
      ensures Less(ele, b)
    {
      LessTransitive(ele, a, b);
    }
    if ">=" <= op {
      OnwardLeast(root, m, k => k == ele || Less(ele, k), key, eof, out);
      UpwardScan(m, k => k == ele || Less(ele, k), out);
    } else if ">" <= op {
      OnwardLeast(root, m, k => Less(ele, k), key, eof, out);
      UpwardScan(m, k => Less(ele, k), out);
    }
  }

  /**
    Seek and next until the end, in strictly increasing order: for the upward operators exactly the keys
    that satisfy them, for the others the key they ask for and every stored key above it.
  */
  method Scan(t: Tree, op: string, ele: Key) returns (ok: bool, out: seq<Key>)
    requires t.Valid()
    ensures (ok <==> op != "" && op[0] in "><=^$") && Increasing(out) && (!ok ==> out == [])
    ensures ok ==> Scanned(t.contents, op, ele, out)
  {
    hide Less, Answers, Good, Tally, At, IsKey, Denotes, Scanned;
    out := [];
    var it := new Iterator(t.head, t.numele);
    ok := it.Seek(op, ele);
    if !ok {
      return;
    }
    KeysOfMap(t.head, t.contents);
    ghost var start, none := it.key, it.eof;
    if !none {
      AnswersKey(t.head, op, ele, start, none);
    }
    out := it.Remaining(t.contents.Keys);
    if !none {
      FirstIsLeast(out, start);
    }
    OnwardScanned(t.head, t.contents, op, ele, start, none, out);
  }
}
