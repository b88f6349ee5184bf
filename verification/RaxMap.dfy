/**
  The rax object of src/rax: a head and two counters. Over any run of insertions and removals it
  is the finite map the same run builds, its counters are exact, and freeing it ends at zero.
*/
module RaxMap {
  import opened Wrappers
  import opened RaxTree
  import opened Rax
  import opened RaxInsert
  import opened RaxMerged
  import RaxRemove

  type Map = map<Key, Value>

  function Lookup(m: Map, k: Key): Option<Value> {
    if k in m then Some(m[k]) else None
  }

  /** The tree stands for exactly this map. */
  ghost predicate Denotes(n: Node, m: Map) {
    forall k: Key :: Get(n, k) == Lookup(m, k)
  }

  ghost predicate AllFit(m: Map) {
    forall k | k in m :: |k| <= 536870911
  }

  datatype Op = Put(key: Key, value: Value, overwrite: bool) | Del(key: Key)

  /** The map after one operation. */
  function Apply(m: Map, op: Op): Map {
    match op
    case Put(k, v, overwrite) => if k in m && !overwrite then m else m[k := v]
    case Del(k) => m - {k}
  }

  function ApplyAll(m: Map, ops: seq<Op>): Map
    decreases |ops|
  {
    if ops == [] then m else Apply(ApplyAll(m, ops[..|ops| - 1]), ops[|ops| - 1])
  }

  /** What the caller sees of each operation: the value there was before. */
  function Outcomes(m: Map, ops: seq<Op>): seq<Option<Value>>
    decreases |ops|
  {
    if ops == [] then []
    else Outcomes(m, ops[..|ops| - 1]) + [Lookup(ApplyAll(m, ops[..|ops| - 1]), ops[|ops| - 1].key)]
  }

  lemma RunStart(m: Map, ops: seq<Op>)
    ensures ops[..0] == [] && ApplyAll(m, ops[..0]) == m && Outcomes(m, ops[..0]) == []
  {
  }

  lemma RunStep(m: Map, ops: seq<Op>, i: nat)
    requires i < |ops|
    ensures ApplyAll(m, ops[..i + 1]) == Apply(ApplyAll(m, ops[..i]), ops[i])
    ensures Outcomes(m, ops[..i + 1]) == Outcomes(m, ops[..i]) + [Lookup(ApplyAll(m, ops[..i]), ops[i].key)]
  {
    hide Apply;
    var next := ops[..i + 1];
    assert next[..|next| - 1] == ops[..i] && next[|next| - 1] == ops[i];
  }

  lemma EmptyDenotes()
    ensures Denotes(EMPTY, map[]) && Rooted(EMPTY)
    ensures Tally(EMPTY, false) == 0 && Tally(EMPTY, true) == 1 && Compact(EMPTY)
  {
    forall k: Key
      ensures Get(EMPTY, k) == None
    {
    }
  }

  lemma DenotesInserted(root: Node, r: Node, s: Key, data: Value, added: int, m: Map)
    requires Denotes(root, m) && Inserted(root, r, s, data, added)
    ensures Denotes(r, m[s := data]) && Rooted(r)
  {
  }

  // ---------------------------------------------------------------- a map whose keys lose bytes

  /** All keys behind the cut go through all of its bytes. */
  ghost predicate Passes(m: Map, cut: RaxRemove.Cut) {
    cut.Ok() && forall x | x in m && cut.at <= x :: cut.at + cut.bytes <= x
  }

  ghost function ShortKeys(keys: set<Key>, cut: RaxRemove.Cut): set<Key>
    requires cut.Ok()
  {
    set x | x in keys :: cut.Shorten(x)
  }

  /** The map with the keys behind the cut shortened. */
  ghost function Trimmed(m: Map, cut: RaxRemove.Cut): Map
    requires Passes(m, cut)
  {
    map k | k in ShortKeys(m.Keys, cut) :: ShortKeyFrom(m, cut, k); m[cut.Restored(k).value]
  }

  lemma ShortenRestores(cut: RaxRemove.Cut, x: Key)
    requires cut.Ok() && (cut.at <= x ==> cut.at + cut.bytes <= x)
    ensures cut.Restored(cut.Shorten(x)) == Some(x)
  {
    var stays := cut.at + cut.bytes[..cut.kept];
    if cut.at + cut.bytes <= x {
      var y := x[|cut.at| + |cut.bytes|..];
      assert x == cut.at + cut.bytes + y;
      assert (stays + y)[|cut.at| + cut.kept..] == y;
    } else {
      RaxRemove.PrefixOfPrefix(cut.at, cut.bytes[..cut.kept], x);
    }
  }

  lemma RestoredShortens(cut: RaxRemove.Cut, k: Key)
    requires cut.Ok() && cut.Restored(k).Some?
    ensures cut.Shorten(cut.Restored(k).value) == k
  {
    var stays := cut.at + cut.bytes[..cut.kept];
    if stays <= k {
      var y := k[|cut.at| + cut.kept..];
      assert k == stays + y;
      assert (cut.at + cut.bytes + y)[|cut.at| + |cut.bytes|..] == y;
    } else {
      RaxRemove.PrefixOfPrefix(cut.at, cut.bytes, k);
    }
  }

  lemma ShortKeyFrom(m: Map, cut: RaxRemove.Cut, k: Key)
    requires Passes(m, cut) && k in ShortKeys(m.Keys, cut)
    ensures cut.Restored(k).Some? && cut.Restored(k).value in m
  {
    var x :| x in m.Keys && k == cut.Shorten(x);
    ShortenRestores(cut, x);
  }

  lemma {:induction false} ShortKeysSize(m: Map, cut: RaxRemove.Cut, keys: set<Key>)
    requires Passes(m, cut) && keys <= m.Keys
    ensures |ShortKeys(keys, cut)| == |keys|
    decreases |keys|
  {
    hide RaxRemove.Cut.Shorten, RaxRemove.Cut.Restored;
    if keys != {} {
      var x :| x in keys;
      var fewer := keys - {x};
      ShortKeysSize(m, cut, fewer);
      assert ShortKeys(keys, cut) == ShortKeys(fewer, cut) + {cut.Shorten(x)};
      ShortenRestores(cut, x);
      forall y | y in fewer
        ensures cut.Shorten(y) != cut.Shorten(x)
      {
        ShortenRestores(cut, y);
      }
    }
  }

  /** Every entry is still there under its shortened key, and nothing else is. */
  lemma TrimmedHolds(m: Map, cut: RaxRemove.Cut)
    requires Passes(m, cut)
    ensures |Trimmed(m, cut)| == |m| && Trimmed(m, cut).Keys == ShortKeys(m.Keys, cut)
    ensures forall x | x in m :: cut.Shorten(x) in Trimmed(m, cut) && Trimmed(m, cut)[cut.Shorten(x)] == m[x]
  {
    hide RaxRemove.Cut.Shorten, RaxRemove.Cut.Restored;
    ShortKeysSize(m, cut, m.Keys);
    assert |m.Keys| == |m|;
    var t := Trimmed(m, cut);
    assert t.Keys == ShortKeys(m.Keys, cut);
    assert |t.Keys| == |t|;
    forall x | x in m
      ensures cut.Shorten(x) in t && t[cut.Shorten(x)] == m[x]
    {
      assert cut.Shorten(x) in ShortKeys(m.Keys, cut);
      ShortenRestores(cut, x);
    }
  }

  lemma DenotesCut(root: Node, r: Node, s: Key, freed: int, cut: RaxRemove.Cut, m: Map)
    requires Denotes(root, m) && RaxRemove.RemovedCut(root, r, s, freed, cut)
    ensures Passes(m - {s}, cut) && Denotes(r, Trimmed(m - {s}, cut)) && |Trimmed(m - {s}, cut)| == |m - {s}|
  {
    hide Get, Tally, Rooted, RaxRemove.Cut.Shorten, RaxRemove.Cut.Restored;
    var less := m - {s};
    forall x | x in less && cut.at <= x
      ensures cut.at + cut.bytes <= x
    {
      assert Get(root, x).Some?;
    }
    TrimmedHolds(less, cut);
    forall k: Key
      ensures Get(r, k) == Lookup(Trimmed(less, cut), k)
    {
      if k in ShortKeys(less.Keys, cut) {
        ShortKeyFrom(less, cut, k);
      } else if cut.Restored(k).Some? {
        RestoredShortens(cut, k);
      }
    }
  }

  /** A tree that stands for the map without the key is the tree after a removal. */
  lemma RemovedIfDenotes(root: Node, r: Node, s: Key, freed: int, cut: RaxRemove.Cut, m: Map)
    requires Denotes(root, m) && RaxRemove.RemovedCut(root, r, s, freed, cut)
    ensures Denotes(r, m - {s}) <==> RaxRemove.Removed(root, r, s, freed)
  {
    hide Get, Tally, Rooted, RaxRemove.Cut.Restored;
  }

  lemma DenotesOne(n: Node, a: Map, b: Map)
    requires Denotes(n, a)
    ensures Denotes(n, b) <==> a == b
  {
    hide Get;
    if Denotes(n, b) {
      forall k: Key
        ensures Lookup(a, k) == Lookup(b, k)
      {
        assert Get(n, k) == Lookup(a, k);
      }
      assert a.Keys == b.Keys by {
        forall k: Key
          ensures k in a <==> k in b
        {
          assert Lookup(a, k) == Lookup(b, k);
        }
      }
      forall k | k in a
        ensures a[k] == b[k]
      {
        assert Lookup(a, k) == Lookup(b, k);
      }
    }
  }

  /** All the object needs to know of a removal. */
  lemma AfterRemoval(root: Node, r: Node, s: Key, freed: int, cut: RaxRemove.Cut, m: Map)
    requires Denotes(root, m) && RaxRemove.RemovedCut(root, r, s, freed, cut) && s in m
    ensures Rooted(r) && Tally(r, false) == Tally(root, false) - 1 && Tally(r, true) == Tally(root, true) - freed
    ensures Passes(m - {s}, cut) && Denotes(r, Trimmed(m - {s}, cut)) && |Trimmed(m - {s}, cut)| == |m| - 1
    ensures Trimmed(m - {s}, cut) == m - {s} <==> RaxRemove.Removed(root, r, s, freed)
  {
    hide Denotes, Get, Tally, Rooted, RaxRemove.Removed, Trimmed, Passes;
    DenotesCut(root, r, s, freed, cut, m);
    RemovedIfDenotes(root, r, s, freed, cut, m);
    DenotesOne(r, Trimmed(m - {s}, cut), m - {s});
    assert (m - {s}).Keys == m.Keys - {s};
  }

  lemma DenotesFit(root: Node, m: Map)
    requires Denotes(root, m) && AllFit(m)
    ensures RaxRemove.KeysFit(root)
  {
  }

  /** The operation removes a key of the map at the end of this walk, and that makes an overrun. */
  ghost predicate Overran(m: Map, op: Op, outside: bool, stop: Stop) {
    && PathOk(stop.path)
    && var root := Plug(stop.path, stop.node);
    && op.Del? && op.key in m && Denotes(root, m) && StopsAt(root, op.key, stop)
    && RaxRemove.MakesOverrun(stop.path, stop.node)
    && (outside <==> RaxRemove.MakesLeavesRoom(stop.path, stop.node))
  }

  lemma OverranAt(root: Node, m: Map, op: Op, outside: bool, stop: Stop)
    requires op.Del? && op.key in m && Denotes(root, m) && StopsAt(root, op.key, stop)
    requires RaxRemove.MakesOverrun(stop.path, stop.node)
    requires outside <==> RaxRemove.MakesLeavesRoom(stop.path, stop.node)
    ensures Overran(m, op, outside, stop)
  {
    hide Denotes, Plug, RaxRemove.MakesOverrun, RaxRemove.MakesLeavesRoom;
  }

  class Tree {
    var head: Node
    var numele: int
    var numnodes: int
    ghost var contents: Map

    ghost predicate Valid()
      reads this
    {
      && Rooted(head) && Denotes(head, contents)
      && numele == Tally(head, false) == |contents| && numnodes == Tally(head, true)
    }

    /** raxNew. */
    constructor ()
      ensures Valid() && contents == map[] && Compact(head)
    {
      EmptyDenotes();
      head, numele, numnodes, contents := EMPTY, 0, 1, map[];
    }

    /** raxFind. */
    method Find(s: Key) returns (value: Option<Value>)
      requires Valid()
      ensures value == Lookup(contents, s)
    {
      RootedIsOpen(head);
      value := Rax.Find(head, s);
    }

    /** raxGenericInsert: returns 1 for a new element, and the old value of an existing one. */
    method Insert(s: Key, data: Value, overwrite: bool) returns (result: int, previous: Option<Value>)
      requires Valid()
      modifies this
      ensures Valid()
      ensures contents == Apply(old(contents), Put(s, data, overwrite))
      ensures previous == Lookup(old(contents), s)
      ensures result == if s in old(contents) then 0 else 1
      ensures old(Compact(head)) && |s| <= 536870911 ==> Compact(head)
    {
      hide Good, Compact, Get, Tally;
      var r, was, added := RaxInsert.Insert(head, s, data, overwrite);
      previous := was;
      if previous.None? || overwrite {
        DenotesInserted(head, r, s, data, added, contents);
        contents := contents[s := data];
      }
      head, numnodes := r, numnodes + added;
      result := if previous.None? then 1 else 0;
      numele := numele + result;
    }

    /**
      raxRemove: returns 1 if the element was there, and its value. When the recompressed chain overruns
      its node, which keys that fit a compressed node never bring about, the keys behind it are shortened;
      when the copy leaves even the memory of the node, nothing is said of the tree.
    */
    method Remove(s: Key) returns (result: int, previous: Option<Value>, overrun: bool, outside: bool, ghost stop: Stop)
      requires Valid()
      modifies this
      ensures result == (if s in old(contents) then 1 else 0) && previous == Lookup(old(contents), s)
      ensures StopsAt(old(head), s, stop)
      ensures overrun <==> s in old(contents) && RaxRemove.MakesOverrun(stop.path, stop.node)
      ensures outside <==> s in old(contents) && RaxRemove.MakesLeavesRoom(stop.path, stop.node)
      ensures (outside ==> overrun) && (AllFit(old(contents)) ==> !overrun)
      ensures !outside ==> Valid() && (contents == Apply(old(contents), Del(s)) <==> !overrun)
      ensures overrun && !outside ==>
                var less, cut := old(contents) - {s}, RaxRemove.RemovalCut(stop.path, stop.node);
                Passes(less, cut) && contents == Trimmed(less, cut)
      ensures s in old(contents) && AllFit(old(contents)) && old(Merged(head)) ==>
                (Merged(head) <==> !LeavesChain(old(head), s, false))
    {
      hide Good, Compact, Get, Tally, Merged, LeavesChain, Denotes, AllFit, Rooted, Passes, Trimmed;
      hide Plug, PathKey, Open, PathOk, RaxRemove.MakesOverrun, RaxRemove.MakesLeavesRoom;
      hide RaxRemove.RemovalCut, RaxRemove.Removed, RaxRemove.RemovedCut;
      if AllFit(contents) {
        DenotesFit(head, contents);
      }
      HeadGet(s);
      var r, freed;
      r, previous, freed, overrun, outside, stop := RaxRemove.Remove(head, s);
      if previous.Some? {
        ghost var less, cut := contents - {s}, RaxRemove.RemovalCut(stop.path, stop.node);
        AfterRemoval(head, r, s, freed, cut, contents);
        head, numnodes, numele, contents := r, numnodes - freed, numele - 1, Trimmed(less, cut);
        result := 1;
      } else {
        result := 0;
        assert contents - {s} == contents;
      }
    }

    lemma HeadGet(s: Key)
      requires Valid()
      ensures Get(head, s) == Lookup(contents, s)
    {
    }

    method Do(op: Op) returns (was: Option<Value>, overrun: bool, outside: bool, ghost stop: Stop)
      requires Valid()
      modifies this
      ensures was == Lookup(old(contents), op.key)
      ensures outside ==> overrun
      ensures overrun ==> op.Del? && op.key in old(contents) && StopsAt(old(head), op.key, stop)
                          && RaxRemove.MakesOverrun(stop.path, stop.node)
      ensures overrun ==> (outside <==> RaxRemove.MakesLeavesRoom(stop.path, stop.node))
      ensures !outside ==> Valid() && (contents == Apply(old(contents), op) <==> !overrun)
      ensures AllFit(old(contents)) ==> !overrun
      ensures AllFit(old(contents)) && |op.key| <= 536870911 ==> AllFit(contents)
      ensures old(Compact(head)) && op.Put? && |op.key| <= 536870911 ==> Compact(head)
    {
      hide Rooted, Compact, Denotes, Tally, StopsAt, RaxRemove.MakesOverrun, RaxRemove.MakesLeavesRoom, RaxRemove.RemovalCut;
      var result;
      overrun, outside, stop := false, false, Stop(0, EMPTY, [], 0);
      match op
      case Put(k, v, overwrite) =>
        result, was := Insert(k, v, overwrite);
      case Del(k) =>
        result, was, overrun, outside, stop := Remove(k);
    }

    /**
      Any run of operations, up to the first removal that overruns a node: until then the tree is the map
      the run builds, and every operation reports what that map held at its turn. The removal that ends
      the run early leaves another map. With keys that fit a compressed node the run goes to its end.
    */
    method Run(ops: seq<Op>) returns (done: nat, seen: seq<Option<Value>>, outside: bool, ghost stop: Stop)
      requires Valid()
      modifies this
      ensures done <= |ops| && seen == Outcomes(old(contents), ops[..done])
      ensures done == |ops| ==> Valid() && contents == ApplyAll(old(contents), ops)
      ensures done < |ops| ==> Overran(ApplyAll(old(contents), ops[..done]), ops[done], outside, stop)
      ensures done < |ops| && !outside ==> Valid() && contents != ApplyAll(old(contents), ops[..done + 1])
      ensures AllFit(old(contents)) && (forall i | 0 <= i < |ops| :: |ops[i].key| <= 536870911) ==> done == |ops|
      ensures old(Compact(head)) && (forall i | 0 <= i < |ops| :: ops[i].Put? && |ops[i].key| <= 536870911) ==> Compact(head)
    {
      hide Rooted, Compact, Denotes, Tally, Apply, AllFit, Valid, StopsAt, RaxRemove.MakesOverrun, RaxRemove.MakesLeavesRoom, Overran;
      done, seen, outside, stop := 0, [], false, Stop(0, EMPTY, [], 0);
      ghost var m := contents;
      RunStart(m, ops);
      while done < |ops|
        invariant 0 <= done <= |ops| && Valid() && !outside
        invariant contents == ApplyAll(m, ops[..done]) && seen == Outcomes(m, ops[..done])
        invariant AllFit(m) && (forall j | 0 <= j < done :: |ops[j].key| <= 536870911) ==> AllFit(contents)
        invariant old(Compact(head)) && (forall j | 0 <= j < done :: ops[j].Put? && |ops[j].key| <= 536870911) ==> Compact(head)
        decreases |ops| - done
      {
        RunStep(m, ops, done);
        ghost var tree, before := head, contents;
        HeadDenotes();
        var was, overrun;
        was, overrun, outside, stop := Do(ops[done]);
        if overrun {
          OverranAt(tree, before, ops[done], outside, stop);
          return;
        }
        seen := seen + [was];
        done := done + 1;
      }
      assert ops[..done] == ops;
    }

    lemma HeadDenotes()
      requires Valid()
      ensures Denotes(head, contents)
    {
    }

    /** raxFree: the counter of nodes reaches zero, which the original asserts. */
    method Free()
      requires Valid()
      modifies this
      ensures numnodes == 0
    {
      numnodes := RecursiveFree(head, numnodes);
    }
  }

  /** raxRecursiveFree: the children from last to first, then the node itself. */
  method RecursiveFree(n: Node, numnodes: int) returns (left: int)
    ensures left == numnodes - Tally(n, true)
    decreases n
  {
    left := numnodes;
    var i := |n.children|;
    assert n.children[..i] == n.children;
    while i > 0
      invariant 0 <= i <= |n.children|
      invariant left - TallyAll(n.children[..i], true) == numnodes - TallyAll(n.children, true)
    {
      i := i - 1;
      assert n.children[..i + 1] == n.children[..i] + [n.children[i]];
      TallyConcat(n.children[..i], [n.children[i]], true);
      TallyOne(n.children[i], true);
      left := RecursiveFree(n.children[i], left);
    }
    left := left - 1;
  }
}
