/**
  The cache of src/cache/lru_cache.c: a list of key and value pairs in the order of their last use,
  and a dictionary that points each key at its node.
*/
module LruCache {
  import opened Powers
  import opened Wrappers
  import opened DictTable
  import opened Dict
  import opened LinkedList
  import opened CacheHistory

  type Entry<K, V> = Node<Pair<K, V>>

  // ---------------------------------------------------------------- the index and the order

  ghost predicate HasKey<K, V>(items: seq<Pair<K, V>>, k: K) {
    exists i :: 0 <= i < |items| && items[i].key == k
  }

  /** The index points the key of every node at that node, and holds nothing else. */
  ghost predicate Indexed<K, V>(nodes: seq<Entry<K, V>>, items: seq<Pair<K, V>>, index: map<K, Entry<K, V>>) {
    && |items| == |nodes|
    && (forall i :: 0 <= i < |items| ==> items[i].key in index && index[items[i].key] == nodes[i])
    && (forall k | k in index :: HasKey(items, k))
  }

  /** The items are the bindings of the map. */
  ghost predicate Bound<K, V>(items: seq<Pair<K, V>>, entries: map<K, V>, keys: set<K>) {
    && entries.Keys == keys
    && (forall i :: 0 <= i < |items| ==> items[i].key in entries && entries[items[i].key] == items[i].val)
  }

  /** Recently used first: the time of last use falls along the list and is always in the past. */
  ghost predicate ByUse<K, V>(items: seq<Pair<K, V>>, used: map<K, nat>, now: nat) {
    && (forall i :: 0 <= i < |items| ==> items[i].key in used && used[items[i].key] < now)
    && (forall i, j :: 0 <= i < j < |items| ==> items[i].key in used && items[j].key in used && used[items[i].key] > used[items[j].key])
  }

  lemma KeyAt<K, V>(nodes: seq<Entry<K, V>>, items: seq<Pair<K, V>>, index: map<K, Entry<K, V>>, k: K) returns (i: nat)
    requires Indexed(nodes, items, index) && k in index
    ensures i < |nodes| && items[i].key == k && nodes[i] == index[k]
  {
    assert HasKey(items, k);
    i :| 0 <= i < |items| && items[i].key == k;
  }

  /** Different places hold different keys. */
  lemma KeysApart<K, V>(nodes: seq<Entry<K, V>>, items: seq<Pair<K, V>>, index: map<K, Entry<K, V>>, i: nat)
    requires Indexed(nodes, items, index) && Distinct(nodes) && i < |items|
    ensures forall j | 0 <= j < |items| && j != i :: items[j].key != items[i].key
  {
    hide Distinct;
    Alone(nodes, i);
  }

  function First<T>(s: seq<T>, i: nat, x: T): (r: seq<T>)
    requires i < |s|
    ensures |r| == |s|
  {
    [x] + Without(s, i)
  }

  lemma FirstAt<T>(s: seq<T>, i: nat, x: T)
    requires i < |s|
    ensures First(s, i, x)[0] == x
    ensures forall j | 0 < j < |s| :: First(s, i, x)[j] == s[if j <= i then j - 1 else j]
  {
  }

  // ---------------------------------------------------------------- using an entry

  lemma UseIndexed<K, V>(nodes: seq<Entry<K, V>>, items: seq<Pair<K, V>>, index: map<K, Entry<K, V>>, i: nat, v: V)
    requires Indexed(nodes, items, index) && i < |items|
    ensures Indexed(First(nodes, i, nodes[i]), First(items, i, Pair(items[i].key, v)), index)
  {
    hide First;
    var k := items[i].key;
    var items2 := First(items, i, Pair(k, v));
    FirstAt(nodes, i, nodes[i]);
    FirstAt(items, i, Pair(k, v));
    forall x | x in index
      ensures HasKey(items2, x)
    {
      var j := KeyAt(nodes, items, index, x);
      assert items2[if j == i then 0 else if j < i then j + 1 else j].key == x;
    }
  }

  lemma UseBound<K, V>(items: seq<Pair<K, V>>, entries: map<K, V>, keys: set<K>, i: nat, v: V)
    requires Bound(items, entries, keys) && i < |items|
    requires forall j | 0 <= j < |items| && j != i :: items[j].key != items[i].key
    ensures Bound(First(items, i, Pair(items[i].key, v)), entries[items[i].key := v], keys)
  {
    hide First;
    FirstAt(items, i, Pair(items[i].key, v));
  }

  lemma UseByUse<K, V>(items: seq<Pair<K, V>>, used: map<K, nat>, now: nat, i: nat, v: V)
    requires ByUse(items, used, now) && i < |items|
    requires forall j | 0 <= j < |items| && j != i :: items[j].key != items[i].key
    ensures ByUse(First(items, i, Pair(items[i].key, v)), used[items[i].key := now], now + 1)
  {
    hide First;
    var items2 := First(items, i, Pair(items[i].key, v));
    FirstAt(items, i, Pair(items[i].key, v));
    forall a, b | 0 <= a < b < |items2|
      ensures used[items[i].key := now][items2[a].key] > used[items[i].key := now][items2[b].key]
    {
    }
  }

  // ---------------------------------------------------------------- adding an entry

  lemma AddIndexed<K, V>(nodes: seq<Entry<K, V>>, items: seq<Pair<K, V>>, index: map<K, Entry<K, V>>,
                         node: Entry<K, V>, k: K, v: V)
    requires Indexed(nodes, items, index) && k !in index
    ensures Indexed([node] + nodes, [Pair(k, v)] + items, index[k := node])
    ensures forall j | 0 <= j < |items| :: items[j].key != k
  {
    var items2 := [Pair(k, v)] + items;
    assert forall j | 0 < j < |items2| :: items2[j] == items[j - 1];
    forall x | x in index[k := node]
      ensures HasKey(items2, x)
    {
      if x == k {
        assert items2[0].key == x;
      } else {
        var j := KeyAt(nodes, items, index, x);
        assert items2[j + 1].key == x;
      }
    }
  }

  lemma AddRest<K, V>(items: seq<Pair<K, V>>, entries: map<K, V>, keys: set<K>, used: map<K, nat>, now: nat, k: K, v: V)
    requires Bound(items, entries, keys) && ByUse(items, used, now)
    requires forall j | 0 <= j < |items| :: items[j].key != k
    ensures Bound([Pair(k, v)] + items, entries[k := v], keys + {k})
    ensures ByUse([Pair(k, v)] + items, used[k := now], now + 1)
  {
    var items2 := [Pair(k, v)] + items;
    assert forall j | 0 < j < |items2| :: items2[j] == items[j - 1];
  }

  lemma AddFacts<K, V>(nodes: seq<Entry<K, V>>, items: seq<Pair<K, V>>, index: map<K, Entry<K, V>>, entries: map<K, V>,
                       used: map<K, nat>, now: nat, node: Entry<K, V>, k: K, v: V)
    requires Indexed(nodes, items, index) && k !in index && Bound(items, entries, index.Keys) && ByUse(items, used, now)
    ensures Indexed([node] + nodes, [Pair(k, v)] + items, index[k := node])
    ensures Bound([Pair(k, v)] + items, entries[k := v], index[k := node].Keys)
    ensures ByUse([Pair(k, v)] + items, used[k := now], now + 1)
  {
    hide Indexed, Bound, ByUse;
    AddIndexed(nodes, items, index, node, k, v);
    AddRest(items, entries, index.Keys, used, now, k, v);
    assert index[k := node].Keys == index.Keys + {k};
  }

  // ---------------------------------------------------------------- dropping an entry

  lemma DropIndexed<K, V>(nodes: seq<Entry<K, V>>, items: seq<Pair<K, V>>, index: map<K, Entry<K, V>>, i: nat)
    requires Indexed(nodes, items, index) && i < |items|
    requires forall j | 0 <= j < |items| && j != i :: items[j].key != items[i].key
    ensures Indexed(Without(nodes, i), Without(items, i), index - {items[i].key})
  {
    hide Without;
    WithoutAt(nodes, i);
    WithoutAt(items, i);
    var items2 := Without(items, i);
    forall x | x in index - {items[i].key}
      ensures HasKey(items2, x)
    {
      var j := KeyAt(nodes, items, index, x);
      assert items2[if j < i then j else j - 1].key == x;
    }
  }

  lemma DropRest<K, V>(items: seq<Pair<K, V>>, entries: map<K, V>, keys: set<K>, used: map<K, nat>, now: nat, i: nat)
    requires Bound(items, entries, keys) && ByUse(items, used, now) && i < |items|
    requires forall j | 0 <= j < |items| && j != i :: items[j].key != items[i].key
    ensures Bound(Without(items, i), entries - {items[i].key}, keys - {items[i].key})
    ensures ByUse(Without(items, i), used - {items[i].key}, now)
  {
    hide Without;
    WithoutAt(items, i);
  }

  class Cache<K(==, !new), V> {
    const list: List<Pair<K, V>>
    const searcher: Dict<K, Entry<K, V>>
    ghost var entries: map<K, V>
    ghost var used: map<K, nat>
    ghost var now: nat

    ghost predicate Valid()
      reads this, list, searcher, list.nodes
    {
      && list.Valid() && searcher.Valid()
      && Indexed(list.nodes, Values(list.nodes), searcher.contents)
      && Bound(Values(list.nodes), entries, searcher.contents.Keys)
      && ByUse(Values(list.nodes), used, now) && used.Keys == entries.Keys
    }

    ghost function History(): History<K, V>
      reads this
    {
      HistoryOf(entries, used, now)
    }

    /** lru_cache_new. */
    constructor (hash: K -> nat)
      ensures Valid() && entries == map[] && used == map[] && now == 0 && fresh(list) && fresh(searcher) && fresh(list.nodes)
    {
      var l := new List<Pair<K, V>>();
      var d := new Dict<K, Entry<K, V>>(hash);
      list, searcher := l, d;
      entries, used, now := map[], map[], 0;
    }

    /** lru_cache_len. */
    method Len() returns (n: int)
      requires Valid()
      ensures n == |entries|
    {
      n := searcher.Size();
      assert |entries| == |entries.Keys| && |searcher.contents| == |searcher.contents.Keys|;
    }

    /** Moves a node to the head, perhaps with a new value, and notes the time. */
    method Use(node: Entry<K, V>, val: V, ghost i: nat)
      requires Valid() && i < |list.nodes| && list.nodes[i] == node
      modifies this`entries, this`used, this`now, list, list.nodes
      ensures Valid() && node in list.nodes && node.value == Pair(old(node.value.key), val)
      ensures list.nodes == First(old(list.nodes), i, node)
      ensures entries == old(entries)[old(node.value.key) := val]
      ensures used == old(used)[old(node.value.key) := old(now)] && now == old(now) + 1
      ensures forall i | 0 <= i < |list.nodes| :: list.nodes[i] in old(list.nodes) || fresh(list.nodes[i])
    {
      hide Indexed, Bound, ByUse, Distinct, InOrder, Prevs, Nexts, Without, First, Dict.Valid, Dict.All;
      ghost var items := Values(list.nodes);
      ghost var nodes := list.nodes;
      ghost var k := node.value.key;
      assert items[i] == node.value;
      KeysApart(nodes, items, searcher.contents, i);
      UseIndexed(nodes, items, searcher.contents, i, val);
      UseBound(items, entries, searcher.contents.Keys, i, val);
      UseByUse(items, used, now, i, val);
      list.SetValue(node, Pair(node.value.key, val));
      list.MoveHead(node, i);
      UsedValues(nodes, items, i, Values(list.nodes), list.nodes, Pair(k, val));
      FirstIn(nodes, i);
      BoundHere(items, old(entries), searcher.contents.Keys, i);
      entries, used, now := entries[k := val], used[k := now], now + 1;
    }

    /** The node of the key, by the dictionary. */
    method Lookup(key: K) returns (node: Option<Entry<K, V>>, ghost i: nat)
      requires Valid()
      modifies searcher
      ensures Valid() && searcher.contents == old(searcher.contents) && entries.Keys == searcher.contents.Keys
      ensures node.Some? <==> key in entries
      ensures node.Some? ==> i < |list.nodes| && list.nodes[i] == node.value && node.value.value == Pair(key, entries[key])
      ensures |entries| == |searcher.contents|
    {
      hide Indexed, Bound, ByUse, Without, First, List.Valid, Dict.Valid, Dict.All;
      BoundKeys(Values(list.nodes), entries, searcher.contents.Keys);
      node := searcher.Find(key);
      i := 0;
      if node.Some? {
        i := KeyAt(list.nodes, Values(list.nodes), searcher.contents, key);
        BoundAt(Values(list.nodes), entries, searcher.contents.Keys, i);
      }
      assert |searcher.contents| == |searcher.contents.Keys|;
    }

    /** lru_cache_get: the pair of the key, which becomes the most recently used. */
    method Get(key: K) returns (pair: Option<Pair<K, V>>)
      requires Valid()
      modifies this, searcher, list, list.nodes
      ensures Valid() && entries == old(entries)
      ensures pair == if key in entries then Some(Pair(key, entries[key])) else None
      ensures used == if key in entries then old(used)[key := old(now)] else old(used)
      ensures now == if key in entries then old(now) + 1 else old(now)
      ensures forall i | 0 <= i < |list.nodes| :: list.nodes[i] in old(list.nodes) || fresh(list.nodes[i])
    {
      hide Valid, First;
      var node; ghost var i;
      node, i := Lookup(key);
      if node.None? {
        return None;
      }
      assert entries[key := entries[key]] == entries;
      Use(node.value, node.value.value.val, i);
      pair := Some(node.value.value);
    }

    /** The state after a lru_cache_put that fails: the pair is first in the list, and not in the dictionary. */
    ghost predicate Loose(nodes: seq<Entry<K, V>>, items: seq<Pair<K, V>>, key: K, val: V)
      reads this, list, searcher, list.nodes
    {
      && list.Valid() && searcher.Valid() && list.nodes != [] && list.nodes[1..] == nodes
      && Values(list.nodes) == [Pair(key, val)] + items && key !in searcher.contents
      && Indexed(nodes, items, searcher.contents) && Bound(items, entries, searcher.contents.Keys)
    }

    /** The cache is then no cache any more. */
    lemma LooseIsBroken(nodes: seq<Entry<K, V>>, items: seq<Pair<K, V>>, key: K, val: V)
      requires Loose(nodes, items, key, val)
      ensures !Valid()
    {
      hide Bound, ByUse, List.Valid, Dict.Valid, Dict.All;
      if Valid() {
        IndexedAt(list.nodes, Values(list.nodes), searcher.contents, 0);
      }
    }

    /**
      lru_cache_put: 0 for a key that was there, 1 for a new one; allowed is the dictionary's to grow. The
      result is -1 when the dictionary cannot grow, which it can below 2^60 entries; the pair then stays in
      the list without an index entry.
    */
    method Put(key: K, val: V, allowed: bool) returns (result: int)
      requires Valid() && |entries| + 1 < ULONG_LIMIT
      modifies this, searcher, list, list.nodes
      ensures result == -1 || result == if key in old(entries) then 0 else 1
      ensures result != -1 ==>
                && Valid() && entries == old(entries)[key := val]
                && used == old(used)[key := old(now)] && now == old(now) + 1
      ensures result == -1 ==>
                && key !in old(entries) && |old(entries)| >= Pow2(60) && History() == old(History())
                && Loose(old(list.nodes), old(Values(list.nodes)), key, val)
      ensures forall i | 0 <= i < |list.nodes| :: list.nodes[i] in old(list.nodes) || fresh(list.nodes[i])
    {
      hide Valid, First, Pow2, Loose;
      var node; ghost var i;
      node, i := Lookup(key);
      if node.Some? {
        Use(node.value, val, i);
        return 0;
      }
      result := PutNew(key, val, allowed);
    }

    method PutNew(key: K, val: V, allowed: bool) returns (result: int)
      requires Valid() && |searcher.contents| + 1 < ULONG_LIMIT && key !in searcher.contents
      modifies this, searcher, list, list.nodes
      ensures result == 1 || (result == -1 && |old(searcher.contents)| >= Pow2(60))
      ensures result == 1 ==>
                && Valid() && entries == old(entries)[key := val]
                && used == old(used)[key := old(now)] && now == old(now) + 1
      ensures result == -1 ==> History() == old(History()) && Loose(old(list.nodes), old(Values(list.nodes)), key, val)
      ensures forall i | 0 <= i < |list.nodes| :: list.nodes[i] in old(list.nodes) || fresh(list.nodes[i])
    {
      hide Indexed, Bound, ByUse, Without, First, Pow2, List.Valid, Dict.Valid, Dict.All;
      ghost var nodes, items := list.nodes, Values(list.nodes);
      var node := AddNode(list, Pair(key, val));
      assert list.head == node && list.nodes[1..] == nodes;
      result := IndexNew(key, val, allowed, node, nodes, items);
    }

    /** The dictionary takes the key of the new first node. */
    method IndexNew(key: K, val: V, allowed: bool, node: Entry<K, V>, ghost nodes: seq<Entry<K, V>>, ghost items: seq<Pair<K, V>>)
      returns (result: int)
      requires list.Valid() && searcher.Valid() && |searcher.contents| + 1 < ULONG_LIMIT && key !in searcher.contents
      requires list.nodes == [node] + nodes && Values(list.nodes) == [Pair(key, val)] + items
      requires Indexed(nodes, items, searcher.contents) && Bound(items, entries, searcher.contents.Keys)
      requires ByUse(items, used, now) && used.Keys == entries.Keys
      modifies this, searcher
      ensures list.nodes == old(list.nodes)
      ensures result == 1 || (result == -1 && |old(searcher.contents)| >= Pow2(60))
      ensures result == 1 ==>
                && Valid() && entries == old(entries)[key := val]
                && used == old(used)[key := old(now)] && now == old(now) + 1
      ensures result == -1 ==> searcher.Valid() && searcher.contents == old(searcher.contents) && History() == old(History())
    {
      hide Indexed, Bound, ByUse, Without, First, Pow2, List.Valid, Dict.Valid, Dict.All, Values;
      AddFacts(nodes, items, searcher.contents, entries, used, now, node, key, val);
      var ok, existing := searcher.Add(key, node, allowed);
      if ok {
        entries, used, now := entries[key := val], used[key := now], now + 1;
      }
      result := if ok then 1 else -1;
    }

    lemma UsedKeys()
      requires Valid()
      ensures used.Keys == entries.Keys
    {
    }

    /** lru_cache_remove. */
    method Remove(key: K)
      requires Valid()
      modifies this, searcher, list, list.nodes
      ensures Valid() && entries == old(entries) - {key} && used == old(used) - {key} && now == old(now)
      ensures forall i | 0 <= i < |list.nodes| :: list.nodes[i] in old(list.nodes) || fresh(list.nodes[i])
    {
      hide Valid;
      UsedKeys();
      var node; ghost var i;
      node, i := Lookup(key);
      if node.Some? {
        RemoveNode(node.value, key, i);
      } else {
        NoKey(entries, key);
        NoKey(used, key);
      }
    }

    method RemoveNode(node: Entry<K, V>, key: K, ghost i: nat)
      requires Valid() && i < |list.nodes| && list.nodes[i] == node && node.value.key == key
      modifies this, searcher, list, list.nodes
      ensures Valid() && entries == old(entries) - {key} && used == old(used) - {key} && now == old(now)
      ensures forall i | 0 <= i < |list.nodes| :: list.nodes[i] in old(list.nodes) || fresh(list.nodes[i])
    {
      hide Indexed, Bound, ByUse, Without, First, List.Valid, Dict.Valid, Dict.All;
      DropFacts(i);
      DropNode(list, node, i);
      var was := searcher.Delete(key);
      entries, used := entries - {key}, used - {key};
    }

    /** What dropping the node at i leaves, said of the values it will have. */
    lemma DropFacts(i: nat)
      requires Valid() && i < |list.nodes|
      ensures var nodes, items, k := list.nodes, Values(list.nodes), list.nodes[i].value.key;
              && Indexed(Without(nodes, i), Without(items, i), searcher.contents - {k})
              && Bound(Without(items, i), entries - {k}, (searcher.contents - {k}).Keys)
              && ByUse(Without(items, i), used - {k}, now)
    {
      hide Indexed, Bound, ByUse, Distinct, InOrder, Prevs, Nexts, Without, Shape, Graph, Bag;
      var nodes, items, k := list.nodes, Values(list.nodes), list.nodes[i].value.key;
      assert items[i].key == k;
      KeysApart(nodes, items, searcher.contents, i);
      DropIndexed(nodes, items, searcher.contents, i);
      DropRest(items, entries, searcher.contents.Keys, used, now, i);
      assert (searcher.contents - {k}).Keys == searcher.contents.Keys - {k};
    }

    /**
      lru_cache_pop: removes exactly the key whose last use is the longest ago. On an empty cache the
      code follows the null tail of the list; ok is false exactly then.
    */
    method Pop() returns (ok: bool, ghost victim: Option<K>)
      requires Valid()
      modifies this, searcher, list, list.nodes
      ensures Valid() && now == old(now) && (ok <==> old(entries) != map[])
      ensures ok ==>
                && victim.Some? && Oldest(old(used), victim.value)
                && entries == old(entries) - {victim.value} && used == old(used) - {victim.value}
      ensures !ok ==> victim == None && entries == old(entries) && used == old(used)
      ensures forall i | 0 <= i < |list.nodes| :: list.nodes[i] in old(list.nodes) || fresh(list.nodes[i])
    {
      hide Indexed, Bound, ByUse, Distinct, InOrder, Prevs, Nexts, Without, First, Shape, Graph, Bag;
      BoundKeys(Values(list.nodes), entries, searcher.contents.Keys);
      Emptiness(list.nodes, Values(list.nodes), searcher.contents);
      if list.tail == null {
        return false, None;
      }
      ghost var key := PopLast();
      return true, Some(key);
    }

    method PopLast() returns (ghost victim: K)
      requires Valid() && list.nodes != []
      modifies this, searcher, list, list.nodes
      ensures Valid() && now == old(now) && Oldest(old(used), victim)
      ensures entries == old(entries) - {victim} && used == old(used) - {victim}
      ensures forall i | 0 <= i < |list.nodes| :: list.nodes[i] in old(list.nodes) || fresh(list.nodes[i])
    {
      hide Indexed, Bound, ByUse, Distinct, InOrder, Prevs, Nexts, Without, First, Shape, Graph, Bag, Oldest;
      ghost var items, nodes := Values(list.nodes), list.nodes;
      ghost var i := |nodes| - 1;
      victim := nodes[i].value.key;
      assert items[i].key == victim;
      BoundKeys(items, entries, searcher.contents.Keys);
      LeastUsed(nodes, items, searcher.contents, used, now);
      DropFacts(i);
      var pair := list.tail.value;
      IndexedAt(nodes, items, searcher.contents, i);
      var was := searcher.Delete(pair.key);
      assert was.Some?;
      DropNode(list, list.tail, i);
      entries, used := entries - {victim}, used - {victim};
    }

    /** One operation; it fails on popping an empty cache, and when a new key cannot be indexed. */
    method Do(op: CacheOp<K, V>) returns (ok: bool, full: bool, ghost answer: Answer<K, V>)
      requires Valid() && |entries| + 1 < ULONG_LIMIT
      modifies this, searcher, list, list.nodes
      ensures ok <==> !full && !(op.Evict? && old(entries) == map[])
      ensures !full ==> Valid()
      ensures ok ==> History() == After(old(History()), op) && answer == AnswerTo(old(History()), op)
      ensures !ok ==> History() == old(History())
      ensures full ==>
                && op.Store? && op.key !in entries && |entries| >= Pow2(60)
                && Loose(old(list.nodes), old(Values(list.nodes)), op.key, op.val)
      ensures |entries| <= |old(entries)| + 1
      ensures forall i | 0 <= i < |list.nodes| :: list.nodes[i] in old(list.nodes) || fresh(list.nodes[i])
    {
      hide Valid, Pow2, Oldest, OldestOf, Loose;
      ok, full, answer := true, false, Dropped;
      match op
      case Fetch(k) =>
        var pair := Get(k);
        answer := Fetched(pair);
      case Store(k, v, allowed) =>
        MoreEntries(entries, k, v);
        var code := Put(k, v, allowed);
        ok, full, answer := code != -1, code == -1, Stored(code);
      case Drop(k) =>
        FewerEntries(entries, k);
        Remove(k);
      case Evict =>
        ghost var was, all := used, entries;
        ghost var victim;
        ok, victim := Pop();
        if ok {
          OldestIs(was, victim.value);
          FewerEntries(all, victim.value);
          answer := Evicted(victim.value);
        }
    }

    /**
      Any run of operations up to one that pops an empty cache or cannot index a new key, which takes 2^60
      entries: the bindings, the times of last use and every answer are those of the history, and the list
      is in the order of last use.
    */
    method Run(ops: seq<CacheOp<K, V>>) returns (done: nat, full: bool, ghost answers: seq<Answer<K, V>>)
      requires Valid() && |entries| + |ops| < ULONG_LIMIT
      modifies this, searcher, list, list.nodes
      ensures done <= |ops| && History() == AfterAll(old(History()), ops[..done])
      ensures answers == AllAnswers(old(History()), ops[..done])
      ensures !full ==> Valid() && done == FirstFault(old(History()), ops) && ByUse(Values(list.nodes), used, now)
      ensures full ==>
                && done < FirstFault(old(History()), ops) && done < |ops| && ops[done].Store?
                && ops[done].key !in entries && |entries| >= Pow2(60) && !Valid()
      ensures |old(entries)| + |ops| <= Pow2(60) ==> !full
      ensures forall i | 0 <= i < |list.nodes| :: list.nodes[i] in old(list.nodes) || fresh(list.nodes[i])
    {
      hide After, AnswerTo, Pow2, Valid, ByUse, FirstFault, AllAnswers, AfterAll, Loose;
      done, full, answers := 0, false, [];
      ghost var h := History();
      HistoryStart(h, ops);
      while done < |ops|
        invariant 0 <= done <= |ops| && Valid() && |entries| <= |old(entries)| + done && !full
        invariant History() == AfterAll(h, ops[..done]) && answers == AllAnswers(h, ops[..done])
        invariant FirstFault(h, ops) == done + FirstFault(History(), ops[done..])
        invariant forall i | 0 <= i < |list.nodes| :: list.nodes[i] in old(list.nodes) || fresh(list.nodes[i])
      {
        HistoryStep(h, ops, done, History());
        ghost var nodes, items := list.nodes, Values(list.nodes);
        var ok; ghost var answer;
        ok, full, answer := Do(ops[done]);
        if full {
          LooseIsBroken(nodes, items, ops[done].key, ops[done].val);
          return;
        }
        if !ok {
          InUseOrder();
          return;
        }
        answers := answers + [answer];
        done := done + 1;
      }
      HistoryEnd(History(), ops);
      InUseOrder();
    }

    lemma InUseOrder()
      requires Valid()
      ensures ByUse(Values(list.nodes), used, now)
    {
    }
  }

  lemma NoKey<K, T>(m: map<K, T>, k: K)
    requires k !in m
    ensures m - {k} == m
  {
  }

  lemma FirstIn<T>(s: seq<T>, i: nat)
    requires i < |s|
    ensures forall j | 0 <= j < |First(s, i, s[i])| :: First(s, i, s[i])[j] in s
  {
  }

  lemma BoundHere<K, V>(items: seq<Pair<K, V>>, entries: map<K, V>, keys: set<K>, i: nat)
    requires Bound(items, entries, keys) && i < |items|
    ensures items[i].key in entries
  {
  }

  lemma Emptiness<K, V>(nodes: seq<Entry<K, V>>, items: seq<Pair<K, V>>, index: map<K, Entry<K, V>>)
    requires Indexed(nodes, items, index)
    ensures nodes == [] <==> index.Keys == {}
  {
    if nodes != [] {
      IndexedAt(nodes, items, index, 0);
    } else if index != map[] {
      NotEmpty(nodes, items, index);
    }
  }

  lemma BoundKeys<K, V>(items: seq<Pair<K, V>>, entries: map<K, V>, keys: set<K>)
    requires Bound(items, entries, keys)
    ensures entries.Keys == keys
    ensures |entries| == |keys|
  {
    assert |entries| == |entries.Keys|;
  }

  lemma BoundAt<K, V>(items: seq<Pair<K, V>>, entries: map<K, V>, keys: set<K>, i: nat)
    requires Bound(items, entries, keys) && i < |items|
    ensures items[i].key in entries && entries[items[i].key] == items[i].val
    ensures entries[items[i].key := items[i].val] == entries
  {
  }

  lemma IndexedAt<K, V>(nodes: seq<Entry<K, V>>, items: seq<Pair<K, V>>, index: map<K, Entry<K, V>>, i: nat)
    requires Indexed(nodes, items, index) && i < |items|
    ensures items[i].key in index
  {
  }

  lemma NotEmpty<K, V>(nodes: seq<Entry<K, V>>, items: seq<Pair<K, V>>, index: map<K, Entry<K, V>>)
    requires Indexed(nodes, items, index) && index != map[]
    ensures nodes != []
  {
    var k :| k in index;
    assert HasKey(items, k);
  }

  lemma LeastUsed<K, V>(nodes: seq<Entry<K, V>>, items: seq<Pair<K, V>>, index: map<K, Entry<K, V>>, used: map<K, nat>, now: nat)
    requires Indexed(nodes, items, index) && ByUse(items, used, now) && items != []
    requires used.Keys == index.Keys
    ensures Oldest(used, items[|items| - 1].key)
  {
    var last := items[|items| - 1].key;
    forall k | k in index && k != last
      ensures k in used && last in used && used[k] > used[last]
    {
      var i := KeyAt(nodes, items, index, k);
      assert i < |items| - 1;
    }
  }

  method DropNode<T>(list: List<T>, node: Node<T>, ghost i: nat)
    requires list.Valid() && i < |list.nodes| && list.nodes[i] == node
    modifies list, list.nodes
    ensures list.Valid() && list.nodes == Without(old(list.nodes), i)
    ensures forall i | 0 <= i < |list.nodes| :: list.nodes[i] in old(list.nodes)
    ensures Values(list.nodes) == Without(old(Values(list.nodes)), i)
  {
    hide Distinct, InOrder, Prevs, Nexts, Without;
    ghost var items := Values(list.nodes);
    WithoutAt(list.nodes, i);
    WithoutAt(items, i);
    list.Delete(node, i);
    assert Values(list.nodes) == Without(items, i);
  }

  method AddNode<T>(list: List<T>, value: T) returns (node: Node<T>)
    requires list.Valid()
    modifies list, list.nodes
    ensures list.Valid() && fresh(node) && list.head == node && list.nodes == [node] + old(list.nodes)
    ensures Values(list.nodes) == [value] + old(Values(list.nodes))
  {
    hide Distinct, InOrder, Prevs, Nexts;
    ghost var items := Values(list.nodes);
    node := list.AddHead(value);
    assert Values(list.nodes) == [value] + items;
  }

  lemma UsedValues<T>(nodes: seq<Node<T>>, items: seq<T>, i: nat, items2: seq<T>, nodes2: seq<Node<T>>, x: T)
    requires i < |nodes| == |items| == |items2| && nodes2 == [nodes[i]] + Without(nodes, i)
    requires forall j | 0 <= j < |nodes2| :: items2[j] == nodes2[j].value
    requires nodes[i].value == x
    requires forall j | 0 <= j < |nodes| && j != i :: nodes[j].value == items[j]
    ensures items2 == First(items, i, x) && nodes2 == First(nodes, i, nodes[i])
  {
    FirstAt(items, i, x);
    FirstAt(nodes, i, nodes[i]);
    assert First(nodes, i, nodes[i]) == nodes2;
  }
}
