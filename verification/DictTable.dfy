/**
  One hash table of src/dict/dict.c: an array of chains, and the bag of entries it holds.
*/
module DictTable {
  datatype Item<K, V> = Item(key: K, val: V)

  type Chain<K, V> = seq<Item<K, V>>
  type Table<K, V> = seq<Chain<K, V>>

  /** All entries of a table. */
  ghost function Bag<K, V>(t: Table<K, V>): multiset<Item<K, V>> {
    if t == [] then multiset{} else multiset(t[0]) + Bag(t[1..])
  }

  /** Every entry is in the bucket of its hash. */
  ghost predicate Placed<K(!new), V>(t: Table<K, V>, hash: K -> nat) {
    forall i | 0 <= i < |t| :: forall e | e in t[i] :: hash(e.key) % |t| == i
  }

  /** The bag is the graph of the map: every binding once, and nothing else. */
  ghost predicate Graph<K(!new), V>(bag: multiset<Item<K, V>>, m: map<K, V>) {
    && (forall e | e in bag :: bag[e] == 1 && e.key in m && m[e.key] == e.val)
    && (forall k | k in m :: Item(k, m[k]) in bag)
  }

  // ---------------------------------------------------------------- bags

  lemma {:induction false} BagHas<K, V>(t: Table<K, V>, e: Item<K, V>)
    ensures e in Bag(t) <==> exists i :: 0 <= i < |t| && e in t[i]
    decreases |t|
  {
    if t != [] {
      BagHas(t[1..], e);
      if i :| 0 <= i < |t| && e in t[i] {
        assert i > 0 ==> t[i] == t[1..][i - 1];
      }
      if e in Bag(t[1..]) {
        var i :| 0 <= i < |t[1..]| && e in t[1..][i];
        assert t[i + 1] == t[1..][i];
      }
    }
  }

  /** Replacing one chain. */
  lemma {:induction false} BagUpdate<K, V>(t: Table<K, V>, i: nat, c: Chain<K, V>)
    requires i < |t|
    ensures Bag(t[i := c]) + multiset(t[i]) == Bag(t) + multiset(c)
    decreases |t|
  {
    if i > 0 {
      BagUpdate(t[1..], i - 1, c);
      var r := t[i := c];
      assert r[1..] == t[1..][i - 1 := c] && t[1..][i - 1] == t[i] && r[0] == t[0];
      Around(multiset(t[0]), Bag(r[1..]), multiset(t[i]), Bag(t[1..]), multiset(c));
    } else {
      assert t[i := c][1..] == t[1..];
    }
  }

  lemma Around<T>(a: multiset<T>, b: multiset<T>, c: multiset<T>, d: multiset<T>, e: multiset<T>)
    requires b + c == d + e
    ensures (a + b) + c == (a + d) + e
  {
    assert (a + b) + c == a + (b + c) && (a + d) + e == a + (d + e);
  }

  lemma {:induction false} BagEmpty<K, V>(t: Table<K, V>)
    requires forall i | 0 <= i < |t| :: t[i] == []
    ensures Bag(t) == multiset{}
    decreases |t|
  {
    if t != [] {
      assert forall i | 0 <= i < |t[1..]| :: t[1..][i] == t[i + 1];
      BagEmpty(t[1..]);
    }
  }

  /** A table with entries has a chain that is not empty. */
  lemma BagPositive<K, V>(t: Table<K, V>)
    requires |Bag(t)| > 0
    ensures exists i :: 0 <= i < |t| && t[i] != []
  {
    if forall i | 0 <= i < |t| :: t[i] == [] {
      BagEmpty(t);
    }
  }

  lemma HeadSplits<K, V>(c: Chain<K, V>)
    requires c != []
    ensures multiset(c) == multiset{c[0]} + multiset(c[1..]) && |multiset(c)| == |c|
  {
    assert c == [c[0]] + c[1..];
  }

  /** Putting an entry at the head of its chain. */
  lemma PushBag<K(!new), V>(t: Table<K, V>, hash: K -> nat, i: nat, e: Item<K, V>)
    requires i < |t| && Placed(t, hash) && hash(e.key) % |t| == i
    ensures Bag(t[i := [e] + t[i]]) == Bag(t) + multiset{e} && Placed(t[i := [e] + t[i]], hash)
  {
    hide Bag;
    BagUpdate(t, i, [e] + t[i]);
    assert multiset([e] + t[i]) == multiset{e} + multiset(t[i]);
    Cancel(Bag(t[i := [e] + t[i]]), Bag(t) + multiset{e}, multiset(t[i]));
    StillPlaced(t, hash, i, [e] + t[i]);
  }

  lemma Cancel<T>(a: multiset<T>, b: multiset<T>, c: multiset<T>)
    requires a + c == b + c
    ensures a == b
  {
    assert a == (a + c) - c && b == (b + c) - c;
  }

  lemma StillPlaced<K(!new), V>(t: Table<K, V>, hash: K -> nat, i: nat, c: Chain<K, V>)
    requires i < |t| && Placed(t, hash) && (forall e | e in c :: hash(e.key) % |t| == i)
    ensures Placed(t[i := c], hash)
  {
    var r := t[i := c];
    forall k | 0 <= k < |r|
      ensures forall e: Item<K, V> | e in r[k] :: hash(e.key) % |r| == k
    {
      if k != i {
        assert r[k] == t[k];
      }
    }
  }

  /** Taking an entry out of a chain. */
  lemma DropBag<K(!new), V>(t: Table<K, V>, hash: K -> nat, i: nat, j: nat)
    requires i < |t| && j < |t[i]| && Placed(t, hash)
    ensures var r := t[i := t[i][..j] + t[i][j + 1..]];
            Bag(t) == Bag(r) + multiset{t[i][j]} && Placed(r, hash)
  {
    hide Bag;
    var chain, c, e := t[i], t[i][..j] + t[i][j + 1..], t[i][j];
    BagUpdate(t, i, c);
    DropMultiset(chain, j);
    assert Bag(t) + multiset(c) == (Bag(t[i := c]) + multiset{e}) + multiset(c);
    Cancel(Bag(t), Bag(t[i := c]) + multiset{e}, multiset(c));
    assert forall f | f in c :: f in t[i];
    StillPlaced(t, hash, i, c);
  }

  lemma DropMultiset<K, V>(c: Chain<K, V>, j: nat)
    requires j < |c|
    ensures multiset(c) == multiset(c[..j] + c[j + 1..]) + multiset{c[j]}
  {
    assert c == c[..j] + [c[j]] + c[j + 1..];
  }

  // ---------------------------------------------------------------- the map

  /** An entry of the bag is the binding of its key, and the only one. */
  lemma GraphHas<K(!new), V>(bag: multiset<Item<K, V>>, m: map<K, V>, e: Item<K, V>)
    requires Graph(bag, m) && e in bag
    ensures e.key in m && m[e.key] == e.val
  {
  }

  lemma GraphBinds<K(!new), V>(bag: multiset<Item<K, V>>, m: map<K, V>, k: K)
    requires Graph(bag, m) && k in m
    ensures Item(k, m[k]) in bag
  {
  }

  lemma GraphLacks<K(!new), V>(bag: multiset<Item<K, V>>, m: map<K, V>, k: K)
    requires Graph(bag, m) && (forall e | e in bag :: e.key != k)
    ensures k !in m
  {
    if k in m {
      GraphBinds(bag, m, k);
    }
  }

  lemma GraphAdd<K(!new), V>(bag: multiset<Item<K, V>>, m: map<K, V>, k: K, v: V)
    requires Graph(bag, m) && k !in m
    ensures Graph(bag + multiset{Item(k, v)}, m[k := v])
  {
  }

  lemma GraphRemove<K(!new), V>(bag: multiset<Item<K, V>>, less: multiset<Item<K, V>>, m: map<K, V>, e: Item<K, V>)
    requires Graph(bag, m) && bag == less + multiset{e}
    ensures Graph(less, m - {e.key})
  {
    assert e in bag && bag[e] == 1;
    forall f | f in less
      ensures less[f] == 1 && f.key in m - {e.key} && m[f.key] == f.val
    {
      assert bag[f] == less[f] + (if f == e then 1 else 0);
      assert f in bag;
    }
    forall k | k in m - {e.key}
      ensures Item(k, m[k]) in less
    {
      var f := Item(k, m[k]);
      assert f in bag && f != e;
      assert bag[f] == less[f] + 0;
    }
  }

  /** The number of entries is the number of bindings. */
  lemma {:induction false} GraphSize<K(!new), V>(bag: multiset<Item<K, V>>, m: map<K, V>)
    requires Graph(bag, m)
    ensures |bag| == |m|
    decreases |m|
  {
    if m == map[] {
      assert bag == multiset{};
    } else {
      var k :| k in m;
      var e := Item(k, m[k]);
      assert bag[e] == 1;
      var less := bag - multiset{e};
      assert bag == less + multiset{e};
      GraphRemove(bag, less, m, e);
      assert m.Keys - {k} == (m - {k}).Keys && |m| == |m.Keys| && |(m - {k}).Keys| == |m - {k}|;
      GraphSize(less, m - {k});
    }
  }
}
