/**
  The dictionary of src/dict/dict.c with its incremental rehash: two hash tables that together are
  one map, whatever the interleaving of additions, lookups, deletions, expansions and rehash steps.
*/
module Dict {
  import opened Powers
  import opened Sets
  import opened Wrappers
  import opened DictTable

  const DICT_HT_INITIAL_EXP := 2
  const DICT_HT_INITIAL_SIZE := 4
  const LONG_MAX := 0x7fff_ffff_ffff_ffff
  const ULONG_LIMIT := 0x1_0000_0000_0000_0000
  const POINTER_SIZE := 8
  const DICT_RESIZE_ENABLE := 0
  const DICT_CAN_RESIZE := 1

  /** DICTHT_SIZE. */
  function HtSize(exp: int): nat {
    if exp < 0 then 0 else Pow2(exp)
  }

  lemma {:induction false} Pow2Grows(a: nat, b: nat)
    requires a <= b
    ensures Pow2(a) <= Pow2(b)
    decreases b - a
  {
    if a < b {
      Pow2Grows(a, b - 1);
    }
  }

  lemma Pow2Values()
    ensures Pow2(2) == 4 && Pow2(60) == 0x1000_0000_0000_0000 && Pow2(63) == LONG_MAX + 1
  {
    hide Pow2;
    Pow2Small();
    Pow2Ten(0);
    Pow2Ten(10);
    Pow2Ten(20);
    Pow2Ten(30);
    Pow2Ten(40);
    Pow2Ten(50);
    Pow2Ten(3);
    Pow2Ten(13);
    Pow2Ten(23);
    Pow2Ten(33);
    Pow2Ten(43);
    Pow2Ten(53);
  }

  lemma Pow2Small()
    ensures Pow2(0) == 1 && Pow2(2) == 4 && Pow2(3) == 8
  {
    assert Pow2(1) == 2;
  }

  lemma Pow2Ten(e: nat)
    ensures Pow2(e + 10) == 1024 * Pow2(e)
  {
    assert Pow2(e + 10) == 2 * Pow2(e + 9) == 4 * Pow2(e + 8) == 8 * Pow2(e + 7) == 16 * Pow2(e + 6) == 32 * Pow2(e + 5);
    assert Pow2(e + 5) == 2 * Pow2(e + 4) == 4 * Pow2(e + 3) == 8 * Pow2(e + 2) == 16 * Pow2(e + 1) == 32 * Pow2(e);
  }

  /** The exponent the code rounds a size up to. */
  ghost predicate IsNextExp(size: nat, e: int) {
    if size >= 0x7fff_ffff_ffff_ffff then e == 63
    else 2 <= e <= 63 && size <= Pow2(e) && (e == 2 || Pow2(e - 1) < size)
  }

  /** _dict_next_exp: the least power of two, from four on, that is no smaller than size. */
  method NextExp(size: nat) returns (e: nat)
    ensures IsNextExp(size, e)
  {
    hide Pow2;
    Pow2Values();
    if size >= LONG_MAX {
      return 63;
    }
    e := DICT_HT_INITIAL_EXP;
    while Pow2(e) < size
      invariant DICT_HT_INITIAL_EXP <= e <= 63 && (e == DICT_HT_INITIAL_EXP || Pow2(e - 1) < size)
      decreases 63 - e
    {
      e := e + 1;
    }
  }

  // ---------------------------------------------------------------- two tables

  /** Everything but the map: sizes, placement, counts, and what rehashing has left behind. */
  ghost predicate Shape<K(!new), V>(t0: Table<K, V>, t1: Table<K, V>, exp0: int, exp1: int, used0: int, used1: int,
                                          rehashidx: int, hash: K -> nat)
  {
    && exp0 >= -1 && exp1 >= -1 && |t0| == HtSize(exp0) && |t1| == HtSize(exp1)
    && Placed(t0, hash) && Placed(t1, hash) && used0 == |Bag(t0)| && used1 == |Bag(t1)|
    && rehashidx >= -1 && (rehashidx == -1 ==> exp1 == -1)
    && (rehashidx >= 0 ==> exp0 >= 0 && exp1 >= 0 && exp0 != exp1 && rehashidx <= |t0| && EmptyBelow(t0, rehashidx))
  }

  ghost predicate EmptyBelow<K, V>(t: Table<K, V>, n: nat) {
    n <= |t| && forall i | 0 <= i < n :: t[i] == []
  }

  /** The number of buckets with entries among those from a to b. */
  ghost function Filled<K, V>(t: Table<K, V>, a: nat, b: nat): nat
    requires a <= b <= |t|
    decreases b - a
  {
    if a == b then 0 else (if t[b - 1] == [] then 0 else 1) + Filled(t, a, b - 1)
  }

  lemma {:induction false} FilledNone<K, V>(t: Table<K, V>, a: nat, m: nat, b: nat)
    requires a <= m <= b <= |t| && forall i | m <= i < b :: t[i] == []
    ensures Filled(t, a, b) == Filled(t, a, m)
    decreases b - m
  {
    if m < b {
      FilledNone(t, a, m, b - 1);
    }
  }

  /** As long as the old table has entries, the next bucket to move exists. */
  lemma MoreBuckets<K(!new), V>(t0: Table<K, V>, n: nat)
    requires EmptyBelow(t0, n) && |Bag(t0)| > 0
    ensures n < |t0|
  {
    BagPositive(t0);
  }

  lemma NoTable<K(!new), V>(hash: K -> nat)
    ensures Placed<K, V>([], hash) && Bag<K, V>([]) == multiset{}
  {
  }

  lemma NewTable<K(!new), V>(n: nat, hash: K -> nat)
    ensures var t: Table<K, V> := seq(n, _ => []);
            Placed(t, hash) && Bag(t) == multiset{}
  {
    BagEmpty<K, V>(seq(n, _ => []));
  }

  /** A key is in a table exactly if it is in the chain of its hash. */
  lemma OnlyInChain<K(!new), V>(t: Table<K, V>, hash: K -> nat, k: K)
    requires t != [] && Placed(t, hash) && (forall e | e in t[hash(k) % |t|] :: e.key != k)
    ensures forall e | e in Bag(t) :: e.key != k
  {
    forall e | e in Bag(t)
      ensures e.key != k
    {
      BagHas(t, e);
    }
  }

  lemma EmptiedBucket<K(!new), V>(t: Table<K, V>, hash: K -> nat, i: nat)
    requires EmptyBelow(t, i) && i < |t| && Placed(t, hash)
    ensures EmptyBelow(t[i := []], i + 1) && Placed(t[i := []], hash)
    ensures Bag(t) == Bag(t[i := []]) + multiset(t[i])
  {
    hide Bag;
    BagUpdate(t, i, []);
    StillPlaced(t, hash, i, []);
  }

  /** The loop of a chain walk: where the key is, if it is there. */
  method Search<K(==), V>(chain: Chain<K, V>, key: K) returns (at: nat)
    ensures at <= |chain| && (forall j | 0 <= j < at :: chain[j].key != key)
    ensures at < |chain| ==> chain[at].key == key
  {
    at := 0;
    while at < |chain|
      invariant at <= |chain| && (forall j | 0 <= j < at :: chain[j].key != key)
    {
      if chain[at].key == key {
        return;
      }
      at := at + 1;
    }
  }

  /** n buckets with entries were passed, or fewer and ten times n empty ones. */
  ghost predicate Passed<K, V>(t: Table<K, V>, a: int, b: int, n: nat) {
    && 0 <= a <= b <= |t|
    && var filled := Filled(t, a, b);
       filled == n || (filled < n && b - a - filled == 10 * n)
  }

  /** As many entries as buckets, or more, and no rehash on. */
  ghost predicate NeedsRoom(exp0: int, used0: int, rehashidx: int) {
    rehashidx == -1 && exp0 >= 0 && used0 >= Pow2(exp0)
  }

  lemma FourBuckets(e: int)
    ensures IsNextExp(4, e) && e >= 0 ==> Pow2(e) == 4
    ensures !IsNextExp(4, -1)
  {
    hide Pow2;
    Pow2Small();
    if e > 2 {
      Pow2Grows(2, e - 1);
    }
  }

  lemma LargerExp(size: nat, e: nat)
    requires Pow2(e) < size < ULONG_LIMIT
    ensures !IsNextExp(size, e) || size > 0x1000_0000_0000_0000
  {
  }

  class Dict<K(==, !new), V> {
    const hash: K -> nat
    var t0: Table<K, V>
    var t1: Table<K, V>
    var exp0: int
    var exp1: int
    var used0: int
    var used1: int
    var rehashidx: int
    var pauserehash: int
    ghost var contents: map<K, V>

    ghost predicate Shaped()
      reads this
    {
      Shape(t0, t1, exp0, exp1, used0, used1, rehashidx, hash)
    }

    ghost function All(): multiset<Item<K, V>>
      reads this
    {
      Bag(t0) + Bag(t1)
    }

    ghost predicate Valid()
      reads this
    {
      Shaped() && Graph(All(), contents)
    }

    /** dict_is_rehashing. */
    predicate Rehashing()
      reads this
    {
      rehashidx != -1
    }

    /** _dict_init. */
    constructor (hash: K -> nat)
      ensures Valid() && contents == map[] && this.hash == hash && pauserehash == 0
    {
      this.hash := hash;
      t0, t1, exp0, exp1, used0, used1 := [], [], -1, -1, 0, 0;
      rehashidx, pauserehash, contents := -1, 0, map[];
      NoTable<K, V>(hash);
    }

    /** dict_size. */
    method Size() returns (n: int)
      requires Valid()
      ensures n == |contents|
    {
      n := used0 + used1;
      GraphSize(All(), contents);
    }

    /** _dict_expand: a new table, to use at once or to rehash into. */
    method Expand(size: nat) returns (ok: bool)
      requires Valid() && size < ULONG_LIMIT
      modifies this`t0, this`t1, this`exp0, this`exp1, this`used0, this`used1, this`rehashidx
      ensures Valid() && All() == old(All())
      ensures ok ==> !old(Rehashing()) && old(used0) <= size
      ensures ok && old(t0) == [] ==> !Rehashing() && IsNextExp(size, exp0) && exp0 >= 0
      ensures ok && old(t0) != [] ==> Rehashing() && rehashidx == 0 && t0 == old(t0) && used0 == old(used0) && IsNextExp(size, exp1)
      ensures ok && old(t0) != [] ==> exp1 != exp0 == old(exp0)
      ensures !ok ==> (t0, t1, exp0, exp1) == old((t0, t1, exp0, exp1)) && (used0, used1, rehashidx) == old((used0, used1, rehashidx))
      ensures ok <==> !old(Rehashing()) && old(used0) <= size <= 0x1000_0000_0000_0000 && !IsNextExp(size, old(exp0))
    {
      hide Pow2, Bag, Placed, Graph, IsNextExp;
      if Rehashing() || used0 > size {
        return false;
      }
      var exp := NextExp(size);
      ExpBounds(size, exp);
      ExpOne(size, exp, exp0);
      ExpOverflows(size, exp);
      var newsize := Pow2(exp);
      if newsize < size || newsize * POINTER_SIZE % ULONG_LIMIT < newsize {
        return false;
      }
      if exp == exp0 {
        return false;
      }
      NewTable<K, V>(newsize, hash);
      var table: Table<K, V> := seq(newsize, _ => []);
      NoTables(t0, t1, hash);
      if t0 == [] {
        exp0, used0, t0 := exp, 0, table;
        return true;
      }
      exp1, used1, t1, rehashidx := exp, 0, table, 0;
      return true;
    }

    /**
      dict_resize: shrinks to the entries there are, if the setting says DICT_RESIZE_ENABLE and no
      rehash is on; otherwise it refuses and changes nothing.
    */
    method ResizeIf(canResize: int) returns (ok: bool)
      requires Valid() && used0 < ULONG_LIMIT
      modifies this`t0, this`t1, this`exp0, this`exp1, this`used0, this`used1, this`rehashidx
      ensures Valid() && All() == old(All())
      ensures ok ==> canResize == 0 && !old(Rehashing())
      ensures !ok ==> (t0, t1, exp0, exp1) == old((t0, t1, exp0, exp1)) && (used0, used1, rehashidx) == old((used0, used1, rehashidx))
      ensures !ok && canResize == 0 && !Rehashing() ==> used0 > 0x1000_0000_0000_0000 || IsNextExp(if used0 < 4 then 4 else used0, exp0)
    {
      hide Pow2, Bag, Placed, Graph, IsNextExp;
      Pow2Values();
      if canResize != DICT_RESIZE_ENABLE || Rehashing() {
        return false;
      }
      var minimal := used0;
      if minimal < DICT_HT_INITIAL_SIZE {
        minimal := DICT_HT_INITIAL_SIZE;
      }
      ok := Expand(minimal);
    }

    /** dict_resize as it is: the setting is 1 and DICT_RESIZE_ENABLE is 0, so it always refuses. */
    method Resize() returns (ok: bool)
      requires Valid() && used0 < ULONG_LIMIT
      modifies this`t0, this`t1, this`exp0, this`exp1, this`used0, this`used1, this`rehashidx
      ensures !ok && Valid() && (t0, t1, exp0, exp1) == old((t0, t1, exp0, exp1))
      ensures (used0, used1, rehashidx) == old((used0, used1, rehashidx))
    {
      hide Shape, Graph, Bag;
      ok := ResizeIf(DICT_CAN_RESIZE);
    }

    /** The chain loop of dict_rehash: moves the entries of one bucket to the new table. */
    method MoveBucket()
      requires Shaped() && 0 <= rehashidx < |t0|
      modifies this`t0, this`t1, this`used0, this`used1, this`rehashidx
      ensures Shaped() && All() == old(All()) && rehashidx == old(rehashidx) + 1
      ensures used0 == old(used0) - |old(t0)[old(rehashidx)]| && t0 == old(t0)[old(rehashidx) := []]
    {
      hide Bag, Placed;
      var de := t0[rehashidx];
      EmptiedBucket(t0, hash, rehashidx);
      ghost var rest := t0[rehashidx := []];
      ghost var n := |t0[rehashidx]|;
      while de != []
        invariant t0 == old(t0) && rehashidx == old(rehashidx) && |t1| == |old(t1)| && |de| <= n
        invariant Placed(t1, hash) && used1 == |Bag(t1)| && used0 == |Bag(rest)| + |de| && used0 == old(used0) - n + |de|
        invariant Bag(rest) + multiset(de) + Bag(t1) == old(All())
        decreases |de|
      {
        var h := hash(de[0].key) % |t1|;
        HeadSplits(de);
        PushBag(t1, hash, h, de[0]);
        t1 := t1[h := [de[0]] + t1[h]];
        used0 := used0 - 1;
        used1 := used1 + 1;
        de := de[1..];
      }
      t0 := t0[rehashidx := []];
      rehashidx := rehashidx + 1;
    }

    /** Passes empty buckets, each one costing a visit, until a bucket has entries or none is left. */
    method SkipEmpty(visits0: int) returns (visits: int, stop: bool)
      requires Shaped() && Rehashing() && used0 != 0 && visits0 > 0
      modifies this`rehashidx
      ensures Shaped() && Rehashing() && rehashidx == old(rehashidx) + visits0 - visits && 0 <= visits <= visits0
      ensures stop <==> visits == 0
      ensures !stop ==> rehashidx < |t0| && t0[rehashidx] != []
      ensures rehashidx <= |t0| && forall i | old(rehashidx) <= i < rehashidx :: t0[i] == []
    {
      hide Bag, Placed;
      visits, stop := visits0, false;
      MoreBuckets(t0, rehashidx);
      while t0[rehashidx] == []
        invariant Shaped() && Rehashing() && 0 < visits <= visits0 && rehashidx == old(rehashidx) + visits0 - visits
        invariant rehashidx < |t0| && forall i | old(rehashidx) <= i < rehashidx :: t0[i] == []
        decreases visits
      {
        rehashidx := rehashidx + 1;
        visits := visits - 1;
        if visits == 0 {
          stop := true;
          return;
        }
        MoreBuckets(t0, rehashidx);
      }
    }

    /** The new table takes the place of the empty old one. */
    method EndRehash()
      requires Shaped() && Rehashing() && used0 == 0
      modifies this`t0, this`t1, this`exp0, this`exp1, this`used0, this`used1, this`rehashidx
      ensures Shaped() && All() == old(All()) && !Rehashing() && exp0 == old(exp1)
    {
      NoTable<K, V>(hash);
      BagGone(t0);
      t0, used0, exp0 := t1, used1, exp1;
      t1, exp1, used1 := [], -1, 0;
      rehashidx := -1;
    }

    /** dict_rehash: moves up to n buckets, passing at most 10 * n empty ones. */
    method Rehash(n: nat) returns (more: bool)
      requires Valid()
      modifies this`t0, this`t1, this`exp0, this`exp1, this`used0, this`used1, this`rehashidx
      ensures Valid() && All() == old(All()) && more == Rehashing()
      ensures old(Rehashing()) && Rehashing() ==> exp0 == old(exp0) && exp1 == old(exp1) && rehashidx <= old(rehashidx) + 11 * n
      ensures old(Rehashing()) && Rehashing() && n > 0 ==> old(rehashidx) < rehashidx
      ensures old(Rehashing()) && Rehashing() ==> Passed(old(t0), old(rehashidx), rehashidx, n)
      ensures old(Rehashing()) && !Rehashing() ==> exp0 == old(exp1)
      ensures !old(Rehashing()) ==> !Rehashing() && t0 == old(t0) && exp0 == old(exp0) && used0 == old(used0)
    {
      hide Bag, Placed, Graph;
      var visits := n * 10;
      if !Rehashing() {
        return false;
      }
      var left := n;
      while left > 0 && used0 != 0
        invariant Shaped() && Rehashing() && All() == old(All()) && exp0 == old(exp0) && exp1 == old(exp1)
        invariant 0 <= left <= n && visits >= 0 && (left > 0 ==> visits > 0)
        invariant old(rehashidx) + (n - left) <= rehashidx && rehashidx + visits == old(rehashidx) + (n - left) + 10 * n
        invariant |t0| == |old(t0)| && rehashidx <= |t0| && Filled(old(t0), old(rehashidx), rehashidx) == n - left
        invariant forall i | rehashidx <= i < |t0| :: t0[i] == old(t0)[i]
        decreases left
      {
        left := left - 1;
        var stop;
        ghost var from := rehashidx;
        visits, stop := SkipEmpty(visits);
        FilledNone(old(t0), old(rehashidx), from, rehashidx);
        if stop {
          return true;
        }
        MoveBucket();
      }
      if used0 == 0 {
        EndRehash();
        return false;
      }
      return true;
    }

    /** _dict_rehash_step: one bucket, unless rehashing is paused. */
    method RehashStep()
      requires Valid() && Rehashing()
      modifies this`t0, this`t1, this`exp0, this`exp1, this`used0, this`used1, this`rehashidx
      ensures Valid() && All() == old(All())
      ensures Rehashing() ==> (exp0, exp1) == old((exp0, exp1))
      ensures !Rehashing() ==> exp0 == old(exp1)
      ensures pauserehash == 0 && Rehashing() ==> rehashidx > old(rehashidx)
      ensures pauserehash != 0 ==> Rehashing() && rehashidx == old(rehashidx)
    {
      hide Shape, Bag, Graph;
      if pauserehash == 0 {
        var more := Rehash(1);
      }
    }

    /** _dict_expand_if_needed; whether the type allows it is the caller's business. */
    method ExpandIfNeeded(allowed: bool) returns (ok: bool)
      requires Valid() && used0 + 1 < ULONG_LIMIT
      modifies this`t0, this`t1, this`exp0, this`exp1, this`used0, this`used1, this`rehashidx
      ensures Valid() && All() == old(All())
      ensures ok ==> t0 != []
      ensures ok <==> !(NeedsRoom(old(exp0), old(used0), old(rehashidx)) && allowed && old(used0) >= 0x1000_0000_0000_0000)
      ensures old(t0) == [] ==> |t0| == 4 && !Rehashing()
      ensures ok && NeedsRoom(old(exp0), old(used0), old(rehashidx)) && allowed ==>
                Rehashing() && rehashidx == 0 && IsNextExp(old(used0) + 1, exp1) && (t0, used0, exp0) == old((t0, used0, exp0))
      ensures !ok || (old(t0) != [] && !(NeedsRoom(old(exp0), old(used0), old(rehashidx)) && allowed)) ==>
                (t0, t1, exp0, exp1) == old((t0, t1, exp0, exp1)) && (used0, used1, rehashidx) == old((used0, used1, rehashidx))
    {
      hide Pow2, Bag, Placed, Graph;
      Pow2Values();
      ok := true;
      if Rehashing() {
        return;
      }
      if HtSize(exp0) == 0 {
        NoTables(t0, t1, hash);
        ok := Expand(DICT_HT_INITIAL_SIZE);
        FourBuckets(exp0);
      } else if used0 >= HtSize(exp0) && allowed {
        LargerExp(used0 + 1, exp0);
        ok := Expand(used0 + 1);
      }
    }

    /** The lookup loop over one table or two. */
    method Locate(key: K) returns (found: bool, table: nat, idx: nat, at: nat)
      requires Valid() && t0 != []
      ensures table <= 1 && (table == 1 ==> Rehashing()) && (!found && Rehashing() ==> table == 1)
      ensures var t := if table == 0 then t0 else t1;
              && t != [] && idx == hash(key) % |t|
              && (found ==> at < |t[idx]| && t[idx][at].key == key)
              && (found ==> key in contents && t[idx][at].val == contents[key])
      ensures !found ==> key !in contents
    {
      hide Pow2, Bag, Placed, Graph;
      table := 0;
      idx := hash(key) % |t0|;
      at := Search(t0[idx], key);
      found := at < |t0[idx]|;
      if found {
        InChain(t0, t1, contents, idx, at);
        return;
      }
      OnlyInChain(t0, hash, key);
      if !Rehashing() {
        NoTables(t0, t1, hash);
        GraphLacks(All(), contents, key);
        return;
      }
      table := 1;
      idx := hash(key) % |t1|;
      at := Search(t1[idx], key);
      found := at < |t1[idx]|;
      if found {
        InOther(t0, t1, contents, idx, at);
        return;
      }
      OnlyInChain(t1, hash, key);
      GraphLacks(All(), contents, key);
    }

    /** dict_add_raw with the value its caller then stores. */
    method Add(key: K, val: V, allowed: bool) returns (ok: bool, existing: Option<V>)
      requires Valid() && |contents| + 1 < ULONG_LIMIT
      modifies this
      ensures Valid() && pauserehash == old(pauserehash)
      ensures contents == if ok then old(contents)[key := val] else old(contents)
      ensures ok ==> key !in old(contents) && existing == None
      ensures existing == if key in old(contents) && existing.Some? then Some(old(contents)[key]) else None
      ensures |old(contents)| < Pow2(60) ==> (ok <==> key !in old(contents)) && (existing.Some? <==> key in old(contents))
      ensures old(t0) == [] ==> |t0| == 4
      ensures NeedsRoom(old(exp0), old(used0), old(rehashidx)) && allowed && old(used0) < 0x1000_0000_0000_0000 ==>
                Rehashing() && rehashidx == 0 && exp0 == old(exp0) && IsNextExp(old(used0) + 1, exp1)
      ensures old(Rehashing()) && pauserehash == 0 ==> exp0 == old(exp1) || rehashidx > old(rehashidx)
    {
      hide Pow2, Bag, Placed, Graph, IsNextExp, NeedsRoom;
      ok := Prepare(allowed);
      if !ok {
        return false, None;
      }
      var found, table, idx, at := Locate(key);
      if found {
        var t: Table<K, V> := if table == 0 then t0 else t1;
        return false, Some(t[idx][at].val);
      }
      AddAt(key, val, idx);
      return true, None;
    }

    /** What an addition does first: one rehash step, and a larger table if there is none to fill. */
    method Prepare(allowed: bool) returns (ok: bool)
      requires Valid() && |contents| + 1 < ULONG_LIMIT
      modifies this`t0, this`t1, this`exp0, this`exp1, this`used0, this`used1, this`rehashidx
      ensures Valid() && All() == old(All()) && (ok ==> t0 != []) && (!ok ==> |contents| >= Pow2(60))
      ensures old(t0) == [] ==> |t0| == 4
      ensures NeedsRoom(old(exp0), old(used0), old(rehashidx)) && allowed && old(used0) < 0x1000_0000_0000_0000 ==>
                Rehashing() && rehashidx == 0 && exp0 == old(exp0) && IsNextExp(old(used0) + 1, exp1)
      ensures old(Rehashing()) && pauserehash == 0 ==> exp0 == old(exp1) || rehashidx > old(rehashidx)
    {
      hide Pow2, Bag, Placed, Graph, IsNextExp;
      Pow2Values();
      NoTables(t0, t1, hash);
      if Rehashing() {
        RehashStep();
      }
      GraphSize(All(), contents);
      NoTables(t0, t1, hash);
      ok := ExpandIfNeeded(allowed);
    }

    method AddAt(key: K, val: V, idx: nat)
      requires Valid() && key !in contents && t0 != []
      requires Rehashing() ==> t1 != [] && idx == hash(key) % |t1|
      requires !Rehashing() ==> idx == hash(key) % |t0|
      modifies this`t0, this`t1, this`used0, this`used1, this`contents
      ensures Valid() && contents == old(contents)[key := val] && |t0| == |old(t0)|
    {
      hide Pow2, Bag, Placed, Graph;
      var e := Item(key, val);
      if Rehashing() {
        assert All() == Bag(t1) + Bag(t0);
        Pushed(t1, t0, hash, contents, idx, e);
        t1 := t1[idx := [e] + t1[idx]];
        used1 := used1 + 1;
        assert All() == Bag(t1) + Bag(t0);
      } else {
        Pushed(t0, t1, hash, contents, idx, e);
        t0 := t0[idx := [e] + t0[idx]];
        used0 := used0 + 1;
      }
      contents := contents[key := val];
    }

    /** dict_find. */
    method Find(key: K) returns (value: Option<V>)
      requires Valid()
      modifies this`t0, this`t1, this`exp0, this`exp1, this`used0, this`used1, this`rehashidx
      ensures Valid() && All() == old(All())
      ensures value == if key in contents then Some(contents[key]) else None
      ensures old(Rehashing()) && pauserehash == 0 && contents != map[] ==>
                (!Rehashing() && exp0 == old(exp1)) || rehashidx > old(rehashidx)
    {
      hide Pow2, Bag, Placed, Graph;
      GraphSize(All(), contents);
      NoTables(t0, t1, hash);
      if used0 + used1 == 0 {
        return None;
      }
      if Rehashing() {
        RehashStep();
      }
      NoTables(t0, t1, hash);
      GraphSize(All(), contents);
      var found, table, idx, at := Locate(key);
      if found {
        var t: Table<K, V> := if table == 0 then t0 else t1;
        return Some(t[idx][at].val);
      }
      return None;
    }

    /** dict_generic_delete. */
    method Delete(key: K) returns (value: Option<V>)
      requires Valid()
      modifies this
      ensures Valid() && pauserehash == old(pauserehash)
      ensures contents == old(contents) - {key}
      ensures value == if key in old(contents) then Some(old(contents)[key]) else None
      ensures old(Rehashing()) && pauserehash == 0 && old(contents) != map[] ==>
                (!Rehashing() && exp0 == old(exp1)) || rehashidx > old(rehashidx)
    {
      hide Pow2, Bag, Placed, Graph;
      GraphSize(All(), contents);
      NoTables(t0, t1, hash);
      if used0 + used1 == 0 {
        assert contents == map[];
        return None;
      }
      if Rehashing() {
        RehashStep();
      }
      NoTables(t0, t1, hash);
      GraphSize(All(), contents);
      var found, table, idx, at := Locate(key);
      if found {
        var t: Table<K, V> := if table == 0 then t0 else t1;
        value := Some(t[idx][at].val);
        Unlink(table, idx, at);
        return;
      }
      assert contents - {key} == contents;
      return None;
    }

    method Unlink(table: nat, idx: nat, at: nat)
      requires Valid() && table <= 1
      requires var t := if table == 0 then t0 else t1;
               idx < |t| && at < |t[idx]|
      modifies this`t0, this`t1, this`used0, this`used1, this`contents
      ensures Valid()
      ensures var t := if table == 0 then old(t0) else old(t1);
              contents == old(contents) - {t[idx][at].key}
    {
      hide Pow2, Bag, Placed, Graph, EmptyBelow;
      if table == 0 {
        Dropped(t0, t1, hash, contents, idx, at);
        if Rehashing() {
          DropBelow(t0, rehashidx, idx, at);
        }
        contents := contents - {t0[idx][at].key};
        t0 := t0[idx := t0[idx][..at] + t0[idx][at + 1..]];
        used0 := used0 - 1;
      } else {
        assert All() == Bag(t1) + Bag(t0);
        Dropped(t1, t0, hash, contents, idx, at);
        contents := contents - {t1[idx][at].key};
        t1 := t1[idx := t1[idx][..at] + t1[idx][at + 1..]];
        used1 := used1 - 1;
        assert All() == Bag(t1) + Bag(t0);
      }
    }

    /** dict_pause_rehashing and dict_resume_rehashing. */
    method Pause(delta: int)
      requires Valid()
      modifies this`pauserehash
      ensures pauserehash == old(pauserehash) + delta
    {
      pauserehash := pauserehash + delta;
    }

    /** One operation; full is an addition for which the table would have to outgrow its limit. */
    method Do(op: Op<K, V>) returns (value: Option<V>, full: bool)
      requires Valid() && |contents| + 1 < ULONG_LIMIT && (op.ExpandTo? ==> op.size < ULONG_LIMIT)
      modifies this
      ensures Valid() && |contents| <= |old(contents)| + 1
      ensures !full ==> contents == Apply(old(contents), op) && value == Before(old(contents), op)
      ensures full ==> op.Insert? && |contents| >= Pow2(60) && contents == old(contents)
    {
      hide Shape, Graph, Pow2;
      ApplySize(contents, op);
      value, full := None, false;
      match op
      case Insert(k, v, allowed) =>
        var ok, was := Add(k, v, allowed);
        value, full := was, !ok && was.None?;
      case Lookup(k) => value := Find(k);
      case Remove(k) => value := Delete(k);
      case ExpandTo(size) => var ok := Expand(size);
      case Migrate(n) => var more := Rehash(n);
      case PauseBy(delta) => Pause(delta);
    }

    /**
      Any run of operations, up to an addition to a table that may not grow: the two tables are the map
      the run builds, and every answer is the map's.
    */
    method Run(ops: seq<Op<K, V>>) returns (done: nat, values: seq<Option<V>>)
      requires Valid() && |contents| + |ops| < ULONG_LIMIT
      requires forall i | 0 <= i < |ops| && ops[i].ExpandTo? :: ops[i].size < ULONG_LIMIT
      modifies this
      ensures Valid() && done <= |ops|
      ensures contents == ApplyAll(old(contents), ops[..done]) && values == Answers(old(contents), ops[..done])
      ensures done < |ops| ==> ops[done].Insert? && |contents| >= Pow2(60)
      ensures |old(contents)| + |ops| <= Pow2(60) ==> done == |ops|
    {
      hide Shape, Graph, Pow2, Apply, Before;
      done, values := 0, [];
      ghost var m := contents;
      RunStart(m, ops);
      while done < |ops|
        invariant 0 <= done <= |ops| && Valid() && |contents| <= |m| + done
        invariant contents == ApplyAll(m, ops[..done]) && values == Answers(m, ops[..done])
      {
        RunStep(m, ops, done);
        var value, full := Do(ops[done]);
        if full {
          return;
        }
        values := values + [value];
        done := done + 1;
      }
    }
  }

  // ---------------------------------------------------------------- runs of operations

  datatype Op<K, V> =
    | Insert(key: K, val: V, allowed: bool)
    | Lookup(key: K)
    | Remove(key: K)
    | ExpandTo(size: nat)
    | Migrate(n: nat)
    | PauseBy(delta: int)

  /** What an operation does to the map; only additions of new keys and removals do anything. */
  function Apply<K, V>(m: map<K, V>, op: Op<K, V>): map<K, V> {
    match op
    case Insert(k, v, _) => if k in m then m else m[k := v]
    case Remove(k) => m - {k}
    case _ => m
  }

  /** The value an operation reports: that of its key before. */
  function Before<K, V>(m: map<K, V>, op: Op<K, V>): Option<V> {
    if (op.Insert? || op.Lookup? || op.Remove?) && op.key in m then Some(m[op.key]) else None
  }

  function ApplyAll<K, V>(m: map<K, V>, ops: seq<Op<K, V>>): map<K, V>
    decreases |ops|
  {
    if ops == [] then m else Apply(ApplyAll(m, ops[..|ops| - 1]), ops[|ops| - 1])
  }

  function Answers<K, V>(m: map<K, V>, ops: seq<Op<K, V>>): seq<Option<V>>
    decreases |ops|
  {
    if ops == [] then []
    else Answers(m, ops[..|ops| - 1]) + [Before(ApplyAll(m, ops[..|ops| - 1]), ops[|ops| - 1])]
  }

  lemma RunStart<K, V>(m: map<K, V>, ops: seq<Op<K, V>>)
    ensures ops[..0] == [] && ApplyAll(m, ops[..0]) == m && Answers(m, ops[..0]) == []
  {
  }

  lemma RunStep<K, V>(m: map<K, V>, ops: seq<Op<K, V>>, i: nat)
    requires i < |ops|
    ensures ApplyAll(m, ops[..i + 1]) == Apply(ApplyAll(m, ops[..i]), ops[i])
    ensures Answers(m, ops[..i + 1]) == Answers(m, ops[..i]) + [Before(ApplyAll(m, ops[..i]), ops[i])]
  {
    hide Apply, Before;
    var next := ops[..i + 1];
    assert next[..|next| - 1] == ops[..i] && next[|next| - 1] == ops[i];
  }

  lemma ApplySize<K, V>(m: map<K, V>, op: Op<K, V>)
    ensures |Apply(m, op)| <= |m| + 1
  {
    if op.Remove? {
      var r := m - {op.key};
      assert r.Keys <= m.Keys;
      SubsetSize(r.Keys, m.Keys);
      assert |r| == |r.Keys| && |m| == |m.Keys|;
    } else if op.Insert? && op.key !in m {
      var r := m[op.key := op.val];
      assert r.Keys == m.Keys + {op.key} && |r| == |r.Keys| && |m| == |m.Keys|;
    }
  }

  lemma InChain<K(!new), V>(t: Table<K, V>, other: Table<K, V>, m: map<K, V>, idx: nat, at: nat)
    requires Graph(Bag(t) + Bag(other), m) && idx < |t| && at < |t[idx]|
    ensures var e := t[idx][at];
            e.key in m && m[e.key] == e.val
  {
    var e := t[idx][at];
    BagHas(t, e);
    GraphHas(Bag(t) + Bag(other), m, e);
  }

  lemma InOther<K(!new), V>(other: Table<K, V>, t: Table<K, V>, m: map<K, V>, idx: nat, at: nat)
    requires Graph(Bag(other) + Bag(t), m) && idx < |t| && at < |t[idx]|
    ensures var e := t[idx][at];
            e.key in m && m[e.key] == e.val
  {
    hide Bag, Graph;
    assert Bag(other) + Bag(t) == Bag(t) + Bag(other);
    InChain(t, other, m, idx, at);
  }

  lemma Pushed<K(!new), V>(t: Table<K, V>, other: Table<K, V>, hash: K -> nat, m: map<K, V>, idx: nat, e: Item<K, V>)
    requires Placed(t, hash) && Graph(Bag(t) + Bag(other), m) && idx < |t| && idx == hash(e.key) % |t| && e.key !in m
    ensures var r := t[idx := [e] + t[idx]];
            && Placed(r, hash) && |Bag(r)| == |Bag(t)| + 1 && |r| == |t|
            && Graph(Bag(r) + Bag(other), m[e.key := e.val])
  {
    hide Bag, Placed, Graph;
    var r := t[idx := [e] + t[idx]];
    PushBag(t, hash, idx, e);
    GraphAdd(Bag(t) + Bag(other), m, e.key, e.val);
    assert Bag(r) + Bag(other) == (Bag(t) + Bag(other)) + multiset{Item(e.key, e.val)};
  }

  lemma Dropped<K(!new), V>(t: Table<K, V>, other: Table<K, V>, hash: K -> nat, m: map<K, V>, idx: nat, at: nat)
    requires Placed(t, hash) && Graph(Bag(t) + Bag(other), m) && idx < |t| && at < |t[idx]|
    ensures var r := t[idx := t[idx][..at] + t[idx][at + 1..]];
            && Placed(r, hash) && |Bag(r)| == |Bag(t)| - 1 && |r| == |t|
            && Graph(Bag(r) + Bag(other), m - {t[idx][at].key})
  {
    hide Bag, Placed, Graph;
    var r, e := t[idx := t[idx][..at] + t[idx][at + 1..]], t[idx][at];
    DropBag(t, hash, idx, at);
    assert Bag(t) + Bag(other) == (Bag(r) + Bag(other)) + multiset{e};
    GraphRemove(Bag(t) + Bag(other), Bag(r) + Bag(other), m, e);
  }

  lemma DropBelow<K(!new), V>(t: Table<K, V>, n: nat, idx: nat, at: nat)
    requires EmptyBelow(t, n) && idx < |t| && at < |t[idx]|
    ensures EmptyBelow(t[idx := t[idx][..at] + t[idx][at + 1..]], n)
  {
  }

  lemma ExpOne(size: nat, e: nat, f: int)
    requires IsNextExp(size, e) && f >= -1
    ensures IsNextExp(size, f) <==> e == f
  {
    hide Pow2;
    if 2 <= f < e {
      Pow2Grows(f, e - 1);
    } else if f > e {
      Pow2Grows(e, f - 1);
    }
  }

  /** From 2^60 on the bytes of the table are more than 64 bits can count. */
  lemma ExpOverflows(size: nat, e: nat)
    requires IsNextExp(size, e)
    ensures size > 0x1000_0000_0000_0000 ==> Pow2(e) * 8 % 0x1_0000_0000_0000_0000 == 0
    ensures size <= 0x1000_0000_0000_0000 ==> Pow2(e) * 8 < 0x1_0000_0000_0000_0000
  {
    hide Pow2;
    Pow2Values();
    ExpBounds(size, e);
    if size > 0x1000_0000_0000_0000 {
      if e <= 60 {
        Pow2Grows(e, 60);
      } else {
        Pow2Top();
      }
    }
  }

  lemma Pow2Top()
    ensures Pow2(61) == 2 * Pow2(60) && Pow2(62) == 4 * Pow2(60) && Pow2(63) == 8 * Pow2(60)
  {
  }

  lemma ExpBounds(size: nat, e: nat)
    requires IsNextExp(size, e)
    ensures 2 <= e <= 63 && (size <= Pow2(60) ==> size <= Pow2(e) <= Pow2(60))
    ensures Pow2(60) == 0x1000_0000_0000_0000
  {
    hide Pow2;
    Pow2Values();
    if size <= Pow2(60) && e > 60 {
      Pow2Grows(60, e - 1);
    } else if e <= 60 {
      Pow2Grows(e, 60);
    }
  }

  lemma BagGone<K(!new), V>(t: Table<K, V>)
    ensures |Bag(t)| == 0 ==> Bag(t) == multiset{}
  {
  }

  lemma NoTables<K(!new), V>(t0: Table<K, V>, t1: Table<K, V>, hash: K -> nat)
    ensures t1 == [] ==> Bag(t1) == multiset{} && Placed(t1, hash)
    ensures t0 == [] ==> Bag(t0) == multiset{} && Placed(t0, hash)
  {
  }
}
