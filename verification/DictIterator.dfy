/**
  The iterator of src/dict/dict.c over a dictionary that does not change meanwhile. Asking whether
  there is a next entry is what moves it.
*/
module DictIterator {
  import opened Wrappers
  import opened DictTable
  import opened Dict

  /** The entries of a table in the order of the walk. */
  function Flatten<K, V>(t: Table<K, V>): Chain<K, V> {
    if t == [] then [] else t[0] + Flatten(t[1..])
  }

  /** The entries of the chains from i on, and of the second table after the first. */
  function Rest<K, V>(t0: Table<K, V>, t1: Table<K, V>, both: bool, table: nat, i: nat): Chain<K, V> {
    if table == 0 then (if i <= |t0| then Flatten(t0[i..]) else []) + (if both then Flatten(t1) else [])
    else if i <= |t1| then Flatten(t1[i..])
    else []
  }

  lemma {:induction false} FlattenBag<K, V>(t: Table<K, V>)
    ensures multiset(Flatten(t)) == Bag(t)
    decreases |t|
  {
    if t != [] {
      FlattenBag(t[1..]);
    }
  }

  lemma RestHere<K, V>(t0: Table<K, V>, t1: Table<K, V>, both: bool, table: nat, i: nat)
    requires i < |if table == 0 then t0 else t1|
    ensures var t := if table == 0 then t0 else t1;
            Rest(t0, t1, both, table, i) == t[i] + Rest(t0, t1, both, table, i + 1)
  {
    var t := if table == 0 then t0 else t1;
    assert t[i..][0] == t[i] && t[i..][1..] == t[i + 1..];
  }

  lemma RestOver<K, V>(t0: Table<K, V>, t1: Table<K, V>, i: nat)
    requires i >= |t0|
    ensures Rest(t0, t1, true, 0, i) == Rest(t0, t1, true, 1, 0)
  {
    assert t1[0..] == t1;
  }

  lemma RestEnd<K, V>(t0: Table<K, V>, t1: Table<K, V>, both: bool, table: nat, i: nat)
    requires i >= |if table == 0 then t0 else t1| && (table == 0 ==> !both)
    ensures Rest(t0, t1, both, table, i) == []
  {
  }

  class Iterator<K(==, !new), V> {
    const dict: Dict<K, V>
    var index: int
    var table: nat
    var entry: Chain<K, V>
    var nextEntry: Chain<K, V>
    var read: bool

    ghost predicate Valid()
      reads this, dict
    {
      && dict.Shaped() && (table == 1 ==> dict.Rehashing()) && -2 <= index
      && (entry != [] ==> index >= 0 && nextEntry == entry[1..])
    }

    function Walked(): Table<K, V>
      reads this, dict
    {
      if table == 0 then dict.t0 else dict.t1
    }

    ghost function Behind(i: nat): Chain<K, V>
      reads this, dict
    {
      Rest(dict.t0, dict.t1, dict.Rehashing(), table, i)
    }

    /** The entries still to come. */
    ghost function Pending(): Chain<K, V>
      reads this, dict
    {
      if index < -1 then [] else (if entry == [] then [] else nextEntry) + Behind(index + 1)
    }

    /** dict_get_latte_iterator. */
    constructor (dict: Dict<K, V>)
      requires dict.Shaped()
      ensures Valid() && this.dict == dict && index == -1 && entry == [] && !read
      ensures multiset(Pending()) == dict.All()
    {
      this.dict := dict;
      table, index, entry, nextEntry, read := 0, -1, [], [], false;
      new;
      AllPending(dict);
    }

    /** protected_dict_iterator_has_next. */
    method HasNext() returns (more: bool)
      requires Valid()
      modifies this
      ensures Valid() && more == (old(Pending()) != [])
      ensures more ==> entry != [] && [entry[0]] + Pending() == old(Pending()) && !read && index >= 0
      ensures !more ==> index == -2
    {
      hide Shape, Rest;
      if index == -2 {
        return false;
      }
      if entry != [] {
        entry := nextEntry;
        if entry != [] {
          HeadOff(entry, Behind(index + 1));
          nextEntry := entry[1..];
          read := false;
          return true;
        }
      }
      more := NextChain();
    }

    /** The loop while there is no entry: on to the next chain that has one. */
    method NextChain() returns (more: bool)
      requires Valid() && entry == [] && index >= -1
      modifies this
      ensures Valid() && more == (old(Pending()) != [])
      ensures more ==> entry != [] && [entry[0]] + Pending() == old(Pending()) && !read && index >= 0
      ensures !more ==> index == -2
    {
      hide Shape, Rest, Bag, Dict.Shaped, Dict.All, Walked;
      while entry == []
        invariant Valid() && index >= -1 && entry == [] && Behind(index + 1) == old(Pending())
        decreases ToGo()
      {
        var end := Advance();
        if end {
          index := -2;
          return false;
        }
        if entry != [] {
          HeadOff(entry, Behind(index + 1));
          nextEntry := entry[1..];
          read := false;
          return true;
        }
      }
    }

    /** How many chains the walk has not seen. */
    ghost function ToGo(): nat
      reads this, dict
    {
      if index < -1 then 0 else if table == 0 then Left(dict.t0, index) + 2 + |dict.t1| else Left(dict.t1, index)
    }

    method Advance() returns (end: bool)
      requires Valid() && entry == [] && index >= -1
      modifies this`index, this`table, this`entry
      ensures index >= 0 && (table == 1 ==> dict.Rehashing())
      ensures end ==> entry == [] && old(Behind(index + 1)) == []
      ensures !end ==> entry + Behind(index + 1) == old(Behind(index + 1)) && ToGo() < old(ToGo())
    {
      hide Shape, Rest, Bag, Dict.Shaped, Dict.All;
      index := index + 1;
      if index >= |Walked()| {
        if dict.Rehashing() && table == 0 {
          RestOver(dict.t0, dict.t1, index);
          SecondTable(dict);
          table, index := 1, 0;
        } else {
          RestEnd(dict.t0, dict.t1, dict.Rehashing(), table, index);
          return true;
        }
      }
      RestHere(dict.t0, dict.t1, dict.Rehashing(), table, index);
      entry := Walked()[index];
      return false;
    }

    /**
      protected_dict_iterator_next. Its guard against calling it without asking first only looks at
      whether the entry was read, so it follows a null entry exactly when the iteration is not over,
      nothing was read and there is no entry.
    */
    method Next() returns (fault: bool, pair: Option<Item<K, V>>)
      requires Valid()
      modifies this
      ensures Valid() && (fault <==> old(index) != -2 && !old(read) && old(entry) == [])
      ensures fault ==> pair == None && index == old(index) && entry == old(entry) && Pending() == old(Pending())
      ensures pair.Some? ==> read && entry != [] && pair.value == entry[0]
      ensures !fault && old(index) != -2 && !old(read) ==> pair.Some? && entry == old(entry) && Pending() == old(Pending())
      ensures old(index) == -2 ==> pair == None && index == -2
      ensures old(index) != -2 && old(read) && pair.Some? ==> [pair.value] + Pending() == old(Pending())
      ensures old(index) != -2 && old(read) && pair.None? ==> old(Pending()) == [] && index == -2
    {
      hide Shape, Rest;
      if index == -2 {
        return false, None;
      }
      if read {
        var more := HasNext();
        if !more {
          return false, None;
        }
      }
      if entry == [] {
        return true, None;
      }
      pair := Some(entry[0]);
      read := true;
      return false, pair;
    }

    /** The usual loop: every entry that is still to come, once. */
    method Collect() returns (pairs: Chain<K, V>)
      requires Valid() && index == -1 && entry == []
      modifies this
      ensures multiset(pairs) == old(multiset(Pending()))
    {
      hide *;
      pairs := [];
      ghost var left := Pending();
      ghost var all := multiset(left);
      var more := HasNext();
      while more
        invariant Valid() && more == (left != [])
        invariant more ==> entry != [] && !read && index >= 0 && left == [entry[0]] + Pending()
        invariant multiset(pairs) + multiset(left) == all
        decreases |left|
      {
        TakeHead(pairs, left);
        var fault, pair := Next();
        pairs := pairs + [pair.value];
        assert left[1..] == Pending();
        left := Pending();
        more := HasNext();
      }
    }
  }

  /** The input that shows it: next on a new iterator, whatever the dictionary holds. */
  method NextFirst<K(==, !new), V>(dict: Dict<K, V>) returns (fault: bool)
    requires dict.Valid()
    ensures fault
  {
    hide Shape, Graph, Bag, Rest;
    var it := new Iterator(dict);
    var pair;
    fault, pair := it.Next();
  }

  /** A new iterator yields every binding of the dictionary once and nothing else. */
  method AllBindings<K(==, !new), V>(dict: Dict<K, V>) returns (pairs: Chain<K, V>)
    requires dict.Valid()
    ensures Graph(multiset(pairs), dict.contents) && |pairs| == |dict.contents|
  {
    hide Shape, Graph, Bag;
    var it := new Iterator(dict);
    pairs := it.Collect();
    GraphSize(multiset(pairs), dict.contents);
  }

  lemma TakeHead<K, V>(pairs: Chain<K, V>, left: Chain<K, V>)
    requires left != []
    ensures multiset(pairs + [left[0]]) + multiset(left[1..]) == multiset(pairs) + multiset(left)
  {
    HeadSplits(left);
  }

  lemma HeadOff<K, V>(c: Chain<K, V>, more: Chain<K, V>)
    requires c != []
    ensures c + more == [c[0]] + (c[1..] + more)
  {
  }

  function Left<K, V>(t: Table<K, V>, index: int): nat {
    if index < |t| then |t| - index else 0
  }

  lemma SecondTable<K(!new), V>(dict: Dict<K, V>)
    requires dict.Shaped()
    ensures dict.Rehashing() ==> dict.t1 != []
  {
  }

  lemma AllPending<K(!new), V>(dict: Dict<K, V>)
    requires dict.Shaped()
    ensures multiset(Rest(dict.t0, dict.t1, dict.Rehashing(), 0, 0)) == dict.All()
  {
    assert dict.t0[0..] == dict.t0;
    FlattenBag(dict.t0);
    FlattenBag(dict.t1);
  }
}
