/**
  What a least-recently-used cache is, apart from how src/cache/lru_cache.c keeps it: its bindings
  and the time of the last use of each key.
*/
module CacheHistory {
  import opened Wrappers

  datatype Pair<K, V> = Pair(key: K, val: V)

  /** The bindings and when each key was last used, by a clock that ticks with every use. */
  datatype History<K, V> = HistoryOf(entries: map<K, V>, used: map<K, nat>, now: nat)

  datatype CacheOp<K, V> = Fetch(key: K) | Store(key: K, val: V, allowed: bool) | Drop(key: K) | Evict

  datatype Answer<K, V> = Fetched(pair: Option<Pair<K, V>>) | Stored(code: int) | Dropped | Evicted(key: K)

  /** The last use of k is the longest ago. */
  ghost predicate Oldest<K>(used: map<K, nat>, k: K) {
    k in used && forall j | j in used && j != k :: used[j] > used[k]
  }

  ghost function OldestOf<K>(used: map<K, nat>): Option<K> {
    if k :| k in used && Oldest(used, k) then Some(k) else None
  }

  lemma OldestIs<K>(used: map<K, nat>, k: K)
    requires Oldest(used, k)
    ensures OldestOf(used) == Some(k)
  {
  }

  /** What an operation does to the bindings and the times of use. */
  ghost function After<K, V>(h: History<K, V>, op: CacheOp<K, V>): History<K, V> {
    match op
    case Fetch(k) => if k in h.entries then h.(used := h.used[k := h.now], now := h.now + 1) else h
    case Store(k, v, _) => HistoryOf(h.entries[k := v], h.used[k := h.now], h.now + 1)
    case Drop(k) => h.(entries := h.entries - {k}, used := h.used - {k})
    case Evict =>
      var oldest := OldestOf(h.used);
      if oldest.None? then h else h.(entries := h.entries - {oldest.value}, used := h.used - {oldest.value})
  }

  ghost function AnswerTo<K, V>(h: History<K, V>, op: CacheOp<K, V>): Answer<K, V> {
    match op
    case Fetch(k) => Fetched(if k in h.entries then Some(Pair(k, h.entries[k])) else None)
    case Store(k, _, _) => Stored(if k in h.entries then 0 else 1)
    case Drop(_) => Dropped
    case Evict =>
      var oldest := OldestOf(h.used);
      if oldest.None? then Dropped else Evicted(oldest.value)
  }

  ghost function AfterAll<K, V>(h: History<K, V>, ops: seq<CacheOp<K, V>>): History<K, V>
    decreases |ops|
  {
    if ops == [] then h else After(AfterAll(h, ops[..|ops| - 1]), ops[|ops| - 1])
  }

  ghost function AllAnswers<K, V>(h: History<K, V>, ops: seq<CacheOp<K, V>>): seq<Answer<K, V>>
    decreases |ops|
  {
    if ops == [] then []
    else AllAnswers(h, ops[..|ops| - 1]) + [AnswerTo(AfterAll(h, ops[..|ops| - 1]), ops[|ops| - 1])]
  }

  /** The first operation that pops an empty cache, or the length of the run. */
  ghost function FirstFault<K, V>(h: History<K, V>, ops: seq<CacheOp<K, V>>): nat
    decreases |ops|
  {
    if ops == [] || (ops[0].Evict? && h.entries == map[]) then 0 else 1 + FirstFault(After(h, ops[0]), ops[1..])
  }

  lemma HistoryStart<K, V>(h: History<K, V>, ops: seq<CacheOp<K, V>>)
    ensures ops[..0] == [] && ops[0..] == ops && AfterAll(h, ops[..0]) == h && AllAnswers(h, ops[..0]) == []
  {
  }

  lemma HistoryEnd<K, V>(h: History<K, V>, ops: seq<CacheOp<K, V>>)
    ensures FirstFault(h, ops[|ops|..]) == 0
  {
  }

  lemma HistoryStep<K, V>(h: History<K, V>, ops: seq<CacheOp<K, V>>, i: nat, at: History<K, V>)
    requires i < |ops| && at == AfterAll(h, ops[..i])
    ensures AfterAll(h, ops[..i + 1]) == After(at, ops[i])
    ensures AllAnswers(h, ops[..i + 1]) == AllAnswers(h, ops[..i]) + [AnswerTo(at, ops[i])]
    ensures (FirstFault(at, ops[i..])
             == if ops[i].Evict? && at.entries == map[] then 0 else 1 + FirstFault(After(at, ops[i]), ops[i + 1..]))
  {
    hide After, AnswerTo;
    var next := ops[..i + 1];
    assert next[..|next| - 1] == ops[..i] && next[|next| - 1] == ops[i];
    assert ops[i..][0] == ops[i] && ops[i..][1..] == ops[i + 1..];
  }

  lemma FewerEntries<K, V>(m: map<K, V>, k: K)
    ensures |m - {k}| <= |m|
  {
    var r := m - {k};
    if k in m {
      assert r.Keys == m.Keys - {k} && |m| == |m.Keys| && |r| == |r.Keys|;
    } else {
      assert r == m;
    }
  }

  lemma MoreEntries<K, V>(m: map<K, V>, k: K, v: V)
    ensures |m[k := v]| <= |m| + 1
  {
    var r := m[k := v];
    assert r.Keys == m.Keys + {k} && |m| == |m.Keys| && |r| == |r.Keys|;
  }
}
