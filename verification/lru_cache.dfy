/** `Text2CypherCache`: a least-recently-used cache of pipeline results.

    The `OrderedDict` is a sequence of entries, least recently used first;
    `move_to_end` moves an entry to the back and `popitem(last=False)` drops
    the front. Both copies of the class (top level and `utils/`) are the same
    code and are modelled by this one module.
 */
module Text2CypherCache {
  import opened Wrappers
  import opened OrderedMap
  import opened CacheKey

  datatype Cache<V> = Cache(maxSize: int, store: Dict<V>, hits: nat, misses: nat)

  /** A `get`: the cache afterwards and the value returned (`None` on a miss). */
  datatype Lookup<V> = Lookup(cache: Cache<V>, result: Option<V>)

  datatype CacheStats = CacheStats(size: nat, maxSize: int, hits: nat, misses: nat, hitRate: real)

  /** The most entries a cache of this `max_size` can hold after any `set`. */
  function Capacity(maxSize: int): nat {
    if maxSize < 0 then 0 else maxSize
  }

  /** What every reachable cache satisfies: distinct keys, and no more
      entries than the capacity. */
  predicate Valid<V>(c: Cache<V>) {
    DistinctKeys(c.store) && |c.store| <= Capacity(c.maxSize)
  }

  /** `Text2CypherCache(max_size)`. */
  function New<V>(maxSize: int): (c: Cache<V>)
    ensures Valid(c) && |c.store| == 0 && c.hits == 0 && c.misses == 0
  {
    Cache(maxSize, [], 0, 0)
  }

  /** `move_to_end` of the entry at `i`: the others keep their order. */
  function MoveToEnd<V>(d: Dict<V>, i: nat): (r: Dict<V>)
    requires i < |d|
    ensures |r| == |d| && r[|r| - 1] == d[i]
    ensures forall j :: 0 <= j < i ==> r[j] == d[j]
    ensures forall j :: i <= j < |d| - 1 ==> r[j] == d[j + 1]
  {
    d[..(i)] + d[i + 1..] + [d[i]]
  }

  /** `get` on an already derived key. */
  function GetByKey<V>(c: Cache<V>, key: string): (r: Lookup<V>)
    ensures HasKey(c.store, key) ==>
      && r.cache.hits == c.hits + 1 && r.cache.misses == c.misses
      && r.cache.maxSize == c.maxSize
      && exists i :: 0 <= i < |c.store| && c.store[i].key == key
           && r.result == Some(c.store[i].value)
           && r.cache.store == c.store[..(i)] + c.store[i + 1..] + [c.store[i]]
    ensures !HasKey(c.store, key) ==>
      r.result == None && r.cache == c.(misses := c.misses + 1)
  {
    match IndexOf(c.store, key)
    case None => Lookup(c.(misses := c.misses + 1), None)
    case Some(i) =>
      Lookup(c.(hits := c.hits + 1, store := MoveToEnd(c.store, i)), Some(c.store[i].value))
  }

  /** `set` on an already derived key. */
  function SetByKey<V>(c: Cache<V>, key: string, v: V): (r: Cache<V>)
    ensures r.hits == c.hits && r.misses == c.misses && r.maxSize == c.maxSize
    ensures |r.store| <= |c.store| + 1
    ensures |r.store| > 0 ==> r.store[|r.store| - 1] == Entry(key, v)
  {
    var moved := match IndexOf(c.store, key)
      case None => c.store + [Entry(key, v)]
      case Some(i) => c.store[..(i)] + c.store[i + 1..] + [Entry(key, v)];
    var pruned := if |moved| > c.maxSize then moved[1..] else moved;
    c.(store := pruned)
  }

  /** `get(question, schema)`. */
  function Get<V>(c: Cache<V>, h: Hashing, question: string, schema: Json): (r: Lookup<V>)
    ensures r.result.Some? <==> HasKey(c.store, GenerateKey(h, question, schema))
    ensures r.result.Some? ==> r.cache.hits == c.hits + 1 && r.cache.misses == c.misses
    ensures r.result.None? ==> r.cache == c.(misses := c.misses + 1)
  {
    GetByKey(c, GenerateKey(h, question, schema))
  }

  /** `set(question, schema, result)`. */
  function Set<V>(c: Cache<V>, h: Hashing, question: string, schema: Json, v: V): (r: Cache<V>)
    ensures r.hits == c.hits && r.misses == c.misses
    ensures Valid(c) ==> Valid(r)
  {
    var key := GenerateKey(h, question, schema);
    assert Valid(c) ==> Valid(SetByKey(c, key, v)) by {
      if Valid(c) { SetPreservesValid(c, key, v); }
    }
    SetByKey(c, key, v)
  }

  /** `clear()`. */
  function Clear<V>(c: Cache<V>): (r: Cache<V>)
    ensures Valid(r) && |r.store| == 0 && r.hits == 0 && r.misses == 0
    ensures r.maxSize == c.maxSize
  {
    c.(store := [], hits := 0, misses := 0)
  }

  /** `__len__()`. */
  function Len<V>(c: Cache<V>): (n: nat)
    ensures Valid(c) ==> n <= Capacity(c.maxSize)
    ensures n == 0 <==> c.store == []
  {
    |c.store|
  }

  /** `get_stats()`, with the hit rate as an exact ratio. */
  function Stats<V>(c: Cache<V>): (s: CacheStats)
    ensures s.size == |c.store| && s.maxSize == c.maxSize
    ensures s.hits == c.hits && s.misses == c.misses
    ensures c.hits + c.misses == 0 ==> s.hitRate == 0.0
    ensures c.hits + c.misses > 0 ==> s.hitRate * (c.hits + c.misses) as real == c.hits as real
    ensures 0.0 <= s.hitRate <= 1.0
  {
    var total := c.hits + c.misses;
    var rate := if total > 0 then c.hits as real / total as real else 0.0;
    CacheStats(|c.store|, c.maxSize, c.hits, c.misses, rate)
  }

  lemma DistinctAfterRemoval<V>(d: Dict<V>, i: nat, e: Entry<V>)
    requires DistinctKeys(d) && i < |d| && e.key == d[i].key
    ensures DistinctKeys(d[..(i)] + d[i + 1..] + [e])
  {
    var r := d[..i] + d[i + 1..] + [e];
    forall a, b | 0 <= a < b < |r| ensures r[a].key != r[b].key {
      var a1 := if a < i then a else a + 1;
      assert r[a] == d[a1];
      if b < |r| - 1 {
        var b1 := if b < i then b else b + 1;
        assert r[b] == d[b1];
      }
    }
  }

  /** `set` keeps every reachable cache reachable: keys stay distinct and
      the size never exceeds `max_size` (nor 0 when `max_size` is negative). */
  lemma SetPreservesValid<V>(c: Cache<V>, key: string, v: V)
    requires Valid(c)
    ensures Valid(SetByKey(c, key, v))
  {
    var r := SetByKey(c, key, v);
    match IndexOf(c.store, key)
    case None =>
      var moved := c.store + [Entry(key, v)];
      assert DistinctKeys(moved) by {
        forall a, b | 0 <= a < b < |moved| ensures moved[a].key != moved[b].key {
          if b < |c.store| { assert moved[a] == c.store[a] && moved[b] == c.store[b]; }
          else { assert moved[a] == c.store[a]; }
        }
      }
      if |moved| > c.maxSize {
        assert r.store == moved[1..];
      }
    case Some(i) =>
      DistinctAfterRemoval(c.store, i, Entry(key, v));
  }

  /** `get` keeps every reachable cache reachable. */
  lemma GetPreservesValid<V>(c: Cache<V>, key: string)
    requires Valid(c)
    ensures Valid(GetByKey(c, key).cache)
  {
    match IndexOf(c.store, key)
    case None =>
    case Some(i) => DistinctAfterRemoval(c.store, i, c.store[i]);
  }

  /** `set` of a present key replaces its value and moves it to the most
      recent end; the size is unchanged and nothing is evicted. */
  lemma SetExistingKey<V>(c: Cache<V>, key: string, v: V, i: nat)
    requires Valid(c) && i < |c.store| && c.store[i].key == key
    ensures SetByKey(c, key, v).store == c.store[..(i)] + c.store[i + 1..] + [Entry(key, v)]
    ensures |SetByKey(c, key, v).store| == |c.store|
  {
  }

  /** `set` of an absent key into a full cache evicts exactly the least
      recently used entry, the first one. */
  lemma SetOverflowEvictsFirst<V>(c: Cache<V>, key: string, v: V)
    requires Valid(c) && !HasKey(c.store, key)
    requires c.maxSize >= 1 && |c.store| == c.maxSize
    ensures SetByKey(c, key, v).store == c.store[1..] + [Entry(key, v)]
    ensures !HasKey(SetByKey(c, key, v).store, c.store[0].key)
  {
    var r := SetByKey(c, key, v).store;
    assert (c.store + [Entry(key, v)])[1..] == c.store[1..] + [Entry(key, v)];
    forall j | 0 <= j < |r| ensures r[j].key != c.store[0].key {
      if j < |r| - 1 { assert r[j] == c.store[j + 1]; }
      else { assert c.store[0].key != key by { assert c.store[0] == c.store[0]; } }
    }
  }

  /** `set` of an absent key below capacity appends it and evicts nothing. */
  lemma SetBelowCapacityAppends<V>(c: Cache<V>, key: string, v: V)
    requires !HasKey(c.store, key) && |c.store| < c.maxSize
    ensures SetByKey(c, key, v).store == c.store + [Entry(key, v)]
  {
  }

  /** A `get` right after a `set` of the same key returns the stored value
      and counts a hit, whenever the cache can hold one entry. */
  lemma GetAfterSet<V>(c: Cache<V>, key: string, v: V)
    requires Valid(c) && c.maxSize >= 1
    ensures GetByKey(SetByKey(c, key, v), key).result == Some(v)
    ensures GetByKey(SetByKey(c, key, v), key).cache.hits == c.hits + 1
    ensures GetByKey(SetByKey(c, key, v), key).cache.misses == c.misses
  {
    var r := SetByKey(c, key, v);
    SetPreservesValid(c, key, v);
    assert |r.store| > 0 by {
      match IndexOf(c.store, key)
      case None =>
      case Some(i) =>
    }
    var last := |r.store| - 1;
    assert r.store[last] == Entry(key, v);
    assert HasKey(r.store, key);
    var i :| 0 <= i < |r.store| && r.store[i].key == key
      && GetByKey(r, key).result == Some(r.store[i].value);
    assert i == last;
  }

  /** The same, through the question/schema interface. */
  lemma GetAfterSetQuestion<V>(c: Cache<V>, h: Hashing, question: string, schema: Json, v: V)
    requires Valid(c) && c.maxSize >= 1
    ensures Get(Set(c, h, question, schema, v), h, question, schema).result == Some(v)
    ensures Get(Set(c, h, question, schema, v), h, question, schema).cache.hits == c.hits + 1
  {
    GetAfterSet(c, GenerateKey(h, question, schema), v);
  }

  /** The eviction scenario: with room for two, set A, set B, get A, set C
      evicts B and keeps A then C. */
  lemma LeastRecentlyUsedScenario<V>(a: string, b: string, cKey: string, va: V, vb: V, vc: V)
    requires a != b && b != cKey && a != cKey
    ensures
      var s1 := SetByKey(New<V>(2), a, va);
      var s2 := SetByKey(s1, b, vb);
      var s3 := GetByKey(s2, a);
      var s4 := SetByKey(s3.cache, cKey, vc);
      && s3.result == Some(va)
      && s4.store == [Entry(a, va), Entry(cKey, vc)]
      && s4.hits == 1 && s4.misses == 0
  {
    var s1 := SetByKey(New<V>(2), a, va);
    assert s1.store == [Entry(a, va)];
    var s2 := SetByKey(s1, b, vb);
    assert !HasKey(s1.store, b);
    assert s2.store == [Entry(a, va), Entry(b, vb)];
    var s3 := GetByKey(s2, a);
    assert s3.cache.store == [Entry(b, vb), Entry(a, va)];
    var s4 := SetByKey(s3.cache, cKey, vc);
    assert !HasKey(s3.cache.store, cKey);
  }

  /** A cache operation as a caller issues it. */
  datatype Op<V> = GetOp(key: string) | SetOp(key: string, value: V) | ClearOp

  function Apply<V>(c: Cache<V>, op: Op<V>): Cache<V> {
    match op
    case GetOp(k) => GetByKey(c, k).cache
    case SetOp(k, v) => SetByKey(c, k, v)
    case ClearOp => Clear(c)
  }

  function Replay<V>(c: Cache<V>, ops: seq<Op<V>>): Cache<V>
    decreases |ops|
  {
    if |ops| == 0 then c else Replay(Apply(c, ops[0]), ops[1..])
  }

  function CountGets<V>(ops: seq<Op<V>>): nat
    decreases |ops|
  {
    if |ops| == 0 then 0 else (if ops[0].GetOp? then 1 else 0) + CountGets(ops[1..])
  }

  /** No sequence of operations takes a cache past its capacity or gives it
      a duplicate key. */
  lemma {:induction false} ReplayPreservesValid<V>(c: Cache<V>, ops: seq<Op<V>>)
    requires Valid(c)
    ensures Valid(Replay(c, ops))
    decreases |ops|
  {
    if |ops| > 0 {
      match ops[0] {
        case GetOp(k) => GetPreservesValid(c, k);
        case SetOp(k, v) => SetPreservesValid(c, k, v);
        case ClearOp =>
      }
      ReplayPreservesValid(Apply(c, ops[0]), ops[1..]);
    }
  }

  /** Without a `clear`, every `get` is counted exactly once, as a hit or as
      a miss, and `set` counts nothing. */
  lemma {:induction false} CountersCountGets<V>(c: Cache<V>, ops: seq<Op<V>>)
    requires forall i :: 0 <= i < |ops| ==> !ops[i].ClearOp?
    ensures Replay(c, ops).hits + Replay(c, ops).misses == c.hits + c.misses + CountGets(ops)
    ensures Replay(c, ops).hits >= c.hits && Replay(c, ops).misses >= c.misses
    decreases |ops|
  {
    if |ops| > 0 {
      CountersCountGets(Apply(c, ops[0]), ops[1..]);
    }
  }
}
