/** Python's insertion-ordered `dict` (and `OrderedDict`) as a sequence of
    entries with distinct string keys, oldest insertion first. Assigning to a present
    key keeps its position; assigning to an absent key appends it. */
module OrderedMap {
  import opened Wrappers

  datatype Entry<V> = Entry(key: string, value: V)

  type Dict<V> = seq<Entry<V>>

  predicate DistinctKeys<V>(d: Dict<V>) {
    forall i, j :: 0 <= i < j < |d| ==> d[i].key != d[j].key
  }

  /** `k in d`. */
  predicate HasKey<V>(d: Dict<V>, k: string) {
    exists i | 0 <= i < |d| :: d[i].key == k
  }

  function Keys<V>(d: Dict<V>): (ks: seq<string>)
    ensures |ks| == |d|
    ensures forall i :: 0 <= i < |d| ==> ks[i] == d[i].key
  {
    seq(|d|, i requires 0 <= i < |d| => d[i].key)
  }

  function Values<V>(d: Dict<V>): (vs: seq<V>)
    ensures |vs| == |d|
    ensures forall i :: 0 <= i < |d| ==> vs[i] == d[i].value
  {
    seq(|d|, i requires 0 <= i < |d| => d[i].value)
  }

  /** Position of `k`, if present. */
  function IndexOf<V>(d: Dict<V>, k: string): (r: Option<nat>)
    ensures r.Some? <==> HasKey(d, k)
    ensures r.Some? ==> r.value < |d| && d[r.value].key == k
    ensures r.Some? ==> forall j :: 0 <= j < r.value ==> d[j].key != k
    decreases |d|
  {
    if |d| == 0 then None
    else if d[0].key == k then Some(0)
    else match IndexOf(d[1..], k)
      case None =>
        assert forall j :: 0 <= j < |d| ==> d[j].key != k by {
          forall j | 0 <= j < |d| ensures d[j].key != k {
            if j > 0 { assert d[j] == d[1..][j - 1]; }
          }
        }
        None
      case Some(i) => Some(i + 1)
  }

  /** `d.get(k)`. */
  function Get<V>(d: Dict<V>, k: string): (r: Option<V>)
    ensures r.Some? <==> HasKey(d, k)
    ensures forall i :: 0 <= i < |d| && d[i].key == k && DistinctKeys(d) ==> r == Some(d[i].value)
  {
    match IndexOf(d, k)
    case None => None
    case Some(i) => Some(d[i].value)
  }

  /** `d[k] = v`. */
  function Put<V>(d: Dict<V>, k: string, v: V): (r: Dict<V>)
    requires DistinctKeys(d)
    ensures DistinctKeys(r)
    ensures HasKey(d, k) ==> |r| == |d| && Keys(r) == Keys(d)
    ensures HasKey(d, k) ==> r == d[IndexOf(d, k).value := Entry(k, v)]
    ensures !HasKey(d, k) ==> r == d + [Entry(k, v)]
    ensures Get(r, k) == Some(v)
    ensures forall k1 :: k1 != k ==> Get(r, k1) == Get(d, k1)
  {
    match IndexOf(d, k)
    case None =>
      var r := d + [Entry(k, v)];
      assert r[|d|] == Entry(k, v);
      assert DistinctKeys(r);
      forall k1 | k1 != k ensures Get(r, k1) == Get(d, k1) {
        if HasKey(d, k1) {
          var i :| 0 <= i < |d| && d[i].key == k1;
          assert r[i] == d[i];
        }
      }
      r
    case Some(i) =>
      var r := d[i := Entry(k, v)];
      assert Keys(r) == Keys(d);
      forall k1 | k1 != k ensures Get(r, k1) == Get(d, k1) {
        if HasKey(d, k1) {
          var j :| 0 <= j < |d| && d[j].key == k1;
          assert r[j] == d[j];
        }
      }
      r
  }

  /** The position of a key depends only on the key list. */
  lemma {:induction false} IndexOfByKeys<V, W>(a: Dict<V>, b: Dict<W>, k: string)
    requires Keys(a) == Keys(b)
    ensures IndexOf(a, k) == IndexOf(b, k)
    decreases |a|
  {
    if |a| > 0 {
      assert a[0].key == Keys(a)[0] == Keys(b)[0] == b[0].key;
      assert Keys(a[1..]) == Keys(b[1..]) by {
        forall i | 0 <= i < |a| - 1 ensures Keys(a[1..])[i] == Keys(b[1..])[i] {
          assert Keys(a[1..])[i] == Keys(a)[i + 1];
          assert Keys(b[1..])[i] == Keys(b)[i + 1];
        }
      }
      IndexOfByKeys(a[1..], b[1..], k);
    }
  }

  /** The dictionary as an unordered Dafny map. */
  function ToMap<V>(d: Dict<V>): (m: map<string, V>)
    requires DistinctKeys(d)
    ensures forall k :: k in m <==> HasKey(d, k)
    ensures forall i :: 0 <= i < |d| ==> d[i].key in m && m[d[i].key] == d[i].value
  {
    map i | 0 <= i < |d| :: d[i].key := d[i].value
  }
}
