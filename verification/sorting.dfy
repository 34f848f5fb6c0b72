/** `sorted(items, key=..., reverse=True)` and `list.sort(key=...,
    reverse=True)` on dictionary entries: Python's sort is stable, so entries
    with equal keys keep their relative order. Modelled as insertion sort,
    each entry placed after every earlier one whose key is at least its own. */
module StableSort {
  import opened OrderedMap


  predicate SortedDesc<V>(d: Dict<V>, key: V -> real) {
    forall i, j :: 0 <= i < j < |d| ==> key(d[i].value) >= key(d[j].value)
  }

  /** Every entry of `d` has a key of at least `x`. */
  predicate AllAtLeast<V>(d: Dict<V>, key: V -> real, x: real) {
    forall i :: 0 <= i < |d| ==> key(d[i].value) >= x
  }

  /** Every entry of `d` has a key of at most `x`. */
  predicate AllAtMost<V>(d: Dict<V>, key: V -> real, x: real) {
    forall i :: 0 <= i < |d| ==> key(d[i].value) <= x
  }

  /** An entry whose key bounds a sorted list can go in front of it. */
  lemma ConsSorted<V>(x: Entry<V>, d: Dict<V>, key: V -> real)
    requires SortedDesc(d, key) && AllAtMost(d, key, key(x.value))
    ensures SortedDesc([x] + d, key)
  {
    var r := [x] + d;
    forall i, j | 0 <= i < j < |r| ensures key(r[i].value) >= key(r[j].value) {
      assert r[j] == d[j - 1];
      if i > 0 {
        assert r[i] == d[i - 1];
      }
    }
  }

  /** A bound on every key carries over to a permutation. */
  lemma AtMostPermutation<V>(r: Dict<V>, s: Dict<V>, key: V -> real, x: real)
    requires multiset(r) == multiset(s) && AllAtMost(s, key, x)
    ensures AllAtMost(r, key, x)
  {
    forall i | 0 <= i < |r| ensures key(r[i].value) <= x {
      assert r[i] in multiset(s);
      var j :| 0 <= j < |s| && s[j] == r[i];
    }
  }

  function Insert<V>(e: Entry<V>, d: Dict<V>, key: V -> real): (r: Dict<V>)
    requires SortedDesc(d, key)
    ensures SortedDesc(r, key)
    ensures multiset(r) == multiset(d) + multiset{e}
    ensures |r| == |d| + 1
    decreases |d|
  {
    if |d| == 0 then [e]
    else if key(d[0].value) >= key(e.value) then
      var tail := d[1..];
      assert d == [d[0]] + tail;
      var rest := Insert(e, tail, key);
      assert AllAtMost(tail + [e], key, key(d[0].value)) by {
        forall i | 0 <= i < |tail| + 1 ensures key((tail + [e])[i].value) <= key(d[0].value) {
          if i < |tail| { assert (tail + [e])[i] == d[i + 1]; }
        }
      }
      AtMostPermutation(rest, tail + [e], key, key(d[0].value));
      ConsSorted(d[0], rest, key);
      [d[0]] + rest
    else
      assert AllAtMost(d, key, key(e.value)) by {
        forall i | 0 <= i < |d| ensures key(d[i].value) <= key(e.value) {
          if i > 0 { assert key(d[0].value) >= key(d[i].value); }
        }
      }
      ConsSorted(e, d, key);
      [e] + d
  }

  /** Stable descending sort by `key`. */
  function Sort<V>(d: Dict<V>, key: V -> real): (r: Dict<V>)
    ensures SortedDesc(r, key)
    ensures multiset(r) == multiset(d)
    ensures |r| == |d|
    decreases |d|
  {
    if |d| == 0 then []
    else
      var init := d[..|d| - 1];
      assert d == init + [d[|d| - 1]];
      Insert(d[|d| - 1], Sort(init, key), key)
  }

  /** An entry no larger than everything already placed goes last. */
  lemma {:induction false} InsertLast<V>(e: Entry<V>, d: Dict<V>, key: V -> real)
    requires SortedDesc(d, key) && AllAtLeast(d, key, key(e.value))
    ensures Insert(e, d, key) == d + [e]
    decreases |d|
  {
    if |d| > 0 {
      InsertLast(e, d[1..], key);
      assert d == [d[0]] + d[1..];
    }
  }

  /** Stability on sorted input: sorting a list already in descending
      order leaves it as it is, ties included. */
  lemma {:induction false} SortSortedIsIdentity<V>(d: Dict<V>, key: V -> real)
    requires SortedDesc(d, key)
    ensures Sort(d, key) == d
    decreases |d|
  {
    if |d| > 0 {
      var init := d[..|d| - 1];
      var last := d[|d| - 1];
      assert d == init + [last];
      assert SortedDesc(init, key) by {
        forall i, j | 0 <= i < j < |init| ensures key(init[i].value) >= key(init[j].value) {
          assert init[i] == d[i] && init[j] == d[j];
        }
      }
      assert AllAtLeast(init, key, key(last.value)) by {
        forall i | 0 <= i < |init| ensures key(init[i].value) >= key(last.value) {
          assert init[i] == d[i];
        }
      }
      SortSortedIsIdentity(init, key);
      InsertLast(last, init, key);
    }
  }

  /** The entries of `d` whose key is `x`, in their order in `d`. */
  function Ties<V>(d: Dict<V>, key: V -> real, x: real): Dict<V>
    decreases |d|
  {
    if |d| == 0 then []
    else (if key(d[0].value) == x then [d[0]] else []) + Ties(d[1..], key, x)
  }

  /** Taking the ties of a concatenation takes those of each part. */
  lemma {:induction false} TiesAppend<V>(a: Dict<V>, b: Dict<V>, key: V -> real, x: real)
    ensures Ties(a + b, key, x) == Ties(a, key, x) + Ties(b, key, x)
    decreases |a|
  {
    if |a| > 0 {
      assert (a + b)[0] == a[0] && (a + b)[1..] == a[1..] + b;
      TiesAppend(a[1..], b, key, x);
    } else {
      assert a + b == b;
    }
  }

  /** Entries all keyed below `x` have no tie at `x`. */
  lemma {:induction false} TiesBelow<V>(d: Dict<V>, key: V -> real, x: real)
    requires forall i :: 0 <= i < |d| ==> key(d[i].value) < x
    ensures Ties(d, key, x) == []
    decreases |d|
  {
    if |d| > 0 {
      TiesBelow(d[1..], key, x);
    }
  }

  /** Inserting `e` puts it after every entry already placed with the same
      key. */
  lemma {:induction false} InsertTies<V>(e: Entry<V>, d: Dict<V>, key: V -> real, x: real)
    requires SortedDesc(d, key)
    ensures Ties(Insert(e, d, key), key, x) == Ties(d, key, x) + Ties([e], key, x)
    decreases |d|
  {
    assert Ties([e], key, x) == (if key(e.value) == x then [e] else []) by {
      assert [e][1..] == [];
    }
    if |d| == 0 {
    } else if key(d[0].value) >= key(e.value) {
      var tail := d[1..];
      assert SortedDesc(tail, key) by {
        forall i, j | 0 <= i < j < |tail| ensures key(tail[i].value) >= key(tail[j].value) {
          assert tail[i] == d[i + 1] && tail[j] == d[j + 1];
        }
      }
      InsertTies(e, tail, key, x);
      TiesShift(d[0], tail, Insert(e, tail, key), Ties([e], key, x), key, x);
      assert Insert(e, d, key) == [d[0]] + Insert(e, tail, key);
      assert d == [d[0]] + tail;
    } else {
      InsertTiesFront(e, d, key, x);
    }
  }

  /** An entry keyed above everything placed goes in front, and no tie
      of its key is already placed. */
  lemma InsertTiesFront<V>(e: Entry<V>, d: Dict<V>, key: V -> real, x: real)
    requires SortedDesc(d, key) && |d| > 0 && key(d[0].value) < key(e.value)
    ensures Ties(Insert(e, d, key), key, x) == Ties(d, key, x) + Ties([e], key, x)
  {
    assert Ties([e], key, x) == (if key(e.value) == x then [e] else []) by {
      assert [e][1..] == [];
    }
    assert Insert(e, d, key) == [e] + d;
    TiesCons(e, d, key, x);
    if key(e.value) == x {
      forall i | 0 <= i < |d| ensures key(d[i].value) < x {
        if i > 0 { assert key(d[0].value) >= key(d[i].value); }
      }
      TiesBelow(d, key, x);
    }
  }

  /** An entry in front of two lists adds the same tie to both. */
  lemma TiesShift<V>(h: Entry<V>, t: Dict<V>, t': Dict<V>, more: Dict<V>, key: V -> real, x: real)
    requires Ties(t', key, x) == Ties(t, key, x) + more
    ensures Ties([h] + t', key, x) == Ties([h] + t, key, x) + more
  {
    TiesCons(h, t, key, x);
    TiesCons(h, t', key, x);
    var head := if key(h.value) == x then [h] else [];
    assert head + (Ties(t, key, x) + more) == (head + Ties(t, key, x)) + more;
  }

  /** The ties of an entry in front of a list. */
  lemma TiesCons<V>(h: Entry<V>, t: Dict<V>, key: V -> real, x: real)
    ensures Ties([h] + t, key, x) == (if key(h.value) == x then [h] else []) + Ties(t, key, x)
  {
    assert ([h] + t)[0] == h && ([h] + t)[1..] == t;
  }

  /** Stability: among entries with equal keys, the sort keeps the order
      they had in the input. */
  lemma {:induction false} SortKeepsTies<V>(d: Dict<V>, key: V -> real, x: real)
    ensures Ties(Sort(d, key), key, x) == Ties(d, key, x)
    decreases |d|
  {
    if |d| > 0 {
      var init := d[..|d| - 1];
      var last := d[|d| - 1];
      assert d == init + [last];
      SortKeepsTies(init, key, x);
      InsertTies(last, Sort(init, key), key, x);
      TiesAppend(init, [last], key, x);
    }
  }

  /** A permutation of entries with distinct keys has distinct keys. */
  lemma PermutationKeepsDistinctKeys<V>(d: Dict<V>, r: Dict<V>)
    requires DistinctKeys(d) && multiset(r) == multiset(d)
    ensures DistinctKeys(r)
  {
    forall i, j | 0 <= i < j < |r| ensures r[i].key != r[j].key {
      assert r[i] in multiset(d) && r[j] in multiset(d);
      var a :| 0 <= a < |d| && d[a] == r[i];
      var b :| 0 <= b < |d| && d[b] == r[j];
      if r[i] == r[j] {
        TwiceCounted(r, i, j);
        DistinctCount(d, a);
      } else {
        assert a != b;
      }
    }
  }

  /** An entry at two positions is counted at least twice. */
  lemma TwiceCounted<V>(r: Dict<V>, i: nat, j: nat)
    requires i < j < |r| && r[i] == r[j]
    ensures multiset(r)[r[i]] >= 2
  {
    var pre := r[..j];
    assert r == pre + r[j..];
    assert pre == r[..i] + [r[i]] + r[i + 1..j];
    assert multiset(pre)[r[i]] >= 1;
    assert r[j..] == [r[j]] + r[j + 1..];
  }

  /** An entry of a dictionary with distinct keys occurs once. */
  lemma {:induction false} DistinctCount<V>(d: Dict<V>, a: nat)
    requires DistinctKeys(d) && a < |d|
    ensures multiset(d)[d[a]] == 1
    decreases |d|
  {
    var e := d[a];
    var init := d[..|d| - 1];
    assert d == init + [d[|d| - 1]];
    assert DistinctKeys(init);
    if a == |d| - 1 {
      forall k | 0 <= k < |init| ensures init[k] != e {
        assert d[k].key != d[a].key;
      }
      assert e !in init;
    } else {
      DistinctCount(init, a);
      assert d[|d| - 1] != e;
    }
  }
}
