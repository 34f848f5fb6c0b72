/** Aggregates over a stage's samples: the `count`, `mean`, `min`, `max` and
    `total` that `get_statistics` and `get_memory_statistics` report.
    Samples are exact reals; Python's float rounding is not modelled. */
module Statistics {

  /** `sum(xs)`, adding from the left. */
  function Sum(xs: seq<real>): real
    decreases |xs|
  {
    if |xs| == 0 then 0.0 else Sum(xs[..|xs| - 1]) + xs[|xs| - 1]
  }

  /** `min(xs)`. */
  function Minimum(xs: seq<real>): (m: real)
    requires |xs| > 0
    ensures m in xs
    ensures forall i :: 0 <= i < |xs| ==> m <= xs[i]
    decreases |xs|
  {
    if |xs| == 1 then xs[0]
    else
      var m := Minimum(xs[..|xs| - 1]);
      assert forall i :: 0 <= i < |xs| - 1 ==> xs[..|xs| - 1][i] == xs[i];
      if xs[|xs| - 1] < m then xs[|xs| - 1] else m
  }

  /** `max(xs)`. */
  function Maximum(xs: seq<real>): (m: real)
    requires |xs| > 0
    ensures m in xs
    ensures forall i :: 0 <= i < |xs| ==> xs[i] <= m
    decreases |xs|
  {
    if |xs| == 1 then xs[0]
    else
      var m := Maximum(xs[..|xs| - 1]);
      assert forall i :: 0 <= i < |xs| - 1 ==> xs[..|xs| - 1][i] == xs[i];
      if xs[|xs| - 1] > m then xs[|xs| - 1] else m
  }

  /** The sum lies between `count * lo` and `count * hi` when every sample
      does between `lo` and `hi`. */
  lemma {:induction false} SumBetween(xs: seq<real>, lo: real, hi: real)
    requires forall i :: 0 <= i < |xs| ==> lo <= xs[i] <= hi
    ensures |xs| as real * lo <= Sum(xs) <= |xs| as real * hi
    decreases |xs|
  {
    if |xs| > 0 {
      var init := xs[..|xs| - 1];
      assert forall i :: 0 <= i < |init| ==> init[i] == xs[i];
      SumBetween(init, lo, hi);
    }
  }

  /** A total between `n * lo` and `n * hi` has its mean between `lo` and
      `hi`. */
  lemma MeanBetween(total: real, n: real, lo: real, hi: real)
    requires n > 0.0 && n * lo <= total <= n * hi
    ensures lo <= total / n <= hi
    ensures total / n * n == total
  {
    var m := total / n;
    assert m * n == total;
    assert (m - lo) * n == total - n * lo;
    assert (hi - m) * n == n * hi - total;
  }

  /** One stage's entry of `get_statistics`. */
  datatype Summary = Summary(count: nat, mean: real, min: real, max: real, total: real)

  function Summarize(xs: seq<real>): (s: Summary)
    requires |xs| > 0
    ensures s.count == |xs| && s.total == Sum(xs)
    ensures s.mean == s.total / s.count as real && s.mean * s.count as real == s.total
    ensures s.min in xs && s.max in xs
    ensures forall i :: 0 <= i < |xs| ==> s.min <= xs[i] <= s.max
    ensures s.min <= s.mean <= s.max
  {
    var lo := Minimum(xs);
    var hi := Maximum(xs);
    SumBetween(xs, lo, hi);
    var mean := Sum(xs) / |xs| as real;
    MeanBetween(Sum(xs), |xs| as real, lo, hi);
    Summary(|xs|, mean, lo, hi, Sum(xs))
  }

  /** Appending a sample adds it to the total. */
  lemma SumAppend(xs: seq<real>, x: real)
    ensures Sum(xs + [x]) == Sum(xs) + x
  {
    assert (xs + [x])[..|xs|] == xs;
  }

  /** The sum does not depend on the order of the samples: moving the last
      one to the front leaves it unchanged. */
  lemma {:induction false} SumRotate(xs: seq<real>, x: real)
    ensures Sum([x] + xs) == Sum(xs + [x])
    decreases |xs|
  {
    SumAppend(xs, x);
    if |xs| > 0 {
      var init := xs[..|xs| - 1];
      var last := xs[|xs| - 1];
      SumRotate(init, x);
      assert [x] + xs == ([x] + init) + [last];
      SumAppend([x] + init, last);
      assert xs == init + [last];
      SumAppend(init, last);
    }
  }

  /** Taking a sum of scaled samples scales the sum. */
  lemma {:induction false} SumScale(xs: seq<real>, ys: seq<real>, c: real)
    requires |ys| == |xs|
    requires forall i :: 0 <= i < |xs| ==> ys[i] == xs[i] * c
    ensures Sum(ys) == Sum(xs) * c
    decreases |xs|
  {
    if |xs| > 0 {
      var xi := xs[..|xs| - 1];
      var yi := ys[..|ys| - 1];
      assert forall i :: 0 <= i < |xi| ==> yi[i] == xi[i] * c by {
        forall i | 0 <= i < |xi| ensures yi[i] == xi[i] * c {
          assert yi[i] == ys[i] && xi[i] == xs[i];
        }
      }
      SumScale(xi, yi, c);
    }
  }

  /** The sum of a concatenation is the sum of the sums. */
  lemma {:induction false} SumConcat(xs: seq<real>, ys: seq<real>)
    ensures Sum(xs + ys) == Sum(xs) + Sum(ys)
    decreases |ys|
  {
    if |ys| > 0 {
      var init := ys[..|ys| - 1];
      var last := ys[|ys| - 1];
      SumConcat(xs, init);
      assert xs + ys == (xs + init) + [last];
      SumAppend(xs + init, last);
      assert ys == init + [last];
      SumAppend(init, last);
    } else {
      assert xs + ys == xs;
    }
  }

  /** Reordering the samples leaves the sum unchanged. */
  lemma {:induction false} SumPermutation(xs: seq<real>, ys: seq<real>)
    requires multiset(xs) == multiset(ys)
    ensures Sum(xs) == Sum(ys)
    decreases |xs|
  {
    if |xs| == 0 {
      assert |ys| == |multiset(ys)| == 0;
    } else {
      var init := xs[..|xs| - 1];
      var x := xs[|xs| - 1];
      assert xs == init + [x];
      assert x in multiset(ys);
      var j :| 0 <= j < |ys| && ys[j] == x;
      var rest := ys[..j] + ys[j + 1..];
      assert ys == ys[..j] + [x] + ys[j + 1..];
      assert multiset(ys) == multiset(rest) + multiset{x};
      assert multiset(xs) == multiset(init) + multiset{x};
      assert multiset(rest) == multiset(ys) - multiset{x};
      assert multiset(init) == multiset(xs) - multiset{x};
      SumPermutation(init, rest);
      SumConcat(ys[..j], ys[j + 1..]);
      SumConcat(ys[..j] + [x], ys[j + 1..]);
      SumAppend(ys[..j], x);
      SumAppend(init, x);
    }
  }

  lemma {:induction false} SumNonNegative(xs: seq<real>)
    requires forall k :: 0 <= k < |xs| ==> xs[k] >= 0.0
    ensures Sum(xs) >= 0.0
    decreases |xs|
  {
    if |xs| > 0 {
      var init := xs[..|xs| - 1];
      assert forall k :: 0 <= k < |init| ==> init[k] == xs[k];
      SumNonNegative(init);
    }
  }

  /** With no negative sample, no sample exceeds the sum. */
  /** With no negative sample, every sample lies between zero and the sum. */
  lemma SumBoundsSamples(xs: seq<real>)
    ensures (forall k :: 0 <= k < |xs| ==> xs[k] >= 0.0) ==> forall i :: 0 <= i < |xs| ==> 0.0 <= xs[i] <= Sum(xs)
  {
    if forall k :: 0 <= k < |xs| ==> xs[k] >= 0.0 {
      forall i | 0 <= i < |xs| ensures 0.0 <= xs[i] <= Sum(xs) {
        SumBoundsSample(xs, i);
      }
    }
  }

  lemma {:induction false} SumBoundsSample(xs: seq<real>, i: nat)
    requires i < |xs|
    requires forall k :: 0 <= k < |xs| ==> xs[k] >= 0.0
    ensures 0.0 <= xs[i] <= Sum(xs)
    decreases |xs|
  {
    var init := xs[..|xs| - 1];
    assert forall k :: 0 <= k < |init| ==> init[k] == xs[k];
    if i < |xs| - 1 {
      SumBoundsSample(init, i);
    } else {
      SumNonNegative(init);
    }
  }

  /** Python's `int(x)` on a float: truncation toward zero. */
  function TruncToInt(x: real): (n: int)
    ensures x >= 0.0 ==> 0 <= n && n as real <= x < n as real + 1.0
    ensures x < 0.0 ==> n <= 0 && n as real - 1.0 < x <= n as real
  {
    if x >= 0.0 then x.Floor else -((-x).Floor)
  }
}
