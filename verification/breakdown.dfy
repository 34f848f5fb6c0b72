/** `get_timing_breakdown`: the latest run's stages, slowest first, each with
    its time in seconds and milliseconds and its share of the run's total,
    followed by the `_total` entry. */
module TimingBreakdown {
  import opened Wrappers
  import opened OrderedMap
  import opened Statistics
  import opened StableSort
  import opened PerformanceTracker

  /** One entry: `time_seconds`, `time_ms` and `percentage`. */
  datatype Row = Row(timeSeconds: real, timeMs: real, percentage: real)

  const TotalKey: string := "_total"

  /** `sum(self.current_run.values())`. */
  function Total(run: Dict<real>): (t: real)
    ensures |run| == 0 ==> t == 0.0
    ensures (forall i :: 0 <= i < |run| ==> run[i].value >= 0.0) ==>
      forall i :: 0 <= i < |run| ==> 0.0 <= run[i].value <= t
  {
    var vs := Values(run);
    SumBoundsSamples(vs);
    Sum(vs)
  }

  /** The sort key of `sorted(..., key=lambda x: x[1], reverse=True)`. */
  function Seconds(elapsed: real): real {
    elapsed
  }

  /** `elapsed / total_time * 100` when the total is positive, else `0`. */
  function Percentage(elapsed: real, total: real): (p: real)
    ensures total <= 0.0 ==> p == 0.0
    ensures total > 0.0 && 0.0 <= elapsed <= total ==> 0.0 <= p <= 100.0
  {
    if total > 0.0 && 0.0 <= elapsed <= total then
      MeanBetween(elapsed, total, 0.0, 1.0);
      elapsed / total * 100.0
    else if total > 0.0 then elapsed / total * 100.0
    else 0.0
  }

  /** One stage's entry: its seconds, the same time in milliseconds, and
      its share of the total in percent. */
  function StageRow(elapsed: real, total: real): (r: Row)
    ensures r.timeSeconds == elapsed && r.timeMs == r.timeSeconds * 1000.0
    ensures total <= 0.0 ==> r.percentage == 0.0
    ensures total > 0.0 && 0.0 <= elapsed <= total ==> 0.0 <= r.percentage <= 100.0
  {
    Row(elapsed, elapsed * 1000.0, Percentage(elapsed, total))
  }

  /** For a positive total, a stage's share scales back to its time. */
  lemma StageRowShare(elapsed: real, total: real)
    requires total > 0.0
    ensures StageRow(elapsed, total).percentage * total == elapsed * 100.0
  {
    var p := StageRow(elapsed, total).percentage;
    assert p == elapsed / total * 100.0;
    assert elapsed / total * total == elapsed;
  }

  /** The stage rows, in the order of `stages`. */
  function StageRows(stages: Dict<real>, total: real): (rows: Dict<Row>)
    ensures |rows| == |stages| && Keys(rows) == Keys(stages)
    ensures forall i :: 0 <= i < |rows| ==> rows[i].value == StageRow(stages[i].value, total)
  {
    seq(|stages|, i requires 0 <= i < |stages| => Entry(stages[i].key, StageRow(stages[i].value, total)))
  }

  /** `get_timing_breakdown()` over the latest run. */
  function Breakdown(run: Dict<real>): (b: Dict<Row>)
    requires DistinctKeys(run)
    ensures DistinctKeys(b)
    ensures b == [] <==> |run| == 0
    ensures |run| > 0 ==> Get(b, TotalKey) == Some(Row(Total(run), Total(run) * 1000.0, 100.0))
  {
    if |run| == 0 then []
    else
      var total := Total(run);
      var sorted := Sort(run, Seconds);
      PermutationKeepsDistinctKeys(run, sorted);
      var rows := StageRows(sorted, total);
      assert DistinctKeys(rows) by {
        forall i, j | 0 <= i < j < |rows| ensures rows[i].key != rows[j].key {
          assert Keys(rows)[i] == Keys(sorted)[i] && Keys(rows)[j] == Keys(sorted)[j];
        }
      }
      Put(rows, TotalKey, Row(total, total * 1000.0, 100.0))
  }

  /** The stage rows of a breakdown: the run sorted by elapsed time. */
  function SortedRows(run: Dict<real>): (rows: Dict<Row>)
    ensures |rows| == |run|
  {
    StageRows(Sort(run, Seconds), Total(run))
  }

  /** The time of a row, the key `create_text_visualization` sorts by. */
  function RowSeconds(r: Row): real {
    r.timeSeconds
  }

  /** Reordering entries keeps which keys are present. */
  lemma PermutationKeepsHasKey<V>(a: Dict<V>, b: Dict<V>, k: string)
    requires multiset(a) == multiset(b)
    ensures HasKey(a, k) <==> HasKey(b, k)
  {
    if HasKey(a, k) {
      var i :| 0 <= i < |a| && a[i].key == k;
      assert a[i] in multiset(b);
    }
    if HasKey(b, k) {
      var i :| 0 <= i < |b| && b[i].key == k;
      assert b[i] in multiset(a);
    }
  }

  /** Reordering entries with distinct keys keeps every lookup. */
  lemma PermutationKeepsGet<V>(a: Dict<V>, b: Dict<V>, k: string)
    requires DistinctKeys(a) && multiset(a) == multiset(b)
    ensures Get(a, k) == Get(b, k)
  {
    PermutationKeepsDistinctKeys(a, b);
    PermutationKeepsHasKey(a, b, k);
    if HasKey(a, k) {
      var i :| 0 <= i < |a| && a[i].key == k;
      assert a[i] in multiset(b);
      var j :| 0 <= j < |b| && b[j] == a[i];
    }
  }

  /** The total of a run does not depend on the order of its stages. */
  lemma PermutationKeepsTotal(a: Dict<real>, b: Dict<real>)
    requires multiset(a) == multiset(b)
    ensures Total(a) == Total(b)
  {
    assert multiset(Values(a)) == multiset(Values(b)) by {
      ValuesPermutation(a, b);
    }
    SumPermutation(Values(a), Values(b));
  }

  lemma ValuesConcat<V>(a: Dict<V>, b: Dict<V>)
    ensures Values(a + b) == Values(a) + Values(b)
  {
  }

  lemma {:induction false} ValuesPermutation<V>(a: Dict<V>, b: Dict<V>)
    requires multiset(a) == multiset(b)
    ensures multiset(Values(a)) == multiset(Values(b))
    decreases |a|
  {
    if |a| == 0 {
      assert |b| == |multiset(b)| == 0;
    } else {
      var init, e := a[..|a| - 1], a[|a| - 1];
      assert a == init + [e];
      assert e in multiset(b);
      var j :| 0 <= j < |b| && b[j] == e;
      var left, right := b[..j], b[j + 1..];
      assert b == left + ([e] + right);
      assert multiset(left + right) == multiset(init) by {
        assert multiset(left + right) == multiset(b) - multiset{e};
        assert multiset(init) == multiset(a) - multiset{e};
      }
      ValuesPermutation(init, left + right);
      ValuesSnoc(init, e);
      ValuesAround(left, e, right);
    }
  }

  lemma ValuesSnoc<V>(d: Dict<V>, e: Entry<V>)
    ensures multiset(Values(d + [e])) == multiset(Values(d)) + multiset{e.value}
  {
    ValuesConcat(d, [e]);
    assert Values([e]) == [e.value];
  }

  lemma ValuesAround<V>(l: Dict<V>, e: Entry<V>, r: Dict<V>)
    ensures multiset(Values(l + ([e] + r))) == multiset(Values(l + r)) + multiset{e.value}
  {
    ValuesConcat(l, [e] + r);
    ValuesConcat([e], r);
    ValuesConcat(l, r);
    assert Values([e]) == [e.value];
  }

  /** Each row's share of the total. */
  function Percentages(rows: Dict<Row>): (ps: seq<real>)
    ensures |ps| == |rows|
  {
    seq(|rows|, i requires 0 <= i < |rows| => rows[i].value.percentage)
  }

  /** Unless a stage is itself named `_total`, the breakdown is the run
      sorted slowest first, stably, followed by the `_total` entry. */
  lemma BreakdownLayout(run: Dict<real>)
    requires DistinctKeys(run) && |run| > 0 && !HasKey(run, TotalKey)
    ensures
      var b := Breakdown(run);
      && |b| == |run| + 1
      && b[..|run|] == SortedRows(run)
      && SortedDesc(b[..|run|], RowSeconds)
      && b[|run|] == Entry(TotalKey, Row(Total(run), Total(run) * 1000.0, 100.0))
  {
    BreakdownAppendsTotal(run);
    var b := Breakdown(run);
    assert b[..|run|] == SortedRows(run);
    SortedRowsDesc(run);
  }

  lemma BreakdownAppendsTotal(run: Dict<real>)
    requires DistinctKeys(run) && |run| > 0 && !HasKey(run, TotalKey)
    ensures Breakdown(run) == SortedRows(run) + [Entry(TotalKey, Row(Total(run), Total(run) * 1000.0, 100.0))]
  {
    var rows := SortedRows(run);
    var total := Row(Total(run), Total(run) * 1000.0, 100.0);
    SortedRowsKeys(run);
    assert Breakdown(run) == Put(rows, TotalKey, total);
  }

  /** The stage rows have the run's keys, so distinct keys and no `_total`. */
  lemma SortedRowsKeys(run: Dict<real>)
    requires DistinctKeys(run) && !HasKey(run, TotalKey)
    ensures DistinctKeys(SortedRows(run)) && !HasKey(SortedRows(run), TotalKey)
  {
    var sorted := Sort(run, Seconds);
    var rows := SortedRows(run);
    PermutationKeepsDistinctKeys(run, sorted);
    PermutationKeepsHasKey(run, sorted, TotalKey);
    forall i | 0 <= i < |rows| ensures rows[i].key == sorted[i].key {
      assert Keys(rows)[i] == Keys(sorted)[i];
    }
  }

  lemma SortedRowsDesc(run: Dict<real>)
    ensures SortedDesc(SortedRows(run), RowSeconds)
  {
    var sorted := Sort(run, Seconds);
    var rows := SortedRows(run);
    forall i, j | 0 <= i < j < |rows| ensures RowSeconds(rows[i].value) >= RowSeconds(rows[j].value) {
      assert Seconds(sorted[i].value) >= Seconds(sorted[j].value);
    }
  }

  /** Every stage of the run keeps its elapsed time in the breakdown, with
      its share of the run's total; a name that is not a stage has no
      entry. */
  lemma BreakdownKeepsStageTimes(run: Dict<real>, k: string)
    requires DistinctKeys(run) && k != TotalKey
    ensures Get(Breakdown(run), k) ==
      (if HasKey(run, k) then Some(StageRow(Get(run, k).value, Total(run))) else None)
  {
    if |run| > 0 {
      var sorted := Sort(run, Seconds);
      var rows := StageRows(sorted, Total(run));
      PermutationKeepsGet(run, sorted, k);
      PermutationKeepsDistinctKeys(run, sorted);
      assert Get(Breakdown(run), k) == Get(rows, k);
      if HasKey(sorted, k) {
        var i :| 0 <= i < |sorted| && sorted[i].key == k;
        assert Keys(rows)[i] == Keys(sorted)[i];
        assert DistinctKeys(rows) by {
          forall a, c | 0 <= a < c < |rows| ensures rows[a].key != rows[c].key {
            assert Keys(rows)[a] == Keys(sorted)[a] && Keys(rows)[c] == Keys(sorted)[c];
          }
        }
      } else {
        forall i | 0 <= i < |rows| ensures rows[i].key != k {
          assert Keys(rows)[i] == Keys(sorted)[i];
        }
      }
    }
  }

  /** With a positive total, the stage percentages add up to 100. */
  lemma PercentagesSumTo100(run: Dict<real>)
    requires Total(run) > 0.0
    ensures Sum(Percentages(SortedRows(run))) == 100.0
  {
    var sorted := Sort(run, Seconds);
    PermutationKeepsTotal(run, sorted);
    SharesSum(sorted, Total(run));
  }

  lemma SharesSum(stages: Dict<real>, total: real)
    requires total > 0.0 && Sum(Values(stages)) == total
    ensures Sum(Percentages(StageRows(stages, total))) == 100.0
  {
    var ps := Percentages(StageRows(stages, total));
    SharesScaled(stages, total);
    ScaledSum(Values(stages), ps, total);
  }

  /** Samples scaled by `100 / total` sum to 100 when they sum to `total`. */
  lemma ScaledSum(vs: seq<real>, ps: seq<real>, total: real)
    requires total > 0.0 && Sum(vs) == total && |ps| == |vs|
    requires forall i :: 0 <= i < |vs| ==> ps[i] == vs[i] * (100.0 / total)
    ensures Sum(ps) == 100.0
  {
    var c := 100.0 / total;
    SumScale(vs, ps, c);
    assert Sum(ps) == total * c;
    WholeShare(total);
  }

  lemma SharesScaled(stages: Dict<real>, total: real)
    requires total > 0.0
    ensures forall i :: 0 <= i < |stages| ==>
      Percentages(StageRows(stages, total))[i] == Values(stages)[i] * (100.0 / total)
  {
    forall i | 0 <= i < |stages|
      ensures Percentages(StageRows(stages, total))[i] == Values(stages)[i] * (100.0 / total)
    {
      ShareIsScaled(stages[i].value, total);
    }
  }

  lemma WholeShare(total: real)
    requires total > 0.0
    ensures total * (100.0 / total) == 100.0
  {
  }

  lemma ShareIsScaled(v: real, total: real)
    requires total > 0.0
    ensures v / total * 100.0 == v * (100.0 / total)
  {
  }

  /** When no stage took negative time, every share lies between 0 and 100,
      and a zero total gives every stage a zero share. */
  lemma PercentageBounds(run: Dict<real>)
    requires forall i :: 0 <= i < |run| ==> run[i].value >= 0.0
    ensures forall i :: 0 <= i < |run| ==> 0.0 <= Percentages(SortedRows(run))[i] <= 100.0
    ensures Total(run) <= 0.0 ==> forall i :: 0 <= i < |run| ==> Percentages(SortedRows(run))[i] == 0.0
  {
    var total := Total(run);
    var sorted := Sort(run, Seconds);
    var rows := SortedRows(run);
    var vs := Values(sorted);
    PermutationKeepsTotal(run, sorted);
    forall k | 0 <= k < |vs| ensures vs[k] >= 0.0 {
      assert sorted[k] in multiset(run);
    }
    forall i | 0 <= i < |rows| ensures 0.0 <= Percentages(rows)[i] <= 100.0 {
      SumBoundsSample(vs, i);
    }
  }

  /** `tracker.get_timing_breakdown()`: the breakdown of the latest run,
      `{}` before any stage was recorded. */
  function GetTimingBreakdown(t: Tracker): (b: Dict<Row>)
    requires Valid(t)
    ensures b == [] <==> |t.timings| == 0
    ensures |t.timings| > 0 ==> Get(b, TotalKey).Some? && Get(b, TotalKey).value.percentage == 100.0
  {
    assert DistinctKeys(t.currentRun) by {
      forall i, j | 0 <= i < j < |t.currentRun| ensures t.currentRun[i].key != t.currentRun[j].key {
        assert Keys(t.currentRun)[i] == Keys(t.timings)[i] && Keys(t.currentRun)[j] == Keys(t.timings)[j];
      }
    }
    Breakdown(t.currentRun)
  }
}
