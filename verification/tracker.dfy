/** `PerformanceTracker`: per-stage samples, the latest run and the stack
    of open stages.

    One datatype serves both copies of the class. The top-level copy has no
    memory history (`memory == None`); the copy under `utils/` keeps one when
    built with `track_memory=True`. `track_stage` is split into its two
    halves: `Enter` runs when the `with` block starts and `Exit` in its
    `finally` clause, so it runs the same whether the block returns or
    raises. Clock and memory readings are parameters.
 */
module PerformanceTracker {
  import opened Wrappers
  import opened Text
  import opened OrderedMap
  import opened Statistics

  /** An entry of `stage_stack`: the stage name and its start time. */
  datatype Frame = Frame(stage: string, start: real)

  datatype Tracker = Tracker(
    timings: Dict<seq<real>>,
    currentRun: Dict<real>,
    stack: seq<Frame>,
    memory: Option<Dict<seq<real>>>)

  /** `PerformanceTracker()` of the top-level copy. */
  function New(): (t: Tracker)
    ensures Valid(t) && t.memory.None?
  {
    Tracker([], [], [], None)
  }

  /** `PerformanceTracker(track_memory)` of the `utils/` copy. */
  function NewTracking(trackMemory: bool): (t: Tracker)
    ensures Valid(t) && (t.memory.Some? <==> trackMemory)
  {
    Tracker([], [], [], if trackMemory then Some([]) else None)
  }

  /** The bookkeeping every tracker keeps: each recorded stage has at least
      one sample, `current_run` holds the same stages in the same order, with
      the latest sample of each, and the memory history (when kept) has one
      delta per sample. */
  predicate Valid(t: Tracker) {
    && DistinctKeys(t.timings)
    && Keys(t.currentRun) == Keys(t.timings)
    && (forall i :: 0 <= i < |t.timings| ==>
          |t.timings[i].value| > 0 && t.currentRun[i].value == Last(t.timings[i].value))
    && (t.memory.Some? ==> Aligned(t.memory.value, t.timings))
  }

  function Last(xs: seq<real>): real
    requires |xs| > 0
  {
    xs[|xs| - 1]
  }

  /** Same stages in the same order, one memory delta per time sample. */
  predicate Aligned(memory: Dict<seq<real>>, timings: Dict<seq<real>>) {
    && Keys(memory) == Keys(timings)
    && forall i :: 0 <= i < |memory| ==> |memory[i].value| == |timings[i].value|
  }

  /** `d[k].append(x)` on a `defaultdict(list)`. */
  function AppendSample(d: Dict<seq<real>>, k: string, x: real): (r: Dict<seq<real>>)
    requires DistinctKeys(d)
    ensures DistinctKeys(r)
    ensures Get(r, k) == Some(Get(d, k).GetOr([]) + [x])
    ensures forall k1 :: k1 != k ==> Get(r, k1) == Get(d, k1)
    ensures HasKey(d, k) ==> |r| == |d| && Keys(r) == Keys(d)
    ensures !HasKey(d, k) ==> r == d + [Entry(k, [x])]
  {
    var before := Get(d, k).GetOr([]);
    assert !HasKey(d, k) ==> before + [x] == [x];
    Put(d, k, before + [x])
  }

  /** Entering `with tracker.track_stage(stage)` at time `start`. */
  function Enter(t: Tracker, stage: string, start: real): (r: Tracker)
    ensures r.stack == t.stack + [Frame(stage, start)]
    ensures r.timings == t.timings && r.currentRun == t.currentRun && r.memory == t.memory
  {
    t.(stack := t.stack + [Frame(stage, start)])
  }

  /** Leaving the block at time `end`, with `memoryDelta` the change of the
      resident set size (used only when memory is tracked). The `stage` and
      `start` are the ones the block was entered with; the stack loses its
      top frame whichever it is, and an empty stack raises `IndexError`
      before anything is recorded. */
  function Exit(t: Tracker, stage: string, start: real, end: real, memoryDelta: real): (r: Result<Tracker, PyError>)
    requires Valid(t)
    ensures r.Err? <==> |t.stack| == 0
    ensures r.Err? ==> r.error == IndexError
    ensures r.Ok? ==> r.value.stack == t.stack[..|t.stack| - 1]
    ensures r.Ok? ==> Get(r.value.timings, stage) == Some(Get(t.timings, stage).GetOr([]) + [end - start])
    ensures r.Ok? ==> Get(r.value.currentRun, stage) == Some(end - start)
    ensures r.Ok? ==> forall k :: k != stage ==>
      Get(r.value.timings, k) == Get(t.timings, k) && Get(r.value.currentRun, k) == Get(t.currentRun, k)
    ensures r.Ok? ==> (r.value.memory.Some? <==> t.memory.Some?)
    ensures r.Ok? && t.memory.Some? ==>
      Get(r.value.memory.value, stage) == Some(Get(t.memory.value, stage).GetOr([]) + [memoryDelta])
  {
    if |t.stack| == 0 then Err(IndexError)
    else
      var elapsed := end - start;
      var memory := RecordMemory(t.memory, t.timings, stage, memoryDelta);
      Ok(Tracker(AppendSample(t.timings, stage, elapsed), Put(t.currentRun, stage, elapsed),
                 t.stack[..|t.stack| - 1], memory))
  }

  /** `self.memory_usage[stage].append(delta)` when memory is tracked. */
  function RecordMemory(memory: Option<Dict<seq<real>>>, timings: Dict<seq<real>>, stage: string,
                        delta: real): (r: Option<Dict<seq<real>>>)
    requires DistinctKeys(timings) && (memory.Some? ==> Aligned(memory.value, timings))
    ensures r.Some? <==> memory.Some?
    ensures r.Some? ==> Get(r.value, stage) == Some(Get(memory.value, stage).GetOr([]) + [delta])
  {
    match memory
    case None => None
    case Some(m) =>
      DistinctFromAligned(m, timings);
      Some(AppendSample(m, stage, delta))
  }

  lemma DistinctFromAligned(m: Dict<seq<real>>, d: Dict<seq<real>>)
    requires DistinctKeys(d) && Aligned(m, d)
    ensures DistinctKeys(m)
  {
    forall i, j | 0 <= i < j < |m| ensures m[i].key != m[j].key {
      assert Keys(m)[i] == Keys(d)[i] && Keys(m)[j] == Keys(d)[j];
    }
  }

  /** Equal key lists give equal key sets. */
  lemma SameKeys<V, W>(a: Dict<V>, b: Dict<W>, k: string)
    requires Keys(a) == Keys(b)
    ensures HasKey(a, k) <==> HasKey(b, k)
  {
    if HasKey(a, k) {
      var i :| 0 <= i < |a| && a[i].key == k;
      assert Keys(b)[i] == k;
    }
    if HasKey(b, k) {
      var i :| 0 <= i < |b| && b[i].key == k;
      assert Keys(a)[i] == k;
    }
  }

  /** Recording one sample for `stage` in both `timings` and
      `current_run` keeps them in step. */
  lemma RecordKeepsRunInStep(timings: Dict<seq<real>>, run: Dict<real>, stage: string, e: real)
    requires DistinctKeys(timings) && Keys(run) == Keys(timings)
    requires forall i :: 0 <= i < |timings| ==> |timings[i].value| > 0 && run[i].value == Last(timings[i].value)
    ensures var t2 := AppendSample(timings, stage, e);
      var r2 := Put(run, stage, e);
      && Keys(r2) == Keys(t2)
      && forall i :: 0 <= i < |t2| ==> |t2[i].value| > 0 && r2[i].value == Last(t2[i].value)
  {
    SameKeys(run, timings, stage);
    IndexOfByKeys(run, timings, stage);
    if HasKey(timings, stage) {
      var i := IndexOf(timings, stage).value;
      assert AppendSample(timings, stage, e) == timings[i := Entry(stage, timings[i].value + [e])];
      assert Put(run, stage, e) == run[i := Entry(stage, e)];
      InStepAfterUpdate(timings, run, i, e);
    } else {
      assert AppendSample(timings, stage, e) == timings + [Entry(stage, [e])];
      assert Put(run, stage, e) == run + [Entry(stage, e)];
      InStepAfterAppend(timings, run, stage, e);
    }
  }

  lemma InStepAfterUpdate(timings: Dict<seq<real>>, run: Dict<real>, i: nat, e: real)
    requires Keys(run) == Keys(timings) && i < |timings|
    requires forall j :: 0 <= j < |timings| ==> |timings[j].value| > 0 && run[j].value == Last(timings[j].value)
    ensures var t2 := timings[i := Entry(timings[i].key, timings[i].value + [e])];
      var r2 := run[i := Entry(timings[i].key, e)];
      && Keys(r2) == Keys(t2)
      && forall j :: 0 <= j < |t2| ==> |t2[j].value| > 0 && r2[j].value == Last(t2[j].value)
  {
    var t2 := timings[i := Entry(timings[i].key, timings[i].value + [e])];
    var r2 := run[i := Entry(timings[i].key, e)];
    forall j | 0 <= j < |t2| ensures Keys(r2)[j] == Keys(t2)[j] {
      assert Keys(run)[j] == Keys(timings)[j];
    }
  }

  lemma InStepAfterAppend(timings: Dict<seq<real>>, run: Dict<real>, k: string, e: real)
    requires Keys(run) == Keys(timings)
    requires forall j :: 0 <= j < |timings| ==> |timings[j].value| > 0 && run[j].value == Last(timings[j].value)
    ensures var t2 := timings + [Entry(k, [e])];
      var r2 := run + [Entry(k, e)];
      && Keys(r2) == Keys(t2)
      && forall j :: 0 <= j < |t2| ==> |t2[j].value| > 0 && r2[j].value == Last(t2[j].value)
  {
    var t2 := timings + [Entry(k, [e])];
    var r2 := run + [Entry(k, e)];
    forall j | 0 <= j < |t2| ensures Keys(r2)[j] == Keys(t2)[j] {
      if j < |timings| { assert Keys(run)[j] == Keys(timings)[j]; }
    }
  }

  /** Recording one delta for `stage` keeps the memory history aligned with
      the samples. */
  lemma RecordKeepsMemoryAligned(m: Dict<seq<real>>, timings: Dict<seq<real>>, stage: string, delta: real, e: real)
    requires DistinctKeys(timings) && Aligned(m, timings)
    ensures DistinctKeys(m)
    ensures Aligned(AppendSample(m, stage, delta), AppendSample(timings, stage, e))
  {
    DistinctFromAligned(m, timings);
    SameKeys(m, timings, stage);
    IndexOfByKeys(m, timings, stage);
    if HasKey(timings, stage) {
      var i := IndexOf(timings, stage).value;
      assert AppendSample(timings, stage, e) == timings[i := Entry(stage, timings[i].value + [e])];
      assert AppendSample(m, stage, delta) == m[i := Entry(stage, m[i].value + [delta])];
      AlignedAfterUpdate(m, timings, i, delta, e);
    } else {
      assert AppendSample(timings, stage, e) == timings + [Entry(stage, [e])];
      assert AppendSample(m, stage, delta) == m + [Entry(stage, [delta])];
      AlignedAfterAppend(m, timings, stage, delta, e);
    }
  }

  lemma AlignedAfterUpdate(m: Dict<seq<real>>, timings: Dict<seq<real>>, i: nat, delta: real, e: real)
    requires Aligned(m, timings) && i < |timings|
    ensures Aligned(m[i := Entry(timings[i].key, m[i].value + [delta])],
                    timings[i := Entry(timings[i].key, timings[i].value + [e])])
  {
    var m2 := m[i := Entry(timings[i].key, m[i].value + [delta])];
    var t2 := timings[i := Entry(timings[i].key, timings[i].value + [e])];
    forall j | 0 <= j < |t2| ensures Keys(m2)[j] == Keys(t2)[j] {
      assert Keys(m)[j] == Keys(timings)[j];
    }
  }

  lemma AlignedAfterAppend(m: Dict<seq<real>>, timings: Dict<seq<real>>, k: string, delta: real, e: real)
    requires Aligned(m, timings)
    ensures Aligned(m + [Entry(k, [delta])], timings + [Entry(k, [e])])
  {
    var m2 := m + [Entry(k, [delta])];
    var t2 := timings + [Entry(k, [e])];
    forall j | 0 <= j < |t2| ensures Keys(m2)[j] == Keys(t2)[j] {
      if j < |timings| { assert Keys(m)[j] == Keys(timings)[j]; }
    }
  }

  /** `Exit` keeps the tracker's bookkeeping. */
  lemma ExitPreservesValid(t: Tracker, stage: string, start: real, end: real, memoryDelta: real)
    requires Valid(t) && |t.stack| > 0
    ensures Valid(Exit(t, stage, start, end, memoryDelta).value)
  {
    var e := end - start;
    var stack := t.stack[..|t.stack| - 1];
    var u := Tracker(AppendSample(t.timings, stage, e), Put(t.currentRun, stage, e), stack,
                     RecordMemory(t.memory, t.timings, stage, memoryDelta));
    ExitResult(t, stage, start, end, memoryDelta);
    RecordStepValid(t, stage, e, memoryDelta, stack);
    ValidOfEqual(Exit(t, stage, start, end, memoryDelta).value, u);
  }

  lemma ValidOfEqual(a: Tracker, b: Tracker)
    requires a == b && Valid(b)
    ensures Valid(a)
  {
  }

  lemma ExitResult(t: Tracker, stage: string, start: real, end: real, memoryDelta: real)
    requires Valid(t) && |t.stack| > 0
    ensures Exit(t, stage, start, end, memoryDelta).value
      == Tracker(AppendSample(t.timings, stage, end - start), Put(t.currentRun, stage, end - start),
                 t.stack[..|t.stack| - 1], RecordMemory(t.memory, t.timings, stage, memoryDelta))
  {
  }

  /** Recording one sample, with its latest run value and memory delta,
      keeps the tracker valid whatever the stack. */
  lemma RecordStepValid(t: Tracker, stage: string, e: real, memoryDelta: real, stack: seq<Frame>)
    requires Valid(t)
    ensures Valid(Tracker(AppendSample(t.timings, stage, e), Put(t.currentRun, stage, e), stack,
                          RecordMemory(t.memory, t.timings, stage, memoryDelta)))
  {
    var t2 := AppendSample(t.timings, stage, e);
    RecordKeepsRunInStep(t.timings, t.currentRun, stage, e);
    assert DistinctKeys(t2);
    if t.memory.Some? {
      RecordKeepsMemoryAligned(t.memory.value, t.timings, stage, memoryDelta, e);
      assert RecordMemory(t.memory, t.timings, stage, memoryDelta) == Some(AppendSample(t.memory.value, stage, memoryDelta));
    }
  }

  /** `get_current_run()`: the latest elapsed time of every stage, in the
      order the stages were first recorded. */
  function CurrentRun(t: Tracker): (run: Dict<real>)
    requires Valid(t)
    ensures |run| == |t.timings|
    ensures forall i :: 0 <= i < |run| ==>
      run[i].key == t.timings[i].key && run[i].value == Last(t.timings[i].value)
  {
    assert forall i :: 0 <= i < |t.currentRun| ==> Keys(t.currentRun)[i] == t.currentRun[i].key;
    t.currentRun
  }

  /** `reset()`: no samples, no latest run, no open stages; a tracked memory
      history is emptied but stays tracked. */
  function Reset(t: Tracker): (r: Tracker)
    ensures Valid(r)
    ensures r.timings == [] && r.currentRun == [] && r.stack == []
    ensures r.memory.Some? <==> t.memory.Some?
    ensures r.memory.Some? ==> r.memory.value == []
  {
    Tracker([], [], [], if t.memory.Some? then Some([]) else None)
  }

  /** Resetting inside an open stage empties the stack, so leaving that
      stage raises `IndexError` from `stage_stack.pop()`. */
  lemma ResetInsideStageRaises(t: Tracker, stage: string, start: real, end: real, delta: real)
    ensures Exit(Reset(Enter(t, stage, start)), stage, start, end, delta) == Err(IndexError)
  {
  }

  /** The number of samples over all stages. */
  function SampleCount(d: Dict<seq<real>>): nat
    decreases |d|
  {
    if |d| == 0 then 0 else |d[0].value| + SampleCount(d[1..])
  }

  lemma {:induction false} SampleCountAppend(d: Dict<seq<real>>, e: Entry<seq<real>>)
    ensures SampleCount(d + [e]) == SampleCount(d) + |e.value|
    decreases |d|
  {
    if |d| > 0 {
      assert (d + [e])[1..] == d[1..] + [e];
      SampleCountAppend(d[1..], e);
    }
  }

  lemma {:induction false} SampleCountUpdate(d: Dict<seq<real>>, i: nat, e: Entry<seq<real>>)
    requires i < |d|
    ensures SampleCount(d[i := e]) == SampleCount(d) - |d[i].value| + |e.value|
    decreases |d|
  {
    if i > 0 {
      assert d[i := e][1..] == d[1..][i - 1 := e];
      SampleCountUpdate(d[1..], i - 1, e);
    }
  }

  /** Appending one sample adds one to the count. */
  lemma AppendSampleCount(d: Dict<seq<real>>, k: string, x: real)
    requires DistinctKeys(d)
    ensures SampleCount(AppendSample(d, k, x)) == SampleCount(d) + 1
  {
    if HasKey(d, k) {
      var i := IndexOf(d, k).value;
      SampleCountUpdate(d, i, Entry(k, d[i].value + [x]));
    } else {
      SampleCountAppend(d, Entry(k, [x]));
    }
  }

  /** A `with tracker.track_stage(stage)` block entered at `start` and left
      at `end`, with the stages opened inside it. */
  datatype Scope = Scope(stage: string, start: real, end: real, memoryDelta: real, inner: seq<Scope>)

  /** The number of `with` blocks, nested ones included. */
  function ScopeCount(scopes: seq<Scope>): nat
    decreases scopes
  {
    if |scopes| == 0 then 0
    else 1 + ScopeCount(scopes[0].inner) + ScopeCount(scopes[1..])
  }

  /** Running properly nested blocks one after another: every block
      records one sample and leaves the stack as it found it, so nothing
      raises. */
  function RunScopes(t: Tracker, scopes: seq<Scope>): (r: Result<Tracker, PyError>)
    requires Valid(t)
    ensures r.Ok? && Valid(r.value)
    ensures r.value.stack == t.stack
    ensures SampleCount(r.value.timings) == SampleCount(t.timings) + ScopeCount(scopes)
    ensures r.value.memory.Some? <==> t.memory.Some?
    decreases scopes, 1
  {
    if |scopes| == 0 then Ok(t)
    else
      var first := RunScope(t, scopes[0]).value;
      RunScopes(first, scopes[1..])
  }

  /** One block: enter, run the blocks inside, leave. */
  function RunScope(t: Tracker, sc: Scope): (r: Result<Tracker, PyError>)
    requires Valid(t)
    ensures r.Ok? && Valid(r.value)
    ensures r.value.stack == t.stack
    ensures SampleCount(r.value.timings) == SampleCount(t.timings) + 1 + ScopeCount(sc.inner)
    ensures r.value.memory.Some? <==> t.memory.Some?
    decreases sc, 0
  {
    var entered := Enter(t, sc.stage, sc.start);
    assert Valid(entered);
    var inside := RunScopes(entered, sc.inner).value;
    LeaveScope(inside, sc.stage, sc.start, sc.end, sc.memoryDelta);
    Exit(inside, sc.stage, sc.start, sc.end, sc.memoryDelta)
  }

  /** Leaving an open stage keeps the tracker valid and adds one sample. */
  lemma LeaveScope(t: Tracker, stage: string, start: real, end: real, memoryDelta: real)
    requires Valid(t) && |t.stack| > 0
    ensures
      var r := Exit(t, stage, start, end, memoryDelta);
      && r.Ok? && Valid(r.value) && r.value.stack == t.stack[..|t.stack| - 1]
      && SampleCount(r.value.timings) == SampleCount(t.timings) + 1
      && (r.value.memory.Some? <==> t.memory.Some?)
  {
    ExitPreservesValid(t, stage, start, end, memoryDelta);
    ExitSampleCount(t, stage, start, end, memoryDelta);
  }

  lemma ExitSampleCount(t: Tracker, stage: string, start: real, end: real, memoryDelta: real)
    requires Valid(t) && |t.stack| > 0
    ensures SampleCount(Exit(t, stage, start, end, memoryDelta).value.timings) == SampleCount(t.timings) + 1
  {
    var appended := AppendSample(t.timings, stage, end - start);
    AppendSampleCount(t.timings, stage, end - start);
    assert SampleCount(appended) == SampleCount(t.timings) + 1;
    assert Exit(t, stage, start, end, memoryDelta).value.timings == appended;
  }

  /** `int(elapsed * 1_000_000)`: microseconds, truncated. */
  function Microseconds(elapsed: real): (us: int)
    ensures elapsed >= 0.0 ==> 0 <= us && us as real <= elapsed * 1000000.0 < us as real + 1.0
    ensures elapsed < 0.0 ==> us <= 0 && us as real - 1.0 < elapsed * 1000000.0 <= us as real
  {
    TruncToInt(elapsed * 1000000.0)
  }

  /** `f"pipeline;{stage} {microseconds}"`: the stack `pipeline;<stage>`,
      a space, and the integer microseconds in decimal. */
  function FlameLine(stage: string, elapsed: real): (line: string)
    ensures |line| >= 11 + |stage|
    ensures line[..9] == "pipeline;" && line[9..9 + |stage|] == stage && line[9 + |stage|] == ' '
    ensures IntValue(line[(10 + |stage|)..]) == Microseconds(elapsed)
    ensures line[10 + |stage|] == '-' <==> Microseconds(elapsed) < 0
    ensures forall k :: 10 + |stage| <= k < |line| ==> line[k] == '-' || IsAsciiDigit(line[k])
  {
    var digits := IntToString(Microseconds(elapsed));
    var line := "pipeline;" + stage + " " + digits;
    assert line[9..9 + |stage|] == stage;
    assert line[(10 + |stage|)..] == digits;
    line
  }

  /** The lines of `generate_flamegraph_data`, stage by stage in order of
      first recording, one per sample. */
  function FlameLines(d: Dict<seq<real>>): (lines: seq<string>)
    ensures |lines| == SampleCount(d)
    ensures forall i :: 0 <= i < |lines| ==> |lines[i]| >= 11 && lines[i][..9] == "pipeline;"
    decreases |d|
  {
    if |d| == 0 then []
    else
      var stage := d[0].key;
      var samples := d[0].value;
      seq(|samples|, j requires 0 <= j < |samples| => FlameLine(stage, samples[j])) + FlameLines(d[1..])
  }

  /** `generate_flamegraph_data()`. */
  function Flamegraph(t: Tracker): (r: string)
    ensures r == "" <==> SampleCount(t.timings) == 0
    ensures SampleCount(t.timings) > 0 ==> |r| >= 11 && r[..9] == "pipeline;"
  {
    var lines := FlameLines(t.timings);
    JoinStartsWithFirst("\n", lines);
    Join("\n", lines)
  }

  /** No stage name holds a line break. */
  predicate SingleLineStages(d: Dict<seq<real>>) {
    forall i :: 0 <= i < |d| ==> '\n' !in d[i].key
  }

  lemma IntToStringSingleLine(n: int)
    ensures '\n' !in IntToString(n)
  {
    var digits := NatToString(if n < 0 then -n else n);
    assert forall i :: 0 <= i < |digits| ==> IsAsciiDigit(digits[i]);
    assert IntToString(n) == (if n < 0 then "-" else "") + digits;
  }

  lemma {:induction false} FlameLinesSingleLine(d: Dict<seq<real>>)
    requires SingleLineStages(d)
    ensures forall i :: 0 <= i < |FlameLines(d)| ==> '\n' !in FlameLines(d)[i]
    decreases |d|
  {
    if |d| > 0 {
      var stage := d[0].key;
      var samples := d[0].value;
      var head := seq(|samples|, j requires 0 <= j < |samples| => FlameLine(stage, samples[j]));
      assert SingleLineStages(d[1..]) by {
        forall i | 0 <= i < |d[1..]| ensures '\n' !in d[1..][i].key {
          assert d[1..][i] == d[i + 1];
        }
      }
      FlameLinesSingleLine(d[1..]);
      var rest := FlameLines(d[1..]);
      assert FlameLines(d) == head + rest;
      forall i | 0 <= i < |head| + |rest| ensures '\n' !in (head + rest)[i] {
        if i < |head| {
          var line := head[i];
          IntToStringSingleLine(Microseconds(samples[i]));
          assert line == "pipeline;" + stage + " " + IntToString(Microseconds(samples[i]));
        } else {
          assert (head + rest)[i] == rest[i - |head|];
        }
      }
    }
  }

  /** Splitting the flamegraph text at line breaks gives back exactly one
      line per recorded sample. */
  lemma FlamegraphOneLinePerSample(t: Tracker)
    requires SingleLineStages(t.timings) && SampleCount(t.timings) > 0
    ensures SplitOn(Flamegraph(t), '\n') == FlameLines(t.timings)
    ensures |SplitOn(Flamegraph(t), '\n')| == SampleCount(t.timings)
  {
    FlameLinesSingleLine(t.timings);
    SplitJoin(FlameLines(t.timings), '\n');
  }

  /** The per-stage summaries of `get_statistics` (and, over memory deltas,
      of `get_memory_statistics`): one entry per stage with samples, in
      order of first recording; a stage without samples is skipped. */
  function StatsOf(d: Dict<seq<real>>): (r: Dict<Summary>)
    ensures |r| <= |d|
    decreases |d|
  {
    if |d| == 0 then []
    else if |d[0].value| == 0 then StatsOf(d[1..])
    else [Entry(d[0].key, Summarize(d[0].value))] + StatsOf(d[1..])
  }

  /** When every stage has a sample, `StatsOf` keeps every stage in place
      and summarises exactly its samples. */
  lemma {:induction false} StatsOfAllSampled(d: Dict<seq<real>>)
    requires forall i :: 0 <= i < |d| ==> |d[i].value| > 0
    ensures |StatsOf(d)| == |d|
    ensures forall i :: 0 <= i < |d| ==> StatsOf(d)[i] == Entry(d[i].key, Summarize(d[i].value))
    decreases |d|
  {
    if |d| > 0 {
      assert forall i :: 0 <= i < |d[1..]| ==> d[1..][i] == d[i + 1];
      StatsOfAllSampled(d[1..]);
      var r := StatsOf(d);
      assert r == [Entry(d[0].key, Summarize(d[0].value))] + StatsOf(d[1..]);
      forall i | 0 < i < |d| ensures r[i] == Entry(d[i].key, Summarize(d[i].value)) {
        assert r[i] == StatsOf(d[1..])[i - 1];
      }
    }
  }

  /** A stage without samples gets no summary. */
  lemma {:induction false} StatsOfSkipsEmpty(d: Dict<seq<real>>)
    requires forall i :: 0 <= i < |d| ==> |d[i].value| == 0
    ensures StatsOf(d) == []
    decreases |d|
  {
    if |d| > 0 {
      assert forall i :: 0 <= i < |d[1..]| ==> d[1..][i] == d[i + 1];
      StatsOfSkipsEmpty(d[1..]);
    }
  }

  /** `get_statistics()`: one summary per recorded stage, in order of
      first recording. */
  function GetStatistics(t: Tracker): (r: Dict<Summary>)
    requires Valid(t)
    ensures Keys(r) == Keys(t.timings)
    ensures forall i :: 0 <= i < |r| ==> r[i].key == t.timings[i].key && r[i].value == Summarize(t.timings[i].value)
    ensures forall i :: 0 <= i < |r| ==>
      && r[i].value.count == |t.timings[i].value| && r[i].value.total == Sum(t.timings[i].value)
      && r[i].value.mean == r[i].value.total / r[i].value.count as real
      && r[i].value.min in t.timings[i].value && r[i].value.max in t.timings[i].value
      && (forall j :: 0 <= j < |t.timings[i].value| ==> r[i].value.min <= t.timings[i].value[j] <= r[i].value.max)
  {
    StatsOfAllSampled(t.timings);
    StatsOf(t.timings)
  }

  /** `get_memory_statistics()`: `{}` when memory is not tracked or nothing
      was recorded, otherwise one summary per stage of its deltas. */
  function GetMemoryStatistics(t: Tracker): (r: Dict<Summary>)
    requires Valid(t)
    ensures t.memory.None? || t.memory.value == [] ==> r == []
    ensures t.memory.Some? ==> Keys(r) == Keys(t.timings)
    ensures t.memory.Some? && t.memory.value != [] ==> forall i :: 0 <= i < |r| ==>
      r[i].key == t.timings[i].key && r[i].value == Summarize(t.memory.value[i].value)
    ensures t.memory.Some? ==> forall i :: 0 <= i < |r| ==>
      && r[i].value.count == |t.timings[i].value| && r[i].value.total == Sum(t.memory.value[i].value)
      && r[i].value.mean == r[i].value.total / r[i].value.count as real
      && r[i].value.min in t.memory.value[i].value && r[i].value.max in t.memory.value[i].value
      && (forall j :: 0 <= j < |t.memory.value[i].value| ==> r[i].value.min <= t.memory.value[i].value[j] <= r[i].value.max)
  {
    match t.memory
    case None => []
    case Some(m) =>
      if |m| == 0 then
        assert Keys(m) == Keys(t.timings);
        []
      else
        assert forall i :: 0 <= i < |m| ==> Keys(m)[i] == Keys(t.timings)[i];
        StatsOfAllSampled(m);
        StatsOf(m)
  }
}
