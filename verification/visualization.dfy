/** `create_text_visualization`: one bar per stage of a timing breakdown,
    slowest first, and a `TOTAL` line.

    The model keeps what the chart's layout depends on: which stages appear
    and in what order, each stage's padded name, the bar's length and the
    bar cell `|<bar padded to width>|`. The headers, rules and the
    fixed-point renderings of times and percentages are not modelled.
 */
module TextVisualization {
  import opened Wrappers
  import opened OrderedMap
  import opened Statistics
  import opened StableSort
  import opened TimingBreakdown

  /** The bar glyph of the top-level copy: the three characters U+00E2,
      U+2013 and U+02C6, which is the UTF-8 encoding of U+2588 read back as
      Windows-1252. */
  const TopLevelGlyph: string := "\U{00E2}\U{2013}\U{02C6}"

  /** The bar glyph of the `utils` copy: U+2588 FULL BLOCK. */
  const UtilsGlyph: string := "\U{2588}"

  /** The width of the stage-name column, `{stage:<25}`. */
  const LabelWidth: nat := 25

  const DefaultWidth: int := 50

  /** One stage line: its padded name, the bar's length, the bar cell, and
      the time and share that follow it. */
  datatype BarLine = BarLine(stageCell: string, length: int, cell: string, timeMs: real, percentage: real)

  /** `"No data to visualize"`, or the stage lines and the total time. */
  datatype Chart = NoData | Chart(bars: seq<BarLine>, totalMs: real)

  /** `s * n`: `n` copies of `s`, none when `n` is not positive. */
  function Repeat(s: string, n: int): (r: string)
    ensures |r| == (if n > 0 then n * |s| else 0)
    ensures forall c :: c in r ==> c in s
    decreases n
  {
    if n <= 0 then "" else s + Repeat(s, n - 1)
  }

  /** `f"{s:<{w}}"` with `w` not negative: `s`, then spaces up to `w`. */
  function PadRight(s: string, w: nat): (r: string)
    ensures |r| == (if |s| >= w then |s| else w)
    ensures |s| <= |r| && r[..|s|] == s
    ensures forall i :: |s| <= i < |r| ==> r[i] == ' '
  {
    if |s| >= w then s
    else
      var pad := Repeat(" ", w - |s|);
      assert forall i :: 0 <= i < |pad| ==> pad[i] in " ";
      s + pad
  }

  /** `int(percentage / 100 * width)`. */
  function BarLength(percentage: real, width: int): (n: int)
    ensures 0.0 <= percentage <= 100.0 && width >= 0 ==> 0 <= n <= width
  {
    var x := percentage / 100.0 * width as real;
    if 0.0 <= percentage <= 100.0 && width >= 0 then
      ScaledWithin(percentage, width as real);
      TruncToInt(x)
    else TruncToInt(x)
  }

  lemma ScaledWithin(p: real, w: real)
    requires 0.0 <= p <= 100.0 && w >= 0.0
    ensures 0.0 <= p / 100.0 * w <= w
  {
    var f := p / 100.0;
    assert 0.0 <= f <= 1.0;
    assert w - f * w == (1.0 - f) * w;
  }

  /** The line of one stage. */
  function Line(stage: string, row: Row, width: nat, glyph: string): (l: BarLine)
    ensures |stage| <= |l.stageCell| && l.stageCell[..|stage|] == stage && |l.stageCell| >= LabelWidth
    ensures l.timeMs == row.timeMs && l.percentage == row.percentage
  {
    var n := BarLength(row.percentage, width);
    BarLine(PadRight(stage, LabelWidth), n, "|" + PadRight(Repeat(glyph, n), width) + "|",
            row.timeMs, row.percentage)
  }

  /** The lines of `stages`, in order. */
  function Bars(stages: Dict<Row>, width: int, glyph: string): (bars: seq<BarLine>)
    requires width >= 0 || |stages| == 0
    ensures |bars| == |stages|
    ensures forall i :: 0 <= i < |stages| ==> bars[i] == Line(stages[i].key, stages[i].value, width, glyph)
  {
    seq(|stages|, i requires 0 <= i < |stages| => Line(stages[i].key, stages[i].value, width, glyph))
  }

  /** `[(k, v) for k, v in breakdown.items() if k != "_total"]`. */
  function StageEntries(b: Dict<Row>): (r: Dict<Row>)
    ensures |r| <= |b|
    ensures forall e :: e in r <==> e in b && e.key != TotalKey
    decreases |b|
  {
    if |b| == 0 then []
    else
      var rest := StageEntries(b[1..]);
      assert forall e :: e in b <==> e == b[0] || e in b[1..];
      if b[0].key == TotalKey then rest else [b[0]] + rest
  }

  /** The stages in chart order: `stages.sort(key=..., reverse=True)`. */
  function ChartOrder(b: Dict<Row>): (stages: Dict<Row>)
    ensures SortedDesc(stages, RowSeconds)
    ensures multiset(stages) == multiset(StageEntries(b))
  {
    Sort(StageEntries(b), RowSeconds)
  }

  /** `create_text_visualization(breakdown, width)` drawn with `glyph`. A
      negative width raises `ValueError` at the first bar, or, with no
      stage to draw, at the `TOTAL` line once `width + 2` is negative. */
  function Visualize(b: Dict<Row>, width: int, glyph: string): (r: Result<Chart, PyError>)
    ensures r == Ok(NoData) <==> !HasKey(b, TotalKey)
    ensures r.Err? <==> HasKey(b, TotalKey) && ((width < 0 && |StageEntries(b)| > 0) || width < -2)
    ensures r.Err? ==> r.error == ValueError
    ensures r.Ok? && r.value.Chart? ==>
      && |r.value.bars| == |StageEntries(b)|
      && Get(b, TotalKey).Some? && r.value.totalMs == Get(b, TotalKey).value.timeMs
  {
    if |b| == 0 || !HasKey(b, TotalKey) then Ok(NoData)
    else
      var stages := ChartOrder(b);
      if width < 0 && |stages| > 0 then Err(ValueError)
      else if width + 2 < 0 then Err(ValueError)
      else Ok(Chart(Bars(stages, width, glyph), Get(b, TotalKey).value.timeMs))
  }

  /** Drawn with the one-character glyph, a bar of at most `width` blocks
      fills a cell of exactly `width + 2` characters, so the times line up. */
  lemma UtilsCellWidth(stage: string, row: Row, width: nat)
    requires 0.0 <= row.percentage <= 100.0
    ensures |Line(stage, row, width, UtilsGlyph).cell| == width + 2
  {
  }

  /** Drawn with the three-character glyph, the bar is three times as long
      as its computed length, and the cell grows past `width + 2` whenever
      that exceeds the width. */
  lemma TopLevelCellWidth(stage: string, row: Row, width: nat)
    requires 0.0 <= row.percentage <= 100.0
    ensures
      var l := Line(stage, row, width, TopLevelGlyph);
      |l.cell| == (if 3 * l.length > width then 3 * l.length else width) + 2
  {
  }

  /** A stage taking the whole run at the default width: its bar is 150
      characters and its cell 152 rather than 52. */
  lemma TopLevelBarOverflows()
    ensures
      var l := Line("query", Row(1.0, 1000.0, 100.0), DefaultWidth, TopLevelGlyph);
      l.length == 50 && |l.cell| == 152
  {
    var l := Line("query", Row(1.0, 1000.0, 100.0), DefaultWidth, TopLevelGlyph);
    assert l.length == TruncToInt(100.0 / 100.0 * 50.0);
  }

  /** A breakdown's stages already stand in chart order, so the chart
      draws them in the breakdown's own order, slowest first. */
  lemma ChartKeepsBreakdownOrder(run: Dict<real>)
    requires DistinctKeys(run) && |run| > 0 && !HasKey(run, TotalKey)
    ensures ChartOrder(Breakdown(run)) == SortedRows(run)
  {
    var b := Breakdown(run);
    var rows := SortedRows(run);
    BreakdownLayout(run);
    assert b == rows + [b[|run|]];
    StageEntriesOfRows(rows, b[|run|]);
    SortSortedIsIdentity(rows, RowSeconds);
  }

  lemma {:induction false} StageEntriesOfRows(rows: Dict<Row>, total: Entry<Row>)
    requires total.key == TotalKey
    requires forall i :: 0 <= i < |rows| ==> rows[i].key != TotalKey
    ensures StageEntries(rows + [total]) == rows
    decreases |rows|
  {
    if |rows| == 0 {
      assert StageEntries([total]) == StageEntries([]);
    } else {
      assert (rows + [total])[1..] == rows[1..] + [total];
      StageEntriesOfRows(rows[1..], total);
    }
  }

  /** The chart of a tracker's breakdown with the one-character glyph and a
      width that is not negative: one line per stage, slowest first, each
      bar between 0 and `width` long in a cell of exactly `width + 2`. */
  lemma UtilsChartAligned(run: Dict<real>, width: nat)
    requires DistinctKeys(run) && |run| > 0 && !HasKey(run, TotalKey)
    requires forall i :: 0 <= i < |run| ==> run[i].value >= 0.0
    ensures
      var r := Visualize(Breakdown(run), width, UtilsGlyph);
      && r.Ok? && r.value.Chart? && |r.value.bars| == |run|
      && forall i :: 0 <= i < |run| ==>
           && |SortedRows(run)[i].key| <= |r.value.bars[i].stageCell|
           && r.value.bars[i].stageCell[..|SortedRows(run)[i].key|] == SortedRows(run)[i].key
           && 0 <= r.value.bars[i].length <= width
           && |r.value.bars[i].cell| == width + 2
  {
    ChartOfBreakdown(run, width, UtilsGlyph);
    BarsAligned(run, width);
  }

  /** The chart of a breakdown draws its stage rows in their own order. */
  lemma ChartOfBreakdown(run: Dict<real>, width: nat, glyph: string)
    requires DistinctKeys(run) && |run| > 0 && !HasKey(run, TotalKey)
    ensures Visualize(Breakdown(run), width, glyph)
            == Ok(Chart(Bars(SortedRows(run), width, glyph), Get(Breakdown(run), TotalKey).value.timeMs))
  {
    ChartKeepsBreakdownOrder(run);
    ChartOfOrder(Breakdown(run), width, glyph);
  }

  /** With a width that is not negative, the chart draws one line per
      stage, in chart order. */
  lemma ChartOfOrder(b: Dict<Row>, width: nat, glyph: string)
    requires HasKey(b, TotalKey)
    ensures
      var r := Visualize(b, width, glyph);
      r.Ok? && r.value.Chart? && r.value.bars == Bars(ChartOrder(b), width, glyph)
  {
  }

  lemma BarsAligned(run: Dict<real>, width: nat)
    requires forall i :: 0 <= i < |run| ==> run[i].value >= 0.0
    ensures
      var rows := SortedRows(run);
      var bars := Bars(rows, width, UtilsGlyph);
      forall i :: 0 <= i < |run| ==>
        && |rows[i].key| <= |bars[i].stageCell|
        && bars[i].stageCell[..|rows[i].key|] == rows[i].key
        && 0 <= bars[i].length <= width
        && |bars[i].cell| == width + 2
  {
    var rows := SortedRows(run);
    var bars := Bars(rows, width, UtilsGlyph);
    PercentageBounds(run);
    forall i | 0 <= i < |run|
      ensures 0 <= bars[i].length <= width && |bars[i].cell| == width + 2
    {
      assert Percentages(rows)[i] == rows[i].value.percentage;
      UtilsCellWidth(rows[i].key, rows[i].value, width);
    }
  }
}
