/** `CypherQueryValidator`: the dry-run check, the post-processing pipeline,
    and the heuristic repairs of `CypherSelfRefinement`.

    The database connection is a parameter: `explain` receives the text
    `EXPLAIN <query>` and answers `None` when the statement is accepted or
    `Some(message)` carrying `str(e)` of the exception it raised.
 */
module CypherValidator {
  import opened Wrappers
  import opened Text
  import opened Comparisons
  import opened ReturnProjection

  /** The database's answer to `EXPLAIN <query>`: `None` when accepted,
      the error text otherwise. */
  type Explain = string -> Option<string>

  /** The pair `(is_valid, error_message)`. */
  datatype Validation = Validation(isValid: bool, error: Option<string>)

  /** `validate_syntax`: run `EXPLAIN <query>` and report its outcome. */
  function ValidateSyntax(explain: Explain, query: string): (v: Validation)
    ensures v.isValid <==> v.error.None?
    ensures v.isValid <==> explain("EXPLAIN " + query).None?
    ensures !v.isValid ==> v.error == explain("EXPLAIN " + query)
  {
    match explain("EXPLAIN " + query)
    case None => Validation(true, None)
    case Some(msg) => Validation(false, Some(msg))
  }

  /** `post_process`: strip, rewrite comparisons, check the RETURN items,
      collapse whitespace runs, then rename `to_lower(` to `lower(`. The
      `IndexError` of the RETURN check propagates. */
  function PostProcess(query: string): (r: Result<string, PyError>)
    ensures r.Ok? ==> NoSpaceRuns(r.value)
    ensures r.Err? ==> r.error == IndexError
  {
    var stripped := Strip(query);
    var compared := EnforceLowercaseComparisons(stripped);
    match FixReturnProjection(compared)
    case Err(e) => Err(e)
    case Ok(projected) =>
      var collapsed := Collapse(projected);
      RenameTextsHaveNoSpace();
      ReplaceAllKeepsNoSpaceRuns(collapsed, "to_lower(", "lower(");
      Ok(ReplaceAll(collapsed, "to_lower(", "lower("))
  }

  lemma RenameTextsHaveNoSpace()
    ensures NoSpace("to_lower(") && NoSpace("lower(")
  {
    var a := "to_lower(";
    forall i | 0 <= i < |a| ensures !IsSpace(a[i]) {
      assert '(' <= a[i] <= 'w';
    }
    assert "lower(" == a[3..];
  }

  /** The steps of `post_process` before the renaming, which everything
      after it only rewrites. */
  function Prepared(query: string): (r: Result<string, PyError>)
    ensures r.Ok? ==> NoSpaceRuns(r.value)
  {
    match FixReturnProjection(EnforceLowercaseComparisons(Strip(query)))
    case Err(e) => Err(e)
    case Ok(projected) => Ok(Collapse(projected))
  }

  /** The output of `post_process` keeps every non-whitespace character of
      the rewritten query when it holds no `to_lower(`: only whitespace
      runs change, each to one space. */
  lemma PostProcessOnlyCollapsesSpaces(query: string)
    requires PostProcess(query).Ok?
    requires !Contains(Prepared(query).value, "to_lower(")
    ensures PostProcess(query).value == Prepared(query).value
    ensures NonSpace(PostProcess(query).value) == NonSpace(EnforceLowercaseComparisons(Strip(query)))
  {
  }

  /** A query without a quote and without a RETURN keyword is only
      stripped and collapsed (before the renaming). */
  lemma PlainQueryOnlyCollapses(query: string)
    requires '\'' !in Strip(query)
    requires ReturnGroup(Strip(query)).None?
    ensures Prepared(query) == Ok(Collapse(Strip(query)))
  {
  }

  /** The rename can create the text it removes: `to_to_lower(` becomes
      `to_lower(`, so the output is not free of `to_lower(`. */
  lemma RenameCanLeaveToLower()
    ensures ReplaceAll("to_to_lower(", "to_lower(", "lower(") == "to_lower("
  {
    var pat, rep := "to_lower(", "lower(";
    assert pat[0] == 't' && pat[3] == 'l';
    ReplaceAllWhole(pat, rep);
    ReplaceAllSkip('_', pat, pat, rep, 0);
    ReplaceAllSkip('o', ['_'] + pat, pat, rep, 0);
    ReplaceAllSkip('t', ['o'] + (['_'] + pat), pat, rep, 3);
    RenameLiterals();
  }

  lemma RenameLiterals()
    ensures "to_to_lower(" == ['t'] + (['o'] + (['_'] + "to_lower("))
    ensures ['t'] + (['o'] + (['_'] + "lower(")) == "to_lower("
  {
  }

  /** A character where the pattern does not start is copied: the text
      differs from the pattern at offset `k`. */
  lemma ReplaceAllSkip(c: char, t: string, pat: string, rep: string, k: nat)
    requires |pat| > 0 && |t| + 1 >= |pat| && k < |pat|
    requires ([c] + t)[k] != pat[k]
    ensures ReplaceAll([c] + t, pat, rep) == [c] + ReplaceAll(t, pat, rep)
  {
    var s := [c] + t;
    assert s[..|pat|][k] != pat[k];
    assert s[1..] == t;
  }

  /** The pattern alone is replaced as a whole. */
  lemma ReplaceAllWhole(pat: string, rep: string)
    requires |pat| > 0
    ensures ReplaceAll(pat, pat, rep) == rep
  {
    assert pat[..|pat|] == pat;
    assert pat[|pat|..] == [];
  }

  /** `CALL apoc\.[^\s]+` at `p`, in any case: the end of the match. */
  function ApocCallAt(s: string, p: nat): (r: Option<nat>)
    requires p <= |s|
    ensures r.Some? ==> p + 11 <= r.value <= |s| && StartsWithCI(s, p, "call apoc.")
    ensures r.Some? ==> NoSpace(s[p + 10..(r.value)]) && (r.value == |s| || IsSpace(s[r.value]))
  {
    if StartsWithCI(s, p, "call apoc.") then
      var e := NonSpaceRunEnd(s, p + 10);
      if e == p + 10 then None else Some(e)
    else None
  }

  function NonSpaceRunEnd(s: string, i: nat): (j: nat)
    requires i <= |s|
    ensures i <= j <= |s| && NoSpace(s[i..(j)])
    ensures j == |s| || IsSpace(s[j])
    decreases |s| - i
  {
    if i < |s| && !IsSpace(s[i]) then
      var j := NonSpaceRunEnd(s, i + 1);
      assert s[i..(j)] == [s[i]] + s[i + 1..(j)];
      j
    else i
  }

  /** The spans `re.sub` removes, searched from `pos`: leftmost first, then
      from the end of each. */
  function ApocSpans(s: string, pos: nat): (spans: seq<(nat, nat)>)
    requires pos <= |s|
    ensures SpansWithin(spans, pos, |s|)
    ensures forall i :: 0 <= i < |spans| ==> ApocCallAt(s, spans[i].0) == Some(spans[i].1)
    ensures forall p :: pos <= p <= |s| && (|spans| == 0 || p < spans[0].0) ==> ApocCallAt(s, p).None?
    decreases |s| - pos
  {
    if pos == |s| then []
    else match ApocCallAt(s, pos)
      case Some(e) =>
        var rest := ApocSpans(s, e);
        SpansCons(pos, e, rest, |s|);
        [(pos, e)] + rest
      case None =>
        var rest := ApocSpans(s, pos + 1);
        assert forall p :: pos < p <= |s| && (|rest| == 0 || p < rest[0].0) ==> ApocCallAt(s, p).None?;
        rest
  }

  /** Spans inside `[lo, hi]`, each ending before the next starts. */
  predicate SpansWithin(spans: seq<(nat, nat)>, lo: nat, hi: nat) {
    && (forall i :: 0 <= i < |spans| ==> lo <= spans[i].0 <= spans[i].1 <= hi)
    && (forall i, j :: 0 <= i < j < |spans| ==> spans[i].1 <= spans[j].0)
  }

  lemma SpansCons(lo: nat, e: nat, rest: seq<(nat, nat)>, hi: nat)
    requires lo <= e && SpansWithin(rest, e, hi) && e <= hi
    ensures SpansWithin([(lo, e)] + rest, lo, hi)
    ensures forall i :: 1 <= i < |rest| + 1 ==> ([(lo, e)] + rest)[i] == rest[i - 1]
  {
    var spans := [(lo, e)] + rest;
    forall i, j | 0 <= i < j < |spans| ensures spans[i].1 <= spans[j].0 {
      if i > 0 { assert spans[i] == rest[i - 1] && spans[j] == rest[j - 1]; }
      else { assert spans[j] == rest[j - 1]; }
    }
  }

  /** What is left of `s[pos..]` between the given spans. */
  function Gaps(s: string, pos: nat, spans: seq<(nat, nat)>): string
    requires pos <= |s|
    requires SpansWithin(spans, pos, |s|)
    decreases |spans|
  {
    if |spans| == 0 then s[pos..]
    else s[pos..(spans[0].0)] + Gaps(s, spans[0].1, spans[1..])
  }

  /** `re.sub(r'CALL apoc\.[^\s]+', '', s[pos..], flags=re.IGNORECASE)`,
      scanning character by character. */
  function RemoveApocFrom(s: string, pos: nat): (r: string)
    requires pos <= |s|
    ensures |r| <= |s| - pos
    ensures (forall p :: pos <= p <= |s| ==> ApocCallAt(s, p).None?) ==> r == s[pos..]
    decreases |s| - pos
  {
    if pos == |s| then []
    else match ApocCallAt(s, pos)
      case Some(e) => RemoveApocFrom(s, e)
      case None =>
        var rest := RemoveApocFrom(s, pos + 1);
        assert s[pos..] == [s[pos]] + s[pos + 1..];
        [s[pos]] + rest
  }

  /** `re.sub(r'CALL apoc\.[^\s]+', '', s, flags=re.IGNORECASE)`. */
  function RemoveApocCalls(s: string): (r: string)
    ensures |r| <= |s|
    ensures r == Gaps(s, 0, ApocSpans(s, 0))
    ensures ApocSpans(s, 0) == [] ==> r == s
  {
    RemoveApocIsGaps(s, 0);
    RemoveApocFrom(s, 0)
  }

  /** The scan removes exactly the spans the leftmost-match search finds
      and keeps the text between them. */
  lemma {:induction false} RemoveApocIsGaps(s: string, pos: nat)
    requires pos <= |s|
    ensures RemoveApocFrom(s, pos) == Gaps(s, pos, ApocSpans(s, pos))
    decreases |s| - pos, 1
  {
    if pos < |s| {
      if ApocCallAt(s, pos).Some? {
        RemoveApocIsGapsHit(s, pos);
      } else {
        RemoveApocIsGapsMiss(s, pos);
      }
    }
  }

  lemma {:induction false} RemoveApocIsGapsHit(s: string, pos: nat)
    requires pos < |s| && ApocCallAt(s, pos).Some?
    ensures RemoveApocFrom(s, pos) == Gaps(s, pos, ApocSpans(s, pos))
    decreases |s| - pos, 0
  {
    var e := ApocCallAt(s, pos).value;
    RemoveApocIsGaps(s, e);
    RemoveApocHit(s, pos, e);
    GapsSkip(s, pos, e, ApocSpans(s, e));
  }

  lemma {:induction false} RemoveApocIsGapsMiss(s: string, pos: nat)
    requires pos < |s| && ApocCallAt(s, pos).None?
    ensures RemoveApocFrom(s, pos) == Gaps(s, pos, ApocSpans(s, pos))
    decreases |s| - pos, 0
  {
    RemoveApocIsGaps(s, pos + 1);
    RemoveApocMiss(s, pos);
    GapsCons(s, pos, ApocSpans(s, pos + 1));
  }

  /** A call at `pos` is dropped whole and is the first span. */
  lemma RemoveApocHit(s: string, pos: nat, e: nat)
    requires pos < |s| && ApocCallAt(s, pos) == Some(e)
    ensures RemoveApocFrom(s, pos) == RemoveApocFrom(s, e)
    ensures ApocSpans(s, pos) == [(pos, e)] + ApocSpans(s, e)
  {
  }

  /** Without a call at `pos` its character is kept and no span starts there. */
  lemma RemoveApocMiss(s: string, pos: nat)
    requires pos < |s| && ApocCallAt(s, pos).None?
    ensures RemoveApocFrom(s, pos) == [s[pos]] + RemoveApocFrom(s, pos + 1)
    ensures ApocSpans(s, pos) == ApocSpans(s, pos + 1)
  {
  }

  /** A span at the start leaves nothing before it. */
  lemma GapsSkip(s: string, pos: nat, e: nat, rest: seq<(nat, nat)>)
    requires pos <= e <= |s| && SpansWithin(rest, e, |s|)
    ensures SpansWithin([(pos, e)] + rest, pos, |s|)
    ensures Gaps(s, pos, [(pos, e)] + rest) == Gaps(s, e, rest)
  {
    assert ([(pos, e)] + rest)[1..] == rest;
    assert s[pos..pos] == [];
  }

  /** Moving the start one character back adds that character in front. */
  lemma GapsCons(s: string, pos: nat, spans: seq<(nat, nat)>)
    requires pos < |s|
    requires SpansWithin(spans, pos + 1, |s|)
    ensures Gaps(s, pos, spans) == [s[pos]] + Gaps(s, pos + 1, spans)
  {
    if |spans| == 0 {
      SliceCons(s, pos, |s|, s[pos + 1..(|s|)]);
      assert s[pos..] == s[pos..(|s|)];
    } else {
      SpansWithinWider(spans, pos, |s|);
      var cut := spans[0].0;
      var tail := Gaps(s, spans[0].1, spans[1..]);
      assert Gaps(s, pos, spans) == s[pos..(cut)] + tail;
      assert Gaps(s, pos + 1, spans) == s[pos + 1..(cut)] + tail;
      SliceCons(s, pos, cut, s[pos + 1..(cut)]);
      ConsAppend(s[pos], s[pos + 1..(cut)], tail);
    }
  }

  lemma SpansWithinWider(spans: seq<(nat, nat)>, lo: nat, hi: nat)
    requires SpansWithin(spans, lo + 1, hi)
    ensures SpansWithin(spans, lo, hi)
  {
  }

  /** `_apply_heuristic_repairs(query, error_msg)`. */
  function HeuristicRepairs(query: string, errorMsg: string): (r: string)
    ensures !ContainsCI(errorMsg, "semicolon") && !ContainsCI(query, "apoc") ==> r == query
  {
    var repaired := if ContainsCI(errorMsg, "semicolon") then RStripChar(query, ';') + ";" else query;
    if ContainsCI(repaired, "apoc") then RemoveApocCalls(repaired) else repaired
  }

  /** With `semicolon` in the message and no `apoc` anywhere, the repair
      ends the query with exactly one semicolon and keeps everything before
      its trailing semicolons. */
  lemma SemicolonRepairEndsWithOne(query: string, errorMsg: string)
    requires ContainsCI(errorMsg, "semicolon")
    requires !ContainsCI(RStripChar(query, ';') + ";", "apoc")
    ensures
      var r := HeuristicRepairs(query, errorMsg);
      |r| > 0 && r[|r| - 1] == ';' && (|r| == 1 || r[|r| - 2] != ';')
      && r[..|r| - 1] == RStripChar(query, ';') && query[..|r| - 1] == r[..|r| - 1]
  {
    var t := RStripChar(query, ';');
    assert (t + ";")[..|t|] == t;
  }

  /** Without `semicolon` in the message, a query that mentions `apoc`
      loses exactly the `CALL apoc.` spans and keeps the text between them. */
  lemma ApocRepairKeepsGaps(query: string, errorMsg: string)
    requires !ContainsCI(errorMsg, "semicolon") && ContainsCI(query, "apoc")
    ensures HeuristicRepairs(query, errorMsg) == Gaps(query, 0, ApocSpans(query, 0))
  {
    RemoveApocIsGaps(query, 0);
  }

  /** When both repairs fire, the `CALL apoc.` spans are removed from the
      query with its trailing semicolons replaced by one. */
  lemma BothRepairsKeepGaps(query: string, errorMsg: string)
    requires ContainsCI(errorMsg, "semicolon")
    requires ContainsCI(RStripChar(query, ';') + ";", "apoc")
    ensures HeuristicRepairs(query, errorMsg)
      == Gaps(RStripChar(query, ';') + ";", 0, ApocSpans(RStripChar(query, ';') + ";", 0))
  {
  }

  /** The repair never lengthens a query by more than the one semicolon it
      may add. */
  lemma RepairLengthBound(query: string, errorMsg: string)
    ensures |HeuristicRepairs(query, errorMsg)| <= |query| + 1
    ensures !ContainsCI(errorMsg, "semicolon") ==> |HeuristicRepairs(query, errorMsg)| <= |query|
  {
  }
}
