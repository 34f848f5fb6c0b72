/** `CypherSelfRefinement.refine`: post-process, validate, repair, for at
    most `max_attempts` rounds.

    A `SelfRefinement` carries what the loop calls on `self`: the
    validator's `post_process` and its `EXPLAIN` oracle, the class's own
    repair method and `max_attempts`. The two copies of the class differ in
    that method: the top-level copy calls `_apply_heuristic_repairs`, while
    the copy under `utils/` calls `_apply_hexuristic_repairs`, a name the
    class does not define, so its `fallback` is `None` and reaching it raises
    `AttributeError`. `repair_fn` is a parameter (`None` when absent).
 */
module Refinement {
  import opened Wrappers
  import opened Text
  import opened CypherValidator

  /** `post_process`: the rewritten query, or the exception it raised. */
  type PostProcessor = string -> Result<string, PyError>

  /** A repair, `repair_fn(query, error_msg)` or the class's own method. */
  type Repair = (string, string) -> string

  datatype SelfRefinement = SelfRefinement(
    postProcess: PostProcessor,
    explain: Explain,
    fallback: Option<Repair>,
    maxAttempts: int)

  /** The triple `(final_query, is_valid, error_history)`. */
  datatype Refined = Refined(query: string, isValid: bool, history: seq<string>)

  /** The constructor's default for `max_attempts`. */
  const DefaultMaxAttempts: int := 3

  /** The top-level class, whose fallback is the heuristic repair. */
  function TopLevelRefinement(explain: Explain, maxAttempts: int): SelfRefinement {
    SelfRefinement(PostProcess, explain, Some(HeuristicRepairs), maxAttempts)
  }

  /** The `utils/` class, whose fallback name is undefined. */
  function UtilsRefinement(explain: Explain, maxAttempts: int): SelfRefinement {
    SelfRefinement(PostProcess, explain, None, maxAttempts)
  }

  /** What `refine` relies on from `post_process`: a single-spaced result or
      an `IndexError`. */
  ghost predicate Normalizing(post: PostProcessor) {
    forall q :: (post(q).Ok? ==> NoSpaceRuns(post(q).value)) && (post(q).Err? ==> post(q).error == IndexError)
  }

  lemma PostProcessNormalizing()
    ensures Normalizing(PostProcess)
  {
    forall q
      ensures (PostProcess(q).Ok? ==> NoSpaceRuns(PostProcess(q).value))
           && (PostProcess(q).Err? ==> PostProcess(q).error == IndexError)
    {
    }
  }

  /** The head of the history entry `f"Attempt {k}: {error_msg}"`. */
  function AttemptPrefix(k: nat): (p: string)
    ensures |p| >= 11 && p[..8] == "Attempt " && p[|p| - 2..] == ": "
  {
    "Attempt " + NatToString(k) + ": "
  }

  function AttemptEntry(k: nat, msg: string): (e: string)
    ensures |AttemptPrefix(k)| <= |e| && e[..|AttemptPrefix(k)|] == AttemptPrefix(k)
    ensures e[|AttemptPrefix(k)|..] == msg
  {
    AttemptPrefix(k) + msg
  }

  /** Entry `i` of the history reports attempt `i + 1`. */
  predicate Numbered(history: seq<string>) {
    forall i :: 0 <= i < |history| ==>
      |AttemptPrefix(i + 1)| <= |history[i]| && history[i][..|AttemptPrefix(i + 1)|] == AttemptPrefix(i + 1)
  }

  /** Recording one more failed attempt keeps the history numbered. */
  lemma NumberedAppend(history: seq<string>, msg: string)
    requires Numbered(history)
    ensures Numbered(history + [AttemptEntry(|history| + 1, msg)])
  {
    var h := history + [AttemptEntry(|history| + 1, msg)];
    forall i | 0 <= i < |h|
      ensures |AttemptPrefix(i + 1)| <= |h[i]| && h[i][..|AttemptPrefix(i + 1)|] == AttemptPrefix(i + 1)
    {
      if i < |history| { assert h[i] == history[i]; }
    }
  }

  /** What `refine` does from loop iteration `attempt` on, with the query
      `current`, the error history so far and the `processed_query` of the
      previous iteration (`None` before the first, while the name is still
      unbound). */
  function RefineFrom(sr: SelfRefinement, repair: Option<Repair>,
                      attempt: nat, current: string, history: seq<string>,
                      last: Option<string>): (r: Result<Refined, PyError>)
    requires last.Some? ==> sr.explain("EXPLAIN " + last.value).Some?
    ensures r.Ok? ==> (r.value.isValid <==> sr.explain("EXPLAIN " + r.value.query).None?)
    decreases sr.maxAttempts - attempt
  {
    if attempt >= sr.maxAttempts then
      if last.None? then Err(UnboundLocalError) else Ok(Refined(last.value, false, history))
    else
      match sr.postProcess(current)
      case Err(e) => Err(e)
      case Ok(processed) =>
        var v := ValidateSyntax(sr.explain, processed);
        if v.isValid then Ok(Refined(processed, true, history))
        else
          var msg := v.error.value;
          var repairWith := if repair.Some? then repair else sr.fallback;
          match repairWith
          case None => Err(AttributeError)
          case Some(f) =>
            RefineFrom(sr, repair, attempt + 1, f(current, msg),
                       history + [AttemptEntry(attempt + 1, msg)], Some(processed))
  }

  /** The loop state at the top of iteration `attempt`. */
  ghost predicate LoopState(sr: SelfRefinement, attempt: nat, history: seq<string>, last: Option<string>) {
    && |history| == attempt && Numbered(history)
    && (attempt == 0 <==> last.None?)
    && (attempt > 0 ==> attempt <= sr.maxAttempts)
    && (last.Some? ==> NoSpaceRuns(last.value) && sr.explain("EXPLAIN " + last.value).Some?)
  }

  /** One rejected and repaired attempt moves the loop to the next
      iteration with the repaired query and one more history entry. */
  lemma RefineStep(sr: SelfRefinement, repair: Option<Repair>,
                   attempt: nat, current: string, history: seq<string>, last: Option<string>,
                   processed: string, msg: string, f: Repair)
    requires Normalizing(sr.postProcess)
    requires LoopState(sr, attempt, history, last) && attempt < sr.maxAttempts
    requires sr.postProcess(current) == Ok(processed)
    requires sr.explain("EXPLAIN " + processed) == Some(msg)
    requires (if repair.Some? then repair else sr.fallback) == Some(f)
    ensures LoopState(sr, attempt + 1, history + [AttemptEntry(attempt + 1, msg)], Some(processed))
    ensures RefineFrom(sr, repair, attempt, current, history, last)
            == RefineFrom(sr, repair, attempt + 1, f(current, msg),
                          history + [AttemptEntry(attempt + 1, msg)], Some(processed))
  {
    NumberedAppend(history, msg);
  }

  /** Entries `from` on of `history` record, in order, the rejections of
      the queries `qs`: entry `k` is `Attempt {k + 1}: ` followed by the
      message `EXPLAIN` gave for `qs[k - from]`. */
  predicate RecordsRejections(explain: Explain, history: seq<string>, from: nat, qs: seq<string>) {
    forall k :: from <= k < |history| ==>
      && k - from < |qs| && explain("EXPLAIN " + qs[k - from]).Some?
      && history[k] == AttemptEntry(k + 1, explain("EXPLAIN " + qs[k - from]).value)
  }

  /** One more recorded rejection in front. */
  lemma RecordsRejectionsCons(explain: Explain, history: seq<string>, from: nat,
                              q: string, qs: seq<string>)
    requires from < |history| && explain("EXPLAIN " + q).Some?
    requires history[from] == AttemptEntry(from + 1, explain("EXPLAIN " + q).value)
    requires RecordsRejections(explain, history, from + 1, qs)
    ensures RecordsRejections(explain, history, from, [q] + qs)
  {
    var all := [q] + qs;
    forall k | from <= k < |history|
      ensures k - from < |all| && explain("EXPLAIN " + all[k - from]).Some?
      ensures history[k] == AttemptEntry(k + 1, explain("EXPLAIN " + all[k - from]).value)
    {
      if k > from {
        var entry := history[k];
        assert all[k - from] == qs[k - (from + 1)];
      } else {
        assert all[k - from] == q;
      }
    }
  }

  /** What the loop promises from any iteration on: the history only grows
      and stays numbered, it ends shorter than `max_attempts` exactly when a
      query was accepted, and the only exceptions are the ones the source
      can raise. */
  lemma {:induction false} RefineFromFacts(sr: SelfRefinement, repair: Option<Repair>,
                                           attempt: nat, current: string, history: seq<string>,
                                           last: Option<string>)
    requires Normalizing(sr.postProcess)
    requires LoopState(sr, attempt, history, last)
    ensures var r := RefineFrom(sr, repair, attempt, current, history, last);
      && (r == Err(UnboundLocalError) <==> sr.maxAttempts <= 0)
      && (r == Err(AttributeError) ==> repair.None? && sr.fallback.None?)
      && (r.Err? ==> r.error != UnboundLocalError ==> r.error != AttributeError ==> r.error == IndexError)
      && (r.Ok? ==> history <= r.value.history && Numbered(r.value.history) && NoSpaceRuns(r.value.query))
      && (r.Ok? ==> (r.value.isValid <==> |r.value.history| < sr.maxAttempts))
      && (r.Ok? && !r.value.isValid ==> |r.value.history| == sr.maxAttempts)
    decreases sr.maxAttempts - attempt
  {
    if attempt < sr.maxAttempts {
      match sr.postProcess(current)
      case Err(_) =>
      case Ok(processed) =>
        var v := ValidateSyntax(sr.explain, processed);
        var repairWith := if repair.Some? then repair else sr.fallback;
        if !v.isValid && repairWith.Some? {
          var msg := v.error.value;
          RefineStep(sr, repair, attempt, current, history, last, processed, msg, repairWith.value);
          RefineFromFacts(sr, repair, attempt + 1, repairWith.value(current, msg),
                          history + [AttemptEntry(attempt + 1, msg)], Some(processed));
        }
    }
  }

  /** `refine(query, repair_fn)` from the start. */
  function RefineSpec(sr: SelfRefinement, repair: Option<Repair>,
                      query: string): (r: Result<Refined, PyError>)
    requires Normalizing(sr.postProcess)
    ensures r == Err(UnboundLocalError) <==> sr.maxAttempts <= 0
    ensures r.Ok? ==> Numbered(r.value.history) && NoSpaceRuns(r.value.query)
    ensures r.Ok? ==> (r.value.isValid <==> |r.value.history| < sr.maxAttempts)
    ensures r.Ok? ==> (r.value.isValid <==> sr.explain("EXPLAIN " + r.value.query).None?)
    ensures r == Err(AttributeError) ==> repair.None? && sr.fallback.None?
    ensures r.Ok? ==>
      && |Submitted(sr, repair, 0, query)| > 0
      && r.value.query == Submitted(sr, repair, 0, query)[|Submitted(sr, repair, 0, query)| - 1]
    ensures r.Ok? ==> RecordsRejections(sr.explain, r.value.history, 0, Submitted(sr, repair, 0, query))
  {
    RefineFromFacts(sr, repair, 0, query, [], None);
    RefineFromReturnsLast(sr, repair, 0, query, [], None);
    RefineFromRecords(sr, repair, 0, query, [], None);
    RefineFrom(sr, repair, 0, query, [], None)
  }

  /** The loop of `refine` as written: one iteration per attempt, returning
      early on a valid query or an exception. */
  method Refine(sr: SelfRefinement, repair: Option<Repair>, query: string)
    returns (r: Result<Refined, PyError>)
    requires Normalizing(sr.postProcess)
    ensures r == RefineSpec(sr, repair, query)
  {
    var current := query;
    var history: seq<string> := [];
    var processed: Option<string> := None;
    var attempt: nat := 0;
    ghost var spec := RefineSpec(sr, repair, query);
    while attempt < sr.maxAttempts
      invariant LoopState(sr, attempt, history, processed)
      invariant spec == RefineFrom(sr, repair, attempt, current, history, processed)
      decreases sr.maxAttempts - attempt
    {
      var post := sr.postProcess(current);
      if post.Err? {
        return Err(post.error);
      }
      var v := ValidateSyntax(sr.explain, post.value);
      if v.isValid {
        return Ok(Refined(post.value, true, history));
      }
      var msg := v.error.value;
      var repairWith := if repair.Some? then repair else sr.fallback;
      if repairWith.None? {
        return Err(AttributeError);
      }
      RefineStep(sr, repair, attempt, current, history, processed, post.value, msg, repairWith.value);
      history := history + [AttemptEntry(attempt + 1, msg)];
      current := repairWith.value(current, msg);
      processed := Some(post.value);
      attempt := attempt + 1;
    }
    if processed.None? {
      return Err(UnboundLocalError);
    }
    return Ok(Refined(processed.value, false, history));
  }

  /** A query that post-processes to an accepted statement is returned on
      the first attempt with an empty history, whatever the repair. */
  lemma FirstAttemptAccepted(sr: SelfRefinement, repair: Option<Repair>, query: string)
    requires Normalizing(sr.postProcess) && sr.maxAttempts >= 1
    requires sr.postProcess(query).Ok? && sr.explain("EXPLAIN " + sr.postProcess(query).value).None?
    ensures RefineSpec(sr, repair, query) == Ok(Refined(sr.postProcess(query).value, true, []))
  {
  }

  /** Once a `repair_fn` is given the class's own repair method is never
      called: the loop runs the same with any fallback. */
  lemma {:induction false} FallbackIrrelevantFrom(sr: SelfRefinement, fallback: Option<Repair>,
                                                  f: Repair, attempt: nat,
                                                  current: string, history: seq<string>, last: Option<string>)
    requires last.Some? ==> sr.explain("EXPLAIN " + last.value).Some?
    ensures RefineFrom(sr, Some(f), attempt, current, history, last)
            == RefineFrom(sr.(fallback := fallback), Some(f), attempt, current, history, last)
    decreases sr.maxAttempts - attempt
  {
    if attempt < sr.maxAttempts {
      match sr.postProcess(current)
      case Err(_) =>
      case Ok(processed) =>
        var v := ValidateSyntax(sr.explain, processed);
        if !v.isValid {
          var msg := v.error.value;
          FallbackIrrelevantFrom(sr, fallback, f, attempt + 1, f(current, msg),
                                 history + [AttemptEntry(attempt + 1, msg)], Some(processed));
        }
    }
  }

  /** With a `repair_fn` the two copies of the class behave identically. */
  lemma CopiesAgreeWithRepair(explain: Explain, maxAttempts: int,
                              f: Repair, query: string)
    ensures Normalizing(PostProcess)
    ensures RefineSpec(TopLevelRefinement(explain, maxAttempts), Some(f), query)
            == RefineSpec(UtilsRefinement(explain, maxAttempts), Some(f), query)
  {
    PostProcessNormalizing();
    FallbackIrrelevantFrom(TopLevelRefinement(explain, maxAttempts), None, f, 0, query, [], None);
  }

  /** The top-level copy never raises `AttributeError`. */
  lemma TopLevelNeverMissesRepair(explain: Explain, maxAttempts: int,
                                  repair: Option<Repair>, query: string)
    ensures Normalizing(PostProcess)
    ensures RefineSpec(TopLevelRefinement(explain, maxAttempts), repair, query) != Err(AttributeError)
  {
    PostProcessNormalizing();
  }

  /** Without a `repair_fn` the `utils/` copy gets one attempt: it accepts
      the first post-processed query, or raises `AttributeError` when the
      database rejects it, or passes on the `IndexError` of post-processing. */
  lemma UtilsWithoutRepairSingleAttempt(explain: Explain, maxAttempts: int, query: string)
    requires maxAttempts >= 1
    ensures Normalizing(PostProcess)
    ensures var r := RefineSpec(UtilsRefinement(explain, maxAttempts), None, query);
      && (PostProcess(query).Err? ==> r == Err(IndexError))
      && (PostProcess(query).Ok? && explain("EXPLAIN " + PostProcess(query).value).None? ==>
            r == Ok(Refined(PostProcess(query).value, true, [])))
      && (PostProcess(query).Ok? && explain("EXPLAIN " + PostProcess(query).value).Some? ==>
            r == Err(AttributeError))
  {
    PostProcessNormalizing();
    WithoutRepairSingleAttempt(UtilsRefinement(explain, maxAttempts), query);
  }

  /** Without any repair the loop runs at most one iteration. */
  lemma WithoutRepairSingleAttempt(sr: SelfRefinement, query: string)
    requires Normalizing(sr.postProcess) && sr.fallback.None? && sr.maxAttempts >= 1
    ensures var r := RefineSpec(sr, None, query);
      && (sr.postProcess(query).Err? ==> r == Err(sr.postProcess(query).error))
      && (sr.postProcess(query).Ok? && sr.explain("EXPLAIN " + sr.postProcess(query).value).None? ==>
            r == Ok(Refined(sr.postProcess(query).value, true, [])))
      && (sr.postProcess(query).Ok? && sr.explain("EXPLAIN " + sr.postProcess(query).value).Some? ==>
            r == Err(AttributeError))
  {
    assert RefineSpec(sr, None, query) == RefineFrom(sr, None, 0, query, [], None);
  }

  /** With the default bound at most three errors are recorded, and exactly
      three when no query was accepted. */
  lemma DefaultBoundsHistory(explain: Explain, repair: Option<Repair>,
                             query: string)
    ensures Normalizing(PostProcess)
    ensures var r := RefineSpec(TopLevelRefinement(explain, DefaultMaxAttempts), repair, query);
      (r.Ok? && |r.value.history| <= 3 && (!r.value.isValid ==> |r.value.history| == 3))
        || r == Err(IndexError)
  {
    PostProcessNormalizing();
    RefineFromFacts(TopLevelRefinement(explain, DefaultMaxAttempts), repair, 0, query, [], None);
  }

  /** The queries `refine` hands to `validate_syntax`, in order, from
      iteration `attempt` on. */
  function Submitted(sr: SelfRefinement, repair: Option<Repair>,
                     attempt: nat, current: string): (qs: seq<string>)
    ensures |qs| <= (if attempt < sr.maxAttempts then sr.maxAttempts - attempt else 0)
    decreases sr.maxAttempts - attempt
  {
    if attempt >= sr.maxAttempts then []
    else
      match sr.postProcess(current)
      case Err(_) => []
      case Ok(processed) =>
        match sr.explain("EXPLAIN " + processed)
        case None => [processed]
        case Some(msg) =>
          var repairWith := if repair.Some? then repair else sr.fallback;
          match repairWith
          case None => [processed]
          case Some(f) => [processed] + Submitted(sr, repair, attempt + 1, f(current, msg))
  }

  /** Every validation but an accepting one records an error: a returned
      result has made one validation per history entry, plus the accepting
      one when the query is valid. */
  lemma {:induction false} SubmittedMatchesHistory(sr: SelfRefinement, repair: Option<Repair>,
                                                   attempt: nat, current: string, history: seq<string>,
                                                   last: Option<string>)
    requires Normalizing(sr.postProcess)
    requires LoopState(sr, attempt, history, last)
    ensures var r := RefineFrom(sr, repair, attempt, current, history, last);
      r.Ok? ==> |history| + |Submitted(sr, repair, attempt, current)|
                == |r.value.history| + (if r.value.isValid then 1 else 0)
    decreases sr.maxAttempts - attempt
  {
    if attempt < sr.maxAttempts {
      match sr.postProcess(current)
      case Err(_) =>
      case Ok(processed) =>
        var v := ValidateSyntax(sr.explain, processed);
        var repairWith := if repair.Some? then repair else sr.fallback;
        if !v.isValid && repairWith.Some? {
          var msg := v.error.value;
          RefineStep(sr, repair, attempt, current, history, last, processed, msg, repairWith.value);
          SubmittedMatchesHistory(sr, repair, attempt + 1, repairWith.value(current, msg),
                                  history + [AttemptEntry(attempt + 1, msg)], Some(processed));
        }
    }
  }

  /** A result that returns the last of `rest`, or `processed` when `rest`
      is empty, returns the last of `[processed] + rest`. */
  lemma ReturnsLastStep(r: Result<Refined, PyError>, last: Option<string>,
                        processed: string, rest: seq<string>)
    requires r.Ok? ==>
      if |rest| == 0 then Some(processed) == Some(r.value.query) else r.value.query == rest[|rest| - 1]
    ensures var qs := [processed] + rest;
      r.Ok? ==> if |qs| == 0 then last == Some(r.value.query) else r.value.query == qs[|qs| - 1]
  {
    var qs := [processed] + rest;
    if |rest| > 0 {
      assert qs[|qs| - 1] == rest[|rest| - 1];
    }
  }

  /** The query returned from iteration `attempt` on is the last one
      validated there, or, when none is validated any more, the previous
      iteration's. */
  lemma {:induction false} RefineFromReturnsLast(sr: SelfRefinement, repair: Option<Repair>,
                                                 attempt: nat, current: string, history: seq<string>,
                                                 last: Option<string>)
    requires Normalizing(sr.postProcess)
    requires LoopState(sr, attempt, history, last)
    ensures var r := RefineFrom(sr, repair, attempt, current, history, last);
      var qs := Submitted(sr, repair, attempt, current);
      r.Ok? ==> if |qs| == 0 then last == Some(r.value.query) else r.value.query == qs[|qs| - 1]
    decreases sr.maxAttempts - attempt
  {
    if attempt < sr.maxAttempts {
      match sr.postProcess(current)
      case Err(_) =>
      case Ok(processed) =>
        match sr.explain("EXPLAIN " + processed)
        case None =>
        case Some(msg) =>
          var repairWith := if repair.Some? then repair else sr.fallback;
          match repairWith
          case None =>
          case Some(f) =>
            var next := history + [AttemptEntry(attempt + 1, msg)];
            RefineStep(sr, repair, attempt, current, history, last, processed, msg, f);
            RefineFromReturnsLast(sr, repair, attempt + 1, f(current, msg), next, Some(processed));
            ReturnsLastStep(RefineFrom(sr, repair, attempt + 1, f(current, msg), next, Some(processed)),
                            last, processed, Submitted(sr, repair, attempt + 1, f(current, msg)));
    }
  }

  /** A result whose history extends `hist` by the entry for `processed`
      and records the rejections of `rest` after it records the rejection
      of `processed` in front of them. */
  lemma RecordsStep(explain: Explain, r: Result<Refined, PyError>, hist: seq<string>,
                    processed: string, msg: string, rest: seq<string>)
    requires explain("EXPLAIN " + processed) == Some(msg)
    requires r.Ok? ==> hist + [AttemptEntry(|hist| + 1, msg)] <= r.value.history
    requires r.Ok? ==> RecordsRejections(explain, r.value.history, |hist| + 1, rest)
    ensures r.Ok? ==> RecordsRejections(explain, r.value.history, |hist|, [processed] + rest)
  {
    if r.Ok? {
      var next := hist + [AttemptEntry(|hist| + 1, msg)];
      assert r.value.history[|hist|] == next[|hist|];
      RecordsRejectionsCons(explain, r.value.history, |hist|, processed, rest);
    }
  }

  /** Each history entry added from iteration `attempt` on carries the
      message `EXPLAIN` gave for one rejected query, in the order the
      queries were validated. */
  lemma {:induction false} RefineFromRecords(sr: SelfRefinement, repair: Option<Repair>,
                                             attempt: nat, current: string, history: seq<string>,
                                             last: Option<string>)
    requires Normalizing(sr.postProcess)
    requires LoopState(sr, attempt, history, last)
    ensures var r := RefineFrom(sr, repair, attempt, current, history, last);
      r.Ok? ==> RecordsRejections(sr.explain, r.value.history, |history|, Submitted(sr, repair, attempt, current))
    decreases sr.maxAttempts - attempt
  {
    if attempt < sr.maxAttempts {
      match sr.postProcess(current)
      case Err(_) =>
      case Ok(processed) =>
        var v := ValidateSyntax(sr.explain, processed);
        var repairWith := if repair.Some? then repair else sr.fallback;
        if !v.isValid && repairWith.Some? {
          var msg := v.error.value;
          var f := repairWith.value;
          var next := history + [AttemptEntry(attempt + 1, msg)];
          RefineStep(sr, repair, attempt, current, history, last, processed, msg, f);
          RefineFromFacts(sr, repair, attempt + 1, f(current, msg), next, Some(processed));
          RefineFromRecords(sr, repair, attempt + 1, f(current, msg), next, Some(processed));
          var r := RefineFrom(sr, repair, attempt + 1, f(current, msg), next, Some(processed));
          var rest := Submitted(sr, repair, attempt + 1, f(current, msg));
          assert Submitted(sr, repair, attempt, current) == [processed] + rest;
          RecordsStep(sr.explain, r, history, processed, msg, rest);
        }
    }
  }

  /** `refine` validates at most `max_attempts` queries; a first-attempt
      success validates exactly one. */
  lemma ValidationCount(sr: SelfRefinement, repair: Option<Repair>, query: string)
    requires Normalizing(sr.postProcess)
    ensures var r := RefineSpec(sr, repair, query);
      && |Submitted(sr, repair, 0, query)| <= (if sr.maxAttempts > 0 then sr.maxAttempts else 0)
      && (r.Ok? ==> |Submitted(sr, repair, 0, query)| == |r.value.history| + (if r.value.isValid then 1 else 0))
      && (r.Ok? && r.value.history == [] ==> |Submitted(sr, repair, 0, query)| == 1)
  {
    SubmittedMatchesHistory(sr, repair, 0, query, [], None);
    RefineFromFacts(sr, repair, 0, query, [], None);
  }

  /** The repair is applied to the candidate as it was before
      post-processing: after a rejected first query, the second query
      validated is the post-processed repair of the raw input. */
  lemma RepairSeesRawCandidate(sr: SelfRefinement, f: Repair, query: string,
                               msg: string)
    requires sr.maxAttempts >= 2
    requires sr.postProcess(query).Ok?
    requires sr.explain("EXPLAIN " + sr.postProcess(query).value) == Some(msg)
    requires sr.postProcess(f(query, msg)).Ok?
    ensures var qs := Submitted(sr, Some(f), 0, query);
      && |qs| >= 2
      && qs[0] == sr.postProcess(query).value
      && qs[1] == sr.postProcess(f(query, msg)).value
  {
  }
}
