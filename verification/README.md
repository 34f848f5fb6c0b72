# GraphRAG pipeline helpers in Dafny

This project models three small components of the GraphRAG text-to-Cypher
pipeline and proves properties of the model. Each component exists twice in
the repository, once at the top level and once under `utils/`.

- **`Text2CypherCache`** is a least-recently-used cache of pipeline results.
  Its key is derived from the question and the key-sorted JSON of the graph
  schema. It has a bounded capacity, evicts the least recently used entry,
  and counts hits and misses. The two copies are the same code, and one
  module models both.
- **`CypherQueryValidator` and `CypherSelfRefinement`** are the
  `EXPLAIN` dry-run check, the `post_process` text pipeline (strip,
  comparison rewrite, RETURN-projection check, whitespace collapse,
  `to_lower(` → `lower(`), the heuristic repairs, and the bounded
  post-process/validate/repair loop `refine`.
  - The text passes of the two copies are the same code.
  - `refine` differs between them. The `utils/` copy calls the undefined
    `_apply_hexuristic_repairs`, so without a `repair_fn` it raises
    `AttributeError` at the first rejected query. `Refinement.SelfRefinement`
    carries that difference as its `fallback` field.
- **`PerformanceTracker` and `create_text_visualization`** cover:
  - per-stage sample histories, the latest run, and the stage stack;
  - the `utils/` copy's optional memory deltas;
  - statistics, the percentage breakdown, the flamegraph lines, and the text
    bar chart.

Python exceptions are values: `Wrappers.Result` with a `PyError`
(`IndexError`, `AttributeError`, `UnboundLocalError`, `ValueError`). The
database connection and `repair_fn` are function-typed parameters:
- `explain` answers `None` when `EXPLAIN <query>` is accepted, or
  `Some(str(e))` when it is rejected.
- `repair_fn` is `Option<(string, string) -> string>`.

The SHA-256 digest and the JSON serialiser are parameters too
(`CacheKey.Hashing`). Clock readings and `psutil` memory readings are inputs
(`start`, `end`, `memoryDelta`). Durations are exact `real`s.

Modules, in dependency order:
- `Wrappers`, `Text` (Python string operations), `OrderedMap` (insertion-ordered `dict`)
- `CacheKey`, `Text2CypherCache`
- `Comparisons`, `ReturnProjection`, `CypherValidator`, `Refinement`
- `Statistics`, `StableSort`, `PerformanceTracker`, `TimingBreakdown`, `TextVisualization`

## Model

| member | source | states |
|---|---|---|
| `CacheKey.Canon` | text2cypher_cache.py:38 | `json.dumps(..., sort_keys=True)` sees an object as a map: its keys are exactly the field names, and each name maps to the last field of that name. |
| `CacheKey.GenerateKey` | text2cypher_cache.py:27-40 | The key is the first 16 characters of the question's digest, then `_`, then the first 16 characters of the digest of the key-sorted schema. It is exactly 33 characters long when both digests have at least 16 characters, and never longer. |
| `CacheKey.CanonIgnoresFieldOrder` | text2cypher_cache.py:38 | Two objects with the same field names and equal same-named values serialise alike, whatever their field order, repeated names included. |
| `CacheKey.LastByName` | text2cypher_cache.py:38 | The serialised object has exactly the field names as keys, and each name carries the value of its last field, as a later key overrides an earlier one in a dict. |
| `CacheKey.KeyIgnoresFieldOrder` | text2cypher_cache.py:37-40 | The key depends only on the question and the key-sorted schema: reordering a schema's fields never changes it. |
| `CacheKey.SchemaFieldOrderExample` | utils/text2cypher_cache.py:18-22 | In the `utils/` copy's key derivation, a `{nodes, edges}` schema and its `{edges, nodes}` reordering give the same key. |
| `CacheKey.EqualKeysShareQuestionPrefix` | text2cypher_cache.py:37-40 | Equal keys force the first 16 characters of the two question digests to agree, so different questions share a key only through a digest collision. |
| `Text2CypherCache.New` | text2cypher_cache.py:16-25 | A new cache is valid and empty, with both counters at 0. |
| `Text2CypherCache.MoveToEnd` | text2cypher_cache.py:56 | `move_to_end` puts the entry last and keeps the relative order of all the others. |
| `Text2CypherCache.GetByKey` | text2cypher_cache.py:52-59 | A hit adds 1 to `hits`, returns the stored value and moves the entry to the most recent end. A miss adds 1 to `misses`, returns `None` and changes nothing else. |
| `Text2CypherCache.SetByKey` | text2cypher_cache.py:69-80 | `set` never changes the counters or `max_size`. It grows the store by at most one entry and leaves the new pair as the most recent entry. |
| `Text2CypherCache.Get` | utils/text2cypher_cache.py:24-31 | Through the question/schema interface, `get` hits exactly when the derived key is present, with the counter updates above. |
| `Text2CypherCache.Set` | utils/text2cypher_cache.py:33-42 | Through the question/schema interface, `set` keeps the counters and keeps a valid cache valid. |
| `Text2CypherCache.Clear` | text2cypher_cache.py:82-86 | `clear` empties the store, zeroes both counters and keeps `max_size`. |
| `Text2CypherCache.Len` | text2cypher_cache.py:104-106 | `len` is at most the capacity of a valid cache, and 0 exactly when the store is empty. |
| `Text2CypherCache.Stats` | text2cypher_cache.py:88-102 | `get_stats` reports size, `max_size` and both counters. Its `hit_rate` is 0 with no requests, otherwise hits/(hits+misses), and always in [0, 1]. |
| `Text2CypherCache.SetPreservesValid` | text2cypher_cache.py:69-80 | After a `set`, keys stay distinct and the size stays within `max_size` (within 0 when `max_size` is negative). |
| `Text2CypherCache.GetPreservesValid` | text2cypher_cache.py:52-57 | A `get` keeps keys distinct and the size unchanged. |
| `Text2CypherCache.SetExistingKey` | text2cypher_cache.py:71-75 | `set` of a present key replaces its value, moves it to the end, keeps the other entries in order and keeps the size. |
| `Text2CypherCache.SetOverflowEvictsFirst` | text2cypher_cache.py:77-80 | `set` of a new key into a full cache evicts exactly the first, least recently used, entry. |
| `Text2CypherCache.SetBelowCapacityAppends` | utils/text2cypher_cache.py:39-42 | `set` of a new key below capacity appends it and evicts nothing. |
| `Text2CypherCache.GetAfterSet` | text2cypher_cache.py:52-80 | With `max_size >= 1`, a `get` right after a `set` of the same key returns the stored value and counts one hit. |
| `Text2CypherCache.GetAfterSetQuestion` | utils/text2cypher_cache.py:24-42 | The same through question and schema: setting then getting the same pair returns the value and counts a hit. |
| `Text2CypherCache.LeastRecentlyUsedScenario` | text2cypher_cache.py:52-80 | With room for two, set A, set B, get A, then set C evicts B and leaves A then C, with one hit and no miss. |
| `Text2CypherCache.ReplayPreservesValid` | text2cypher_cache.py:42-86 | No sequence of `get`, `set` and `clear` takes a cache past its capacity or duplicates a key. |
| `Text2CypherCache.CountersCountGets` | utils/text2cypher_cache.py:24-42 | Without a `clear`, hits plus misses grow by exactly the number of `get` calls, and neither counter ever decreases. |
| `Text.Strip` | cypher_validator.py:54 | `strip()` returns a contiguous piece of its input that has only whitespace before and after it there, and no whitespace at either of its own ends. |
| `Text.RStripChar` | cypher_validator.py:208 | `rstrip(';')` removes exactly the trailing run of `;` and keeps the prefix before it. |
| `Text.Collapse` | cypher_validator.py:63 | `re.sub(r'\s+', ' ', s)` leaves no two adjacent whitespace characters and keeps every non-whitespace character in order. Text without whitespace is unchanged, and non-empty all-whitespace text becomes one space. |
| `Text.CollapseConcat` | cypher_validator.py:63 | The substitution works run by run: text cut at a point that does not split a whitespace run collapses to the two collapsed parts, joined. |
| `Text.ReplaceAll` | cypher_validator.py:66 | `replace` changes nothing when the pattern does not occur. |
| `Text.ReplaceAllAtFirst` | cypher_validator.py:66 | `replace` keeps the text before the first occurrence, writes the replacement for it, and carries on after the occurrence. |
| `Text.ReplaceAllKeepsNoSpaceRuns` | utils/cypher_validator.py:31-33 | Replacing a whitespace-free pattern by whitespace-free text after the collapse keeps the text free of whitespace runs. |
| `Text.NatToString` | cypher_validator.py:181 | `str(n)` for a non-negative `n` is decimal digits with no leading zero that read back as `n`. |
| `Text.IntToString` | performance_benchmark.py:142-144 | `str(i)` starts with `-` exactly when `i < 0`, continues with decimal digits, and reads back as `i`. |
| `Text.ReplaceFirst` | cypher_validator.py:103 | `replace(original, new, 1)` rewrites only the first occurrence, and nothing when there is none. |
| `Text.SplitOn` | performance_benchmark.py:146 | Splitting at a character gives pieces without that character that join back to the text. |
| `Text.SplitJoin` | performance_benchmark.py:146 | Joining at least one piece free of the separator with `"\n"`, then splitting, gives the pieces back. |
| `Text.JoinInjective` | utils/performance_benchmark.py:124 | Two lists of separator-free pieces that join to the same text are equal. |
| `Comparisons.MatchEqualsAt` | cypher_validator.py:89 | An equality match at a position spans the property group and lies inside the text. A text without `.` or `'` has none. |
| `Comparisons.EqualsMatchSound` | cypher_validator.py:89 | Every equality match is `\w+\.\w+`, optional whitespace, `=`, optional whitespace and a quoted literal without `'`, with the groups in place. |
| `Comparisons.EqualsMatchComplete` | utils/cypher_validator.py:39 | Every text of that shape is matched where it starts, with exactly those groups. |
| `Comparisons.MatchContainsAt` | cypher_validator.py:91 | A CONTAINS match is never preceded by `lower(` in any case, which is the look-behind. |
| `Comparisons.ContainsMatchSound` | cypher_validator.py:91 | Every CONTAINS match is a property, whitespace, `CONTAINS` in any case, whitespace and a quoted literal. |
| `Comparisons.ContainsMatchComplete` | utils/cypher_validator.py:40 | Every such text not preceded by `lower(` is matched, with exactly those groups. |
| `Comparisons.MatchesFrom` | cypher_validator.py:97 | `finditer` returns matches in order without overlap, each a match at its start, and skips none (`Gapless`): no match starts before the first, between two consecutive matches, or after the last. |
| `Comparisons.MatchesFromGaps` | cypher_validator.py:97 | No match starts between the end of one match and the start of the next, or after the end of the last. |
| `Comparisons.ApplyMatches` | cypher_validator.py:98-103 | With no matches left, the loop returns the text as it stands. |
| `Comparisons.EnforceLowercaseComparisons` | cypher_validator.py:70-105 | A query without `'` or without `.` comes back unchanged. |
| `Comparisons.NoMatchWithoutQuoteOrDot` | utils/cypher_validator.py:37-52 | In the `utils/` copy too, a pass over text lacking `'` or `.` changes nothing. |
| `Comparisons.ApplySkipsAll` | cypher_validator.py:101 | When `lower` occurs in the 20 characters before every match, the loop rewrites nothing. |
| `Comparisons.LookbackHasLower` | cypher_validator.py:101 | The skip test holds exactly when some `lower`, in any letter case, lies wholly inside the (at most) 20 characters before the match start. |
| `Comparisons.SkippedWhenLowerNearby` | utils/cypher_validator.py:48 | A pass whose every match has `lower` just before it returns its input. |
| `Comparisons.RewriteNotRematched` | cypher_validator.py:89-91 | A rewritten `lower(x.y) CONTAINS '...'` is matched by neither pattern at its property. |
| `Comparisons.Rewrite` | cypher_validator.py:89-91 | The replacement `lower(\1) CONTAINS '\2'` puts the property after `lower(` and the literal between `CONTAINS '` and a closing quote, so each group is found at a fixed place in the result. |
| `Comparisons.RewriteKeepsGroups` | cypher_validator.py:89-91 | Two rewrites are equal only when their properties and literals are, as long as no property holds `)`: the rewrite loses neither group. |
| `Comparisons.EqualsMatchesExample` | utils/cypher_validator.py:39 | `n.name = 'Marie Curie'` is exactly one equality match, with groups `n.name` and `Marie Curie`. |
| `Comparisons.EqualsPassExample` | cypher_validator.py:89 | The equality pass turns `n.name = 'Marie Curie'` into `lower(n.name) CONTAINS 'Marie Curie'`. |
| `ReturnProjection.ClauseAt` | cypher_validator.py:121 | The RETURN pattern matches at a position only at a whole-word `RETURN`. Group 1 is non-empty and ends at `ORDER BY`, `LIMIT` or the end, with no newline before it. |
| `ReturnProjection.SearchFrom` | cypher_validator.py:121 | `re.search` finds the leftmost position where the pattern matches, or reports that none does. |
| `ReturnProjection.ReturnGroup` | utils/cypher_validator.py:55-59 | A RETURN group is non-empty and holds no newline. |
| `ReturnProjection.Items` | cypher_validator.py:129 | Splitting the clause at commas gives at least one item, and no item contains a comma. |
| `ReturnProjection.FirstToken` | cypher_validator.py:134 | `item.split()[0]` is absent exactly for a blank item, and is otherwise a non-empty run without whitespace. |
| `ReturnProjection.ScanItems` | cypher_validator.py:132-137 | The item loop fails only with `IndexError`. |
| `ReturnProjection.ScanRaisesIffBlankReached` | utils/cypher_validator.py:63-65 | The loop raises exactly when it reaches a blank item before any item that starts with an identifier, and it breaks exactly at the first such item. |
| `ReturnProjection.FixReturnProjection` | cypher_validator.py:107-141 | `_fix_return_projection` returns the query unchanged or raises `IndexError`, and it raises exactly when the item loop does. |
| `ReturnProjection.FixRaisesIffBlankReached` | utils/cypher_validator.py:54-67 | The step raises exactly when the query has a RETURN clause whose scan reaches an empty item. |
| `ReturnProjection.BlankItemIsEmpty` | cypher_validator.py:129 | An item is blank exactly when it is empty, because items are stripped. |
| `ReturnProjection.BlankAfterPropertyRaises` | cypher_validator.py:134 | The items `n.x, , m` raise `IndexError`. |
| `ReturnProjection.IdentifierBeforeBlankBreaks` | cypher_validator.py:132-137 | The items `n, , m` break at `n` before reaching the blank item. |
| `CypherValidator.ValidateSyntax` | cypher_validator.py:22-37 | The result is valid exactly when `EXPLAIN <query>` is accepted, with no message. Otherwise the message is the connection's error text. It never raises. The `utils/` copy at lines 16-22 is the same code. |
| `CypherValidator.PostProcess` | cypher_validator.py:39-68 | `post_process` either raises `IndexError` from the projection step or returns text without whitespace runs. The `utils/` copy at lines 24-35 is the same pipeline. |
| `CypherValidator.Prepared` | cypher_validator.py:54-63 | The steps before the rename already leave no whitespace runs. |
| `CypherValidator.PostProcessOnlyCollapsesSpaces` | utils/cypher_validator.py:24-35 | When no `to_lower(` is left after the collapse, the output keeps every non-whitespace character of the rewritten query, in order. |
| `CypherValidator.PlainQueryOnlyCollapses` | cypher_validator.py:54-63 | A query without quotes and without a RETURN clause is only stripped and collapsed before the rename. |
| `CypherValidator.RenameCanLeaveToLower` | cypher_validator.py:66 | The single-pass rename turns `to_to_lower(` into `to_lower(`, so the output can still contain `to_lower(`. |
| `CypherValidator.ApocCallAt` | cypher_validator.py:213 | A `CALL apoc.` match starts with that text in any case and runs to the next whitespace or the end. |
| `CypherValidator.ApocSpans` | cypher_validator.py:213 | The spans `re.sub` removes are ordered, disjoint and each a match, with no match before the first. |
| `CypherValidator.RemoveApocFrom` | cypher_validator.py:213 | Removal never lengthens the text, and changes nothing without a match. |
| `CypherValidator.RemoveApocIsGaps` | utils/cypher_validator.py:103 | Removal keeps exactly the text between the leftmost-first match spans. |
| `CypherValidator.HeuristicRepairs` | cypher_validator.py:193-215 | Without `semicolon` in the message and `apoc` in the query (any case), the query is returned unchanged. |
| `CypherValidator.SemicolonRepairEndsWithOne` | cypher_validator.py:207-208 | With `semicolon` in the message and no `apoc`, the repair ends the query in exactly one `;` and keeps the text before its trailing `;`s. |
| `CypherValidator.ApocRepairKeepsGaps` | cypher_validator.py:211-213 | With `apoc` in the query and no `semicolon` in the message, the repair removes exactly the `CALL apoc.` spans. |
| `CypherValidator.RemoveApocCalls` | cypher_validator.py:213 | `re.sub` removes exactly the case-insensitive `CALL apoc.` spans and keeps the text between them; without a span the text is unchanged and it never grows. |
| `CypherValidator.BothRepairsKeepGaps` | cypher_validator.py:207-213 | When both repairs fire, the `CALL apoc.` spans are removed from the query whose trailing `;` were replaced by one. |
| `CypherValidator.RepairLengthBound` | utils/cypher_validator.py:96-105 | The repair adds at most one character, and none without `semicolon` in the message. |
| `Refinement.PostProcessNormalizing` | cypher_validator.py:172 | The validator's `post_process` gives what the loop relies on: single-spaced text or `IndexError`. |
| `Refinement.AttemptPrefix` | cypher_validator.py:181 | The prefix of a history entry starts with `Attempt ` and ends with `: `, with the attempt number between. |
| `Refinement.AttemptEntry` | utils/cypher_validator.py:87 | A history entry is the attempt prefix followed by the error message verbatim. |
| `Refinement.NumberedAppend` | cypher_validator.py:181 | Appending the entry for the next attempt keeps entry `i` reporting attempt `i + 1`. |
| `Refinement.RefineFrom` | cypher_validator.py:170-191 | A returned query is valid exactly when the database accepts it. |
| `Refinement.RefineStep` | cypher_validator.py:180-188 | A rejected, repaired attempt moves the loop on with `repair_fn(current_query, msg)` (or the fallback) and one more history entry. |
| `Refinement.RefineFromFacts` | cypher_validator.py:167-191 | `UnboundLocalError` happens exactly when `max_attempts <= 0`. `AttributeError` happens only with neither `repair_fn` nor fallback; any other error is `IndexError`. A result's history is numbered, and the result is valid exactly when fewer than `max_attempts` errors were recorded. |
| `Refinement.RefineSpec` | cypher_validator.py:157-191 | `refine` from the start. A result is valid exactly when accepted and exactly when its history is shorter than `max_attempts`. Its query is single-spaced and is the last query validated. History entry `k` is `Attempt {k+1}: ` followed by the message `EXPLAIN` gave for the `k`-th validated query. |
| `Refinement.RefineFromReturnsLast` | cypher_validator.py:172-191 | The returned query is the last one validated or, when no query is validated any more, the previous iteration's `processed_query`. |
| `Refinement.RefineFromRecords` | cypher_validator.py:175-181 | Each history entry added from an iteration on is `Attempt {k+1}: ` followed by the error message of the `k`-th validated query, in the order the queries were validated. |
| `Refinement.Refine` | utils/cypher_validator.py:75-94 | The loop as written, with early returns and the unbound `processed_query`, computes `RefineSpec`. |
| `Refinement.FirstAttemptAccepted` | cypher_validator.py:175-178 | A query whose post-processed form is accepted is returned valid on the first attempt with an empty history. |
| `Refinement.FallbackIrrelevantFrom` | cypher_validator.py:184-188 | When a `repair_fn` is given, the class's own repair method is never consulted. |
| `Refinement.CopiesAgreeWithRepair` | utils/cypher_validator.py:89-90 | With a `repair_fn`, the two copies of `refine` return the same result on every input. |
| `Refinement.TopLevelNeverMissesRepair` | cypher_validator.py:184-188 | The top-level copy never raises `AttributeError`. |
| `Refinement.UtilsWithoutRepairSingleAttempt` | utils/cypher_validator.py:89-92 | Without a `repair_fn`, the `utils/` copy accepts on the first attempt, or passes on `IndexError`, or raises `AttributeError` at the first rejection. |
| `Refinement.DefaultBoundsHistory` | cypher_validator.py:147 | With the default `max_attempts = 3`, at most three errors are recorded, and exactly three when no query was accepted. |
| `Refinement.Submitted` | cypher_validator.py:170-188 | No more queries are validated than there are attempts left. |
| `Refinement.SubmittedMatchesHistory` | cypher_validator.py:175-181 | Every validation except an accepting one records one history entry. |
| `Refinement.ValidationCount` | cypher_validator.py:170-191 | `refine` validates at most `max_attempts` queries. It validates one per history entry, plus the accepting one, so a first-attempt success validates exactly one. |
| `Refinement.RepairSeesRawCandidate` | cypher_validator.py:184-185 | `repair_fn` receives the candidate before post-processing: the second query validated is `post_process(repair_fn(query, msg))`. |
| `OrderedMap.IndexOf` | performance_benchmark.py:46-47 | A key's position is found exactly when the key is present, and it is the first entry with that key. |
| `OrderedMap.Get` | performance_benchmark.py:47 | A lookup finds a value exactly when the key is present, and with distinct keys it is that entry's value. |
| `OrderedMap.Put` | performance_benchmark.py:47 | `d[k] = v` keeps keys distinct and overwrites a present key in place. An absent key goes at the end. Every other key keeps its value. |
| `Statistics.Minimum` | performance_benchmark.py:69 | `min` is one of the samples and no sample is smaller. |
| `Statistics.Maximum` | performance_benchmark.py:70 | `max` is one of the samples and no sample is larger. |
| `Statistics.SumBetween` | performance_benchmark.py:68 | Samples between `lo` and `hi` sum to between `count*lo` and `count*hi`. |
| `Statistics.Summarize` | performance_benchmark.py:63-73 | A stage summary has `count` = number of samples, `total` = their sum and `mean = total / count`. `min` and `max` are samples, every sample lies between them, and `min <= mean <= max`. |
| `Statistics.SumPermutation` | performance_benchmark.py:84 | The sum does not depend on the order of the samples. |
| `Statistics.SumBoundsSample` | utils/performance_benchmark.py:73 | With no negative sample, every sample lies between 0 and the sum. |
| `Statistics.TruncToInt` | performance_benchmark.py:144 | `int(x)` truncates toward zero. |
| `StableSort.Insert` | performance_benchmark.py:87 | Inserting into a descending list keeps it descending and adds exactly that entry. |
| `StableSort.Sort` | performance_benchmark.py:87 | `sorted(..., reverse=True)` returns a permutation of its input in descending key order. |
| `StableSort.SortSortedIsIdentity` | utils/performance_benchmark.py:188 | A list already in descending order comes back unchanged, equal keys included. |
| `StableSort.SortKeepsTies` | performance_benchmark.py:87 | The sort is stable: the entries sharing any one key come out in the order they went in. |
| `StableSort.PermutationKeepsDistinctKeys` | utils/performance_benchmark.py:72 | Reordering a dict's items keeps its keys distinct. |
| `PerformanceTracker.New` | performance_benchmark.py:17-21 | A new top-level tracker is valid, empty and tracks no memory. |
| `PerformanceTracker.NewTracking` | utils/performance_benchmark.py:19-25 | A new `utils/` tracker is valid and empty, and holds a memory history exactly when `track_memory` is set. |
| `PerformanceTracker.AppendSample` | performance_benchmark.py:46 | `timings[stage].append(x)` adds `x` after the stage's earlier samples, creating the list if needed. Every other stage is untouched. |
| `PerformanceTracker.Enter` | performance_benchmark.py:35-36 | Entering a stage pushes one frame and records nothing. |
| `PerformanceTracker.Exit` | performance_benchmark.py:39-47 | On exit, an empty stack raises `IndexError`. Otherwise the top frame is popped, the elapsed time is appended to the stage's samples and becomes its latest run value, and every other stage is unchanged. |
| `PerformanceTracker.RecordMemory` | utils/performance_benchmark.py:46-47 | With memory tracking, each exit appends exactly one memory delta to the stage. Without it, nothing is recorded. |
| `PerformanceTracker.ExitPreservesValid` | utils/performance_benchmark.py:36-47 | An exit keeps the invariant: the latest run has the same stages as the histories, each equal to its stage's last sample, and there are as many memory deltas as samples. |
| `PerformanceTracker.CurrentRun` | performance_benchmark.py:49-55 | `get_current_run` gives each recorded stage, in first-recorded order, with its latest elapsed time. |
| `PerformanceTracker.Reset` | performance_benchmark.py:103-107 | `reset` empties the histories, latest run and stack. In the `utils/` copy (lines 88-93) a tracked memory history is emptied too. |
| `PerformanceTracker.ResetInsideStageRaises` | performance_benchmark.py:43 | Resetting inside an open stage makes its exit raise `IndexError` from `stage_stack.pop()`. |
| `PerformanceTracker.AppendSampleCount` | performance_benchmark.py:46 | Every exit adds exactly one sample in total. |
| `PerformanceTracker.RunScopes` | performance_benchmark.py:23-47 | LIFO-nested `with` blocks never raise. They leave the stack as they found it, keep the tracker valid and record one sample per block, nested blocks included. |
| `PerformanceTracker.RunScope` | utils/performance_benchmark.py:27-47 | One `with` block and the blocks inside it restore the stack and add `1 +` the inner count of samples. |
| `PerformanceTracker.LeaveScope` | performance_benchmark.py:39-47 | Leaving an open stage keeps the tracker valid, pops exactly one frame and adds one sample. |
| `PerformanceTracker.FlameLine` | performance_benchmark.py:142-144 | A flamegraph line is `pipeline;`, the stage name and a space, then characters that read back as `int(elapsed * 1_000_000)` and start with `-` exactly when that number is negative. |
| `PerformanceTracker.FlameLines` | performance_benchmark.py:138-144 | There is one flamegraph line per recorded sample, over all stages, and each starts with `pipeline;`. |
| `PerformanceTracker.Microseconds` | performance_benchmark.py:143 | `int(elapsed * 1_000_000)` truncates toward zero: it is the whole number of microseconds between zero and the exact value. |
| `PerformanceTracker.Flamegraph` | performance_benchmark.py:132-146 | `generate_flamegraph_data` returns `""` exactly when no sample was recorded, and otherwise text starting with a `pipeline;` line. |
| `PerformanceTracker.FlameLinesSingleLine` | utils/performance_benchmark.py:117-122 | When no stage name has a line break, no flamegraph line has one. |
| `PerformanceTracker.FlamegraphOneLinePerSample` | performance_benchmark.py:132-146 | Splitting the flamegraph text at line breaks gives back exactly its lines, one per recorded sample. |
| `PerformanceTracker.StatsOf` | utils/performance_benchmark.py:132-141 | There is at most one summary per stage. |
| `PerformanceTracker.StatsOfAllSampled` | performance_benchmark.py:63-73 | When every stage has samples, each stage gets a summary of exactly its samples, in order. |
| `PerformanceTracker.StatsOfSkipsEmpty` | utils/performance_benchmark.py:54-55 | Stages without samples get no summary. |
| `PerformanceTracker.GetStatistics` | performance_benchmark.py:57-73 | `get_statistics` has one entry per recorded stage, in order, each the summary of exactly that stage's samples: `count` and `total` = their number and sum, `mean = total / count`, and `min` and `max` are samples bounding every sample. |
| `PerformanceTracker.GetMemoryStatistics` | utils/performance_benchmark.py:126-141 | With tracking off or no data, the result is `{}`. Otherwise entry `i` is stage `i` with the summary of exactly its deltas: as many as its samples, their sum, `mean = total / count`, and `min` and `max` deltas bounding every delta. |
| `TimingBreakdown.Percentage` | performance_benchmark.py:88 | The share is 0 when the total is not positive, and between 0 and 100 when the elapsed time lies between 0 and the total. |
| `TimingBreakdown.Total` | performance_benchmark.py:84 | The total of an empty run is 0, and with no negative stage time every stage time lies between 0 and the total. |
| `TimingBreakdown.StageRow` | performance_benchmark.py:88-93 | A stage's entry holds its seconds, the same time times 1000 as milliseconds, and a share that is 0 for a non-positive total and lies in [0, 100] when the time lies between 0 and the total. |
| `TimingBreakdown.StageRowShare` | performance_benchmark.py:88 | For a positive total the share scales back to the stage's time: `share * total == elapsed * 100`. |
| `TimingBreakdown.StageRows` | performance_benchmark.py:87-93 | There is one row per stage, in the given order, carrying its elapsed time, its milliseconds and its share. |
| `TimingBreakdown.SortedRows` | utils/performance_benchmark.py:72-78 | There are as many stage rows as stages in the run. |
| `TimingBreakdown.Breakdown` | performance_benchmark.py:75-101 | `get_timing_breakdown` is `{}` exactly for an empty run. Otherwise `_total` holds the sum, its milliseconds and 100.0, and the keys stay distinct. |
| `TimingBreakdown.GetTimingBreakdown` | utils/performance_benchmark.py:65-86 | For a tracker, the breakdown is `{}` exactly before any stage is recorded, and otherwise carries `_total` at 100%. |
| `TimingBreakdown.BreakdownLayout` | performance_benchmark.py:87-99 | When no stage is named `_total`, the breakdown is the run sorted slowest first, stably, followed by the `_total` entry. |
| `TimingBreakdown.BreakdownKeepsStageTimes` | utils/performance_benchmark.py:72-78 | Every stage keeps its elapsed time, its milliseconds and its share of the total. A name that is not a stage has no entry. |
| `TimingBreakdown.PercentagesSumTo100` | performance_benchmark.py:84-88 | With a positive total, the stage shares add up to 100. |
| `TimingBreakdown.SharesSum` | utils/performance_benchmark.py:69-73 | Shares of a positive total computed in any order add up to 100. |
| `TimingBreakdown.PercentageBounds` | utils/performance_benchmark.py:73 | With no negative time, every share lies in [0, 100], and a zero total gives every stage a zero share. |
| `TimingBreakdown.PermutationKeepsTotal` | performance_benchmark.py:84 | Sorting the run does not change its total. |
| `TimingBreakdown.PermutationKeepsGet` | performance_benchmark.py:87 | Sorting the run keeps every stage's elapsed time. |
| `TextVisualization.Repeat` | performance_benchmark.py:187 | `glyph * n` has `n` times the glyph's length, is empty for `n <= 0`, and holds only the glyph's characters. |
| `TextVisualization.PadRight` | performance_benchmark.py:188 | `f"{s:<{w}}"` is `s` followed by spaces up to `w`, and never truncates. |
| `TextVisualization.BarLength` | performance_benchmark.py:186 | `int(pct / 100 * width)` lies in `[0, width]` for a share in [0, 100] and a width that is not negative. |
| `TextVisualization.Line` | performance_benchmark.py:185-188 | A stage line's name cell starts with the stage name and is at least 25 wide. It carries the row's milliseconds and share. |
| `TextVisualization.Bars` | performance_benchmark.py:185-188 | The `for stage, metrics in stages` loop draws exactly one line per stage, the i-th line for the i-th stage. |
| `TextVisualization.StageEntries` | performance_benchmark.py:182 | The bar entries are exactly the breakdown's entries other than `_total`. |
| `TextVisualization.ChartOrder` | performance_benchmark.py:182-183 | The bars are a permutation of those entries in descending time order. |
| `TextVisualization.Visualize` | performance_benchmark.py:164-195 | Without `_total` the chart is "No data to visualize". A negative width raises `ValueError` at the first bar, or at the `TOTAL` line once `width + 2 < 0`. Otherwise there is one bar per stage and the total's milliseconds. The `utils/` copy at lines 179-200 is the same except for the glyph. |
| `TextVisualization.UtilsCellWidth` | utils/performance_benchmark.py:191-193 | With the one-character glyph, a bar cell is exactly `width + 2` wide. |
| `TextVisualization.TopLevelCellWidth` | performance_benchmark.py:186-188 | With the three-character glyph, a bar cell is `max(width, 3*length) + 2` wide. |
| `TextVisualization.TopLevelBarOverflows` | performance_benchmark.py:187 | At 100% and the default width 50, the top-level bar is 150 characters and its cell 152, not 52. |
| `TextVisualization.ChartKeepsBreakdownOrder` | utils/performance_benchmark.py:187-188 | Re-sorting a breakdown's stages keeps the breakdown's own slowest-first order. |
| `TextVisualization.ChartOfOrder` | utils/performance_benchmark.py:190-193 | With a width that is not negative, the chart draws one line per stage in chart order. |
| `TextVisualization.StageEntriesOfRows` | utils/performance_benchmark.py:187 | Filtering out `_total` from stage rows followed by `_total` gives the stage rows. |
| `TextVisualization.UtilsChartAligned` | utils/performance_benchmark.py:179-200 | For a tracker's breakdown with no negative time, the `utils/` chart has one line per stage, slowest first. Each line names its stage, and each bar is 0 to `width` long in a cell exactly `width + 2` wide. |

## Left out

- Hashing and JSON: SHA-256 and `json.dumps` are the parameters `digest` and `dumpSorted`. Collision-freedom is not modelled.
- `CacheKey.GenerateKey`: the digest is a parameter, so the key's full shape is stated for digests of at least 16 characters. That SHA-256 gives 64 hexadecimal characters is not modelled.
- Python `re` in general: the comparison patterns, the RETURN pattern and the `CALL apoc.` pattern are matched by hand.
  - `\w` and `\s` are restricted to ASCII word characters and Python's whitespace set.
  - IGNORECASE folding is ASCII only.
- `str.lower()` is modelled as ASCII lowering. This is exact for the needles searched for (`lower`, `semicolon`, `apoc`). The only non-ASCII characters that Python lowercases to ASCII letters are U+212A, which gives `k`, and U+0130, which gives `i` followed by U+0307. Neither can complete one of those needles.
- Idempotence of `post_process` is not claimed, and it does not hold. The look-back at cypher_validator.py:101 reads the rewritten string at positions from the original, and the rename at line 66 is single-pass (`CypherValidator.RenameCanLeaveToLower`).
- Comparison rewriting:
  - `Comparisons.ApplyMatches`: states only the no-match case. The rewritten text is pinned down by the `EqualsPassExample` lemma and the soundness and completeness of the matchers, not by a general contract.
  - `Comparisons.EnforceLowercaseComparisons`: states only the unchanged-input case, for the same reason.
- The Kuzu `EXPLAIN` check and `repair_fn` are parameters. A `repair_fn` that raises is not modelled.
- `Refinement.RefineFrom`: its own contract states only the validity of the returned query. The remaining loop facts are in `Refinement.RefineFromFacts`, `Refinement.RefineFromReturnsLast` and `Refinement.RefineFromRecords`.
- Clocks and `psutil`: `time.perf_counter` and resident-set-size readings are inputs. Elapsed times, memory deltas, means, percentages and `hit_rate` are exact reals, so float rounding is not modelled.
- A stage named `_total` is overwritten by the synthetic entry. The breakdown lemmas about layout and percentage sums assume no such stage.
- Text formatting: only the layout-relevant parts of `create_text_visualization` are modelled (name cell, bar, bar cell, order, errors). Left out:
  - the header and rule lines;
  - the `:>8.2f` and `:>5.1f` renderings;
  - the joined output string.
- `print_summary`, `export_to_json`, `export_to_dataframe` and the `timed_stage` decorator are I/O or wrappers and are not modelled.
- `track_stage` when the body raises: the `finally` block runs the same bookkeeping as a normal exit, which `PerformanceTracker.Exit` models. The exception itself is not.
- `graph_rag_enhanced.py` is not part of this model (UI, LLM calls and retrieval).
- `PerformanceTracker.StatsOf`: its own contract bounds the size only. The contents are given by `StatsOfAllSampled` and `StatsOfSkipsEmpty`.
- `TimingBreakdown.SortedRows`: its own contract states the length only. The order and contents are given by `BreakdownLayout` and `BreakdownKeepsStageTimes`.

## Findings

| source | as written | input that shows it | evidently intended | confidence | as-written member | corrected member |
|---|---|---|---|---|---|---|
| performance_benchmark.py:187 | The bar glyph is the three characters U+00E2 U+2013 U+02C6, the UTF-8 bytes of U+2588 read as Windows-1252. Each unit of bar length prints three characters into a cell padded to `width`. | A breakdown with one stage at 100% and the default width 50: the bar is 150 characters and the cell 152 rather than 52, so the time column is pushed out of line. | One U+2588 per unit, as in utils/performance_benchmark.py:192, so every cell is `width + 2` wide. | high; not executed | `TextVisualization.TopLevelBarOverflows` | `TextVisualization.UtilsChartAligned` |
