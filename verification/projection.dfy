/** `_fix_return_projection`: locate the RETURN clause, split its items and
    look at the first token of each.

    The search is `re.search(r'\bRETURN\b(.+?)(?:ORDER BY|LIMIT|$)', q, re.I)`:
    the leftmost position where the keyword stands between word boundaries,
    followed by the shortest non-empty run of non-newline characters after
    which `ORDER BY`, `LIMIT` or the end of the text (`$` also matches just
    before a final newline) comes. The items are the stripped pieces of the
    stripped group split at commas; the loop stops at the first item whose
    first whitespace-separated token is an identifier. Both copies return
    the query unchanged: the step's only observable effect is the
    `IndexError` that `item.split()[0]` raises on an empty item reached
    before any identifier-led item.
 */
module ReturnProjection {
  import opened Wrappers
  import opened Text

  /** `\bRETURN\b` at `p`, in any case. */
  predicate ReturnKeywordAt(s: string, p: nat) {
    StartsWithCI(s, p, "return")
    && (p == 0 || !IsWordChar(s[p - 1]))
    && (p + 6 == |s| || !IsWordChar(s[p + 6]))
  }

  /** `(?:ORDER BY|LIMIT|$)` at `q`. */
  predicate TerminatorAt(s: string, q: nat) {
    StartsWithCI(s, q, "order by") || StartsWithCI(s, q, "limit")
    || q == |s| || (q == |s| - 1 && s[q] == '\n')
  }

  /** The lazy `(.+?)` that has consumed up to `q`: the first `q' >= q`
      where a terminator matches, if only non-newlines lie before it. */
  function LazyEnd(s: string, q: nat): (r: Option<nat>)
    requires q <= |s|
    ensures r.Some? ==> q <= r.value <= |s| && TerminatorAt(s, r.value)
    ensures r.Some? ==> forall k :: q <= k < r.value ==> s[k] != '\n' && !TerminatorAt(s, k)
    ensures r.None? ==> exists k :: q <= k < |s| && s[k] == '\n'
    decreases |s| - q
  {
    if TerminatorAt(s, q) then Some(q)
    else if q < |s| && s[q] != '\n' then LazyEnd(s, q + 1)
    else None
  }

  /** The whole pattern tried at `p`: the end of group 1. */
  function ClauseAt(s: string, p: nat): (r: Option<nat>)
    requires p <= |s|
    ensures r.Some? ==> ReturnKeywordAt(s, p) && p + 7 <= r.value <= |s|
    ensures r.Some? ==> TerminatorAt(s, r.value) && '\n' !in s[p + 6..(r.value)]
  {
    if ReturnKeywordAt(s, p) && p + 6 < |s| && s[p + 6] != '\n' then
      match LazyEnd(s, p + 7)
      case None => None
      case Some(e) =>
        var g := s[p + 6..(e)];
        assert '\n' !in g by {
          forall k | 0 <= k < |g| ensures g[k] != '\n' {
            assert g[k] == s[p + 6 + k];
          }
        }
        Some(e)
    else None
  }

  /** A match of the clause pattern: where it starts and where group 1 ends. */
  datatype Clause = Clause(start: nat, groupEnd: nat)

  /** `re.search` from position `p`: the leftmost start where the pattern matches. */
  function SearchFrom(s: string, p: nat): (r: Option<Clause>)
    requires p <= |s|
    ensures r.Some? ==> p <= r.value.start <= |s| && ClauseAt(s, r.value.start) == Some(r.value.groupEnd)
    ensures forall k :: p <= k <= |s| && (r.None? || k < r.value.start) ==> ClauseAt(s, k).None?
    decreases |s| - p
  {
    match ClauseAt(s, p)
    case Some(e) => Some(Clause(p, e))
    case None => if p == |s| then None else SearchFrom(s, p + 1)
  }

  /** `return_match.group(1)`, if the query has a RETURN clause. */
  function ReturnGroup(s: string): (g: Option<string>)
    ensures g.Some? ==> |g.value| > 0 && '\n' !in g.value
  {
    match SearchFrom(s, 0)
    case None => None
    case Some(c) => Some(s[c.start + 6..(c.groupEnd)])
  }

  /** `[item.strip() for item in clause.strip().split(',')]`. */
  function Items(clause: string): (items: seq<string>)
    ensures |items| >= 1
    ensures forall i :: 0 <= i < |items| ==> ',' !in items[i]
  {
    var parts := SplitOn(Strip(clause), ',');
    seq(|parts|, i requires 0 <= i < |parts| => StripNoComma(parts[i]))
  }

  /** Stripping a comma-free piece leaves it comma-free. */
  function StripNoComma(part: string): (r: string)
    requires ',' !in part
    ensures r == Strip(part) && ',' !in r
  {
    var r := Strip(part);
    StripIsInfix(part);
    r
  }

  lemma StripIsInfix(s: string)
    ensures exists i, j :: 0 <= i <= j <= |s| && Strip(s) == s[i..(j)]
  {
    var l := LStrip(s);
    var r := RStrip(l);
    assert l == s[|s| - |l|..];
    assert r == l[..|r|];
    assert r == s[|s| - |l|..|s| - |l| + |r|];
  }

  /** `item.split()[0]`: the first maximal run of non-whitespace characters,
      or `None` where Python raises `IndexError` (no such run). */
  function FirstToken(item: string): (t: Option<string>)
    ensures t.None? <==> AllSpace(item)
    ensures t.Some? ==> |t.value| > 0 && NoSpace(t.value)
    decreases |item|
  {
    if |item| == 0 then None
    else if IsSpace(item[0]) then FirstToken(item[1..])
    else Some(NonSpacePrefix(item))
  }

  /** The longest prefix without whitespace. */
  function NonSpacePrefix(s: string): (r: string)
    ensures |r| <= |s| && r == s[..|r|] && NoSpace(r)
    ensures |r| == |s| || IsSpace(s[|r|])
    decreases |s|
  {
    if |s| == 0 || IsSpace(s[0]) then []
    else
      var r := NonSpacePrefix(s[1..]);
      assert [s[0]] + r == s[..1 + |r|];
      [s[0]] + r
  }

  /** `re.match(r'^[a-zA-Z_][a-zA-Z0-9_]*$', token)`; a token holds no
      newline, so `$` can only match at its end. */
  predicate IsIdentifier(t: string) {
    |t| > 0 && (IsAsciiLetter(t[0]) || t[0] == '_')
    && forall i :: 0 <= i < |t| ==> IsWordChar(t[i])
  }

  /** The `for item in items` loop. `Ok(true)`: it broke at an identifier
      (the top-level copy's `needs_fix`); `Ok(false)`: it ran to the end. */
  function ScanItems(items: seq<string>): (r: Result<bool, PyError>)
    ensures r.Err? ==> r.error == IndexError
    decreases |items|
  {
    if |items| == 0 then Ok(false)
    else match FirstToken(items[0])
      case None => Err(IndexError)
      case Some(t) => if IsIdentifier(t) then Ok(true) else ScanItems(items[1..])
  }

  /** An item is reached when no earlier item starts with an identifier. */
  predicate ReachedItem(items: seq<string>, i: int)
    requires 0 <= i <= |items|
  {
    forall j :: 0 <= j < i ==> !AllSpace(items[j]) && !IsIdentifier(FirstToken(items[j]).value)
  }

  /** The loop raises exactly when a blank item is reached, and breaks
      exactly when an item starting with an identifier is reached. */
  lemma ScanRaisesIffBlankReached(items: seq<string>)
    ensures ScanItems(items).Err? <==> exists i :: 0 <= i < |items| && ReachedItem(items, i) && AllSpace(items[i])
    ensures ScanItems(items) == Ok(true) <==>
      exists i :: 0 <= i < |items| && ReachedItem(items, i) && !AllSpace(items[i])
                  && IsIdentifier(FirstToken(items[i]).value)
  {
    ScanRaisesAtBlank(items);
    ScanBreaksAtIdentifier(items);
  }

  /** A first item that is blank or an identifier is the only one reached. */
  lemma FirstStops(items: seq<string>)
    requires |items| > 0 && (AllSpace(items[0]) || IsIdentifier(FirstToken(items[0]).value))
    ensures ReachedItem(items, 0)
    ensures forall i :: 0 < i < |items| ==> !ReachedItem(items, i)
  {
    forall i | 0 < i < |items| ensures !ReachedItem(items, i) {
      assert !(!AllSpace(items[0]) && !IsIdentifier(FirstToken(items[0]).value));
    }
  }

  lemma {:induction false} ScanRaisesAtBlank(items: seq<string>)
    ensures ScanItems(items).Err? <==> exists i :: 0 <= i < |items| && ReachedItem(items, i) && AllSpace(items[i])
    decreases |items|
  {
    if |items| > 0 {
      ScanRaisesAtBlank(items[1..]);
      var rest := items[1..];
      if AllSpace(items[0]) || IsIdentifier(FirstToken(items[0]).value) {
        FirstStops(items);
      } else {
        if exists i :: 0 <= i < |rest| && ReachedItem(rest, i) && AllSpace(rest[i]) {
          var i :| 0 <= i < |rest| && ReachedItem(rest, i) && AllSpace(rest[i]);
          ReachedShift(items, i + 1);
          assert ReachedItem(items, i + 1) && items[i + 1] == rest[i];
        }
        if exists i :: 0 <= i < |items| && ReachedItem(items, i) && AllSpace(items[i]) {
          var i :| 0 <= i < |items| && ReachedItem(items, i) && AllSpace(items[i]);
          assert i > 0;
          ReachedShift(items, i);
          assert ReachedItem(rest, i - 1) && rest[i - 1] == items[i];
        }
      }
    }
  }

  lemma {:induction false} ScanBreaksAtIdentifier(items: seq<string>)
    ensures ScanItems(items) == Ok(true) <==>
      exists i :: 0 <= i < |items| && ReachedItem(items, i) && !AllSpace(items[i])
                  && IsIdentifier(FirstToken(items[i]).value)
    decreases |items|
  {
    if |items| > 0 {
      ScanBreaksAtIdentifier(items[1..]);
      var rest := items[1..];
      if AllSpace(items[0]) || IsIdentifier(FirstToken(items[0]).value) {
        FirstStops(items);
      } else {
        if exists i :: 0 <= i < |rest| && ReachedItem(rest, i) && !AllSpace(rest[i])
                       && IsIdentifier(FirstToken(rest[i]).value) {
          var i :| 0 <= i < |rest| && ReachedItem(rest, i) && !AllSpace(rest[i])
                   && IsIdentifier(FirstToken(rest[i]).value);
          ReachedShift(items, i + 1);
          assert ReachedItem(items, i + 1) && items[i + 1] == rest[i];
        }
        if exists i :: 0 <= i < |items| && ReachedItem(items, i) && !AllSpace(items[i])
                       && IsIdentifier(FirstToken(items[i]).value) {
          var i :| 0 <= i < |items| && ReachedItem(items, i) && !AllSpace(items[i])
                   && IsIdentifier(FirstToken(items[i]).value);
          assert i > 0;
          ReachedShift(items, i);
          assert ReachedItem(rest, i - 1) && rest[i - 1] == items[i];
        }
      }
    }
  }

  /** Past a first item that is neither blank nor an identifier, reaching
      an item is reaching it in the rest of the list. */
  lemma ReachedShift(items: seq<string>, i: int)
    requires 1 <= i <= |items|
    requires !AllSpace(items[0]) && !IsIdentifier(FirstToken(items[0]).value)
    ensures ReachedItem(items, i) <==> ReachedItem(items[1..], i - 1)
  {
    var rest := items[1..];
    forall j | 0 <= j < i - 1 ensures items[j + 1] == rest[j] { }
    if ReachedItem(rest, i - 1) {
      forall j | 0 <= j < i ensures !AllSpace(items[j]) && !IsIdentifier(FirstToken(items[j]).value) {
        if j > 0 { assert items[j] == rest[j - 1]; }
      }
    }
  }

  /** `_fix_return_projection(query)`: the query itself, or the `IndexError`
      the item loop raises. Both copies behave alike. */
  function FixReturnProjection(query: string): (r: Result<string, PyError>)
    ensures r.Ok? ==> r.value == query
    ensures ReturnGroup(query).None? ==> r == Ok(query)
    ensures r.Err? <==> ReturnGroup(query).Some? && ScanItems(Items(ReturnGroup(query).value)).Err?
  {
    match ReturnGroup(query)
    case None => Ok(query)
    case Some(g) =>
      match ScanItems(Items(g))
      case Err(e) => Err(e)
      case Ok(_) => Ok(query)
  }

  /** An item is blank exactly when it is empty: items are stripped. */
  lemma BlankItemIsEmpty(clause: string, i: nat)
    requires i < |Items(clause)|
    ensures AllSpace(Items(clause)[i]) <==> Items(clause)[i] == []
  {
  }

  /** `item.split()[0]` is the prefix up to the first whitespace. */
  lemma FirstTokenAt(item: string, k: nat)
    requires 0 < k <= |item| && NoSpace(item[..(k)]) && (k == |item| || IsSpace(item[k]))
    ensures FirstToken(item) == Some(item[..(k)])
  {
    forall i | 0 <= i < k ensures !IsSpace(item[i]) {
      assert item[i] == item[..k][i];
    }
    var r := NonSpacePrefix(item);
    forall i | 0 <= i < |r| ensures !IsSpace(item[i]) {
      assert item[i] == r[i];
    }
    assert FirstToken(item) == Some(r);
    assert |r| == k;
  }

  /** Items of `RETURN n.x, , m`: the property `n.x` is no identifier, so
      the loop reaches the empty item and raises. */
  lemma BlankAfterPropertyRaises()
    ensures ScanItems(["n.x", "", "m"]) == Err(IndexError)
  {
    FirstTokenAt("n.x", 3);
    assert "n.x"[1] == '.';
    assert ScanItems(["n.x", "", "m"]) == ScanItems(["", "m"]);
  }

  /** Items of `RETURN n, , m`: the loop breaks at the identifier `n` before
      it reaches the empty item. */
  lemma IdentifierBeforeBlankBreaks()
    ensures ScanItems(["n", "", "m"]) == Ok(true)
  {
    FirstTokenAt("n", 1);
  }

  /** The projection step raises exactly when the query has a RETURN clause
      in whose items a blank one is reached; otherwise it returns the query. */
  lemma FixRaisesIffBlankReached(query: string)
    ensures FixReturnProjection(query).Err? <==>
      ReturnGroup(query).Some? &&
      exists i :: 0 <= i < |Items(ReturnGroup(query).value)|
        && ReachedItem(Items(ReturnGroup(query).value), i)
        && Items(ReturnGroup(query).value)[i] == []
    ensures FixReturnProjection(query).Ok? ==> FixReturnProjection(query).value == query
  {
    if ReturnGroup(query).Some? {
      var items := Items(ReturnGroup(query).value);
      ScanRaisesIffBlankReached(items);
      forall i | 0 <= i < |items| ensures AllSpace(items[i]) <==> items[i] == [] {
        BlankItemIsEmpty(ReturnGroup(query).value, i);
      }
    }
  }
}
