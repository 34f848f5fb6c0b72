/** `_enforce_lowercase_comparisons`: rewriting `x.y = 'lit'` and
    `x.y CONTAINS 'lit'` into `lower(x.y) CONTAINS 'lit'`.

    The two regular expressions are matched by hand. `EqualsPattern` is a
    property, optional spaces, `=`, optional spaces and a quoted literal;
    `ContainsPattern`, matched ignoring case, is a property not preceded by
    `lower` and an opening parenthesis, spaces, `CONTAINS`, spaces and a
    quoted literal. A property is a word run, a dot and a word run; a quoted
    literal is a single quote, a run of other characters and a single quote.
    Every quantifier in them is followed by a character the quantified class
    excludes, so the greedy run is the only way a match can proceed and no
    backtracking is needed: a match at a position is decided by run ends.
    `re.finditer` is `MatchesFrom`: the leftmost match, then the search goes
    on from its end. The rewrite loop follows the source exactly: the match
    positions come from the string as it was before the loop, the 20-character
    look-back for `lower` is read from the string as rewritten so far, and
    the rewrite replaces the first occurrence of the matched text.
 */
module Comparisons {
  import opened Wrappers
  import opened Text

  /** The single quote that delimits a literal. */
  const Quote: char := '\U{0027}'

  datatype Pattern = EqualsPattern | ContainsPattern

  /** One match: its span in the searched string, the whole matched text,
      group 1 (the property) and group 2 (the literal without quotes). */
  datatype Match = Match(start: nat, end: nat, text: string, prop: string, literal: string)

  /** `s` holds `text` starting at position `p`. */
  predicate LaidOutAt(s: string, p: nat, text: string) {
    p + |text| <= |s| && s[p..(p + |text|)] == text
  }

  predicate AllWord(s: string) {
    forall i :: 0 <= i < |s| ==> IsWordChar(s[i])
  }

  /** `\w+\.\w+` in full. */
  predicate IsProperty(t: string) {
    exists d | 0 < d < |t| - 1 :: t[d] == '.' && AllWord(t[..(d)]) && AllWord(t[d + 1..])
  }

  /** `[^']+` in full. */
  predicate IsLiteral(l: string) {
    |l| > 0 && Quote !in l
  }

  /** The text of an `EqualsPattern` match with these groups. */
  ghost predicate IsEqualsComparison(text: string, prop: string, literal: string) {
    IsProperty(prop) && IsLiteral(literal)
    && exists ws1: string, ws2: string ::
         AllSpace(ws1) && AllSpace(ws2) && text == prop + (ws1 + ("=" + (ws2 + ("'" + (literal + "'")))))
  }

  /** The text of a `ContainsPattern` match with these groups. */
  ghost predicate IsContainsComparison(text: string, prop: string, literal: string) {
    IsProperty(prop) && IsLiteral(literal)
    && exists ws1: string, kw: string, ws2: string ::
         |ws1| > 0 && |ws2| > 0 && AllSpace(ws1) && AllSpace(ws2) && LowerAscii(kw) == "contains"
         && text == prop + (ws1 + (kw + (ws2 + ("'" + (literal + "'")))))
  }

  function WordRunEnd(s: string, i: nat): (j: nat)
    requires i <= |s|
    ensures i <= j <= |s| && AllWord(s[i..(j)])
    ensures j == |s| || !IsWordChar(s[j])
    decreases |s| - i
  {
    if i < |s| && IsWordChar(s[i]) then
      var j := WordRunEnd(s, i + 1);
      assert s[i..(j)] == [s[i]] + s[i + 1..(j)];
      j
    else i
  }

  function SpaceRunEnd(s: string, i: nat): (j: nat)
    requires i <= |s|
    ensures i <= j <= |s| && AllSpace(s[i..(j)])
    ensures j == |s| || !IsSpace(s[j])
    decreases |s| - i
  {
    if i < |s| && IsSpace(s[i]) then
      var j := SpaceRunEnd(s, i + 1);
      assert s[i..(j)] == [s[i]] + s[i + 1..(j)];
      j
    else i
  }

  function QuoteFreeRunEnd(s: string, i: nat): (j: nat)
    requires i <= |s|
    ensures i <= j <= |s| && Quote !in s[i..(j)]
    ensures j == |s| || s[j] == Quote
    decreases |s| - i
  {
    if i < |s| && s[i] != Quote then
      var j := QuoteFreeRunEnd(s, i + 1);
      assert s[i..(j)] == [s[i]] + s[i + 1..(j)];
      j
    else i
  }

  /** `\w+\.\w+` starting at `p`: the end of the property. */
  function PropertyEnd(s: string, p: nat): (r: Option<nat>)
    requires p <= |s|
    ensures r.Some? ==> p < r.value <= |s|
    ensures r.Some? ==> r.value == |s| || !IsWordChar(s[r.value])
    ensures r.Some? ==> '.' in s
  {
    var j1 := WordRunEnd(s, p);
    if j1 == p || j1 >= |s| || s[j1] != '.' then None
    else
      var j2 := WordRunEnd(s, j1 + 1);
      if j2 == j1 + 1 then None
      else Some(j2)
  }

  /** What `PropertyEnd` delimits is a property. */
  lemma PropertyEndSound(s: string, p: nat)
    requires p <= |s| && PropertyEnd(s, p).Some?
    ensures IsProperty(s[p..(PropertyEnd(s, p).value)])
  {
    var j1 := WordRunEnd(s, p);
    var j2 := WordRunEnd(s, j1 + 1);
    var t := s[p..j2];
    assert t[..j1 - p] == s[p..j1] && t[j1 - p + 1..] == s[j1 + 1..j2];
    assert t[j1 - p] == '.';
  }

  /** `'([^']+)'` starting at `p`: the end just after the closing quote. */
  function QuotedEnd(s: string, p: nat): (r: Option<nat>)
    requires p <= |s|
    ensures r.Some? ==> p + 3 <= r.value <= |s| && s[p] == Quote && s[r.value - 1] == Quote
    ensures r.Some? ==> IsLiteral(s[p + 1..(r.value - 1)])
  {
    if p >= |s| || s[p] != Quote then None
    else
      var j := QuoteFreeRunEnd(s, p + 1);
      if j == p + 1 || j >= |s| then None else Some(j + 1)
  }

  /** `EqualsPattern` tried at position `p`. */
  function MatchEqualsAt(s: string, p: nat): (r: Option<Match>)
    requires p <= |s|
    ensures r.Some? ==> r.value.start == p < r.value.end <= |s| && r.value.text == s[p..(r.value.end)]
    ensures r.Some? ==> PropertyEnd(s, p).Some? && r.value.prop == s[p..(PropertyEnd(s, p).value)]
    ensures r.Some? ==> '.' in s && Quote in s
  {
    match PropertyEnd(s, p)
    case None => None
    case Some(j2) =>
      var j3 := SpaceRunEnd(s, j2);
      if j3 >= |s| || s[j3] != '=' then None
      else
        var j4 := SpaceRunEnd(s, j3 + 1);
        match QuotedEnd(s, j4)
        case None => None
        case Some(e) =>
          Some(Match(p, e, s[p..(e)], s[p..(j2)], s[j4 + 1..(e - 1)]))
  }

  /** Soundness of `EqualsPattern`: a match is a property, optional spaces,
      `=`, optional spaces and a quoted literal, with the groups in place. */
  lemma EqualsMatchSound(s: string, p: nat)
    requires p <= |s| && MatchEqualsAt(s, p).Some?
    ensures
      var m := MatchEqualsAt(s, p).value;
      IsEqualsComparison(m.text, m.prop, m.literal)
  {
    var j2, j3, j4, e := EqualsSteps(s, p);
    PropertyEndSound(s, p);
    QuotedEndSound(s, j4, e);
    EqualsShape(s, p, j2, j3, j4, e);
    EqualsUnfold(s, p, j2, j3, j4, e);
  }

  /** The cut points of a successful `MatchEqualsAt`. */
  lemma EqualsSteps(s: string, p: nat) returns (a: nat, b: nat, c: nat, e: nat)
    requires p <= |s| && MatchEqualsAt(s, p).Some?
    ensures PropertyEnd(s, p) == Some(a)
    ensures SpaceRunEnd(s, a) == b && b < |s| && s[b] == '='
    ensures SpaceRunEnd(s, b + 1) == c && QuotedEnd(s, c) == Some(e)
  {
    var r := MatchEqualsAt(s, p);
    a := PropertyEnd(s, p).value;
    b := SpaceRunEnd(s, a);
    if b >= |s| || s[b] != '=' {
      assert false;
    } else {
      c := SpaceRunEnd(s, b + 1);
      if QuotedEnd(s, c).None? {
        assert false;
      } else {
        e := QuotedEnd(s, c).value;
      }
    }
  }

  /** Soundness of `ContainsPattern`: a match is a property, spaces, the
      word `contains` in any case, spaces and a quoted literal. */
  lemma ContainsMatchSound(s: string, p: nat)
    requires p <= |s| && MatchContainsAt(s, p).Some?
    ensures
      var m := MatchContainsAt(s, p).value;
      IsContainsComparison(m.text, m.prop, m.literal)
  {
    var j2, j3, j4, e := ContainsSteps(s, p);
    PropertyEndSound(s, p);
    assert IsProperty(s[p..(j2)]);
    assert LowerAscii(s[j3..(j3 + 8)]) == "contains" by {
      assert |"contains"| == 8;
    }
    assert AllSpace(s[j2..(j3)]) && AllSpace(s[j3 + 8..(j4)]);
    QuotedEndSound(s, j4, e);
    ContainsShape(s, p, j2, j3, j4, e);
    ContainsUnfold(s, p, j2, j3, j4, e);
  }

  /** The cut points of a successful `MatchContainsAt`. */
  lemma ContainsSteps(s: string, p: nat) returns (a: nat, b: nat, c: nat, e: nat)
    requires p <= |s| && MatchContainsAt(s, p).Some?
    ensures !PrecededByLowerCall(s, p) && PropertyEnd(s, p) == Some(a)
    ensures a < b && SpaceRunEnd(s, a) == b && StartsWithCI(s, b, "contains")
    ensures b + 8 < c && SpaceRunEnd(s, b + 8) == c && QuotedEnd(s, c) == Some(e)
  {
    var r := MatchContainsAt(s, p);
    a := PropertyEnd(s, p).value;
    b := SpaceRunEnd(s, a);
    if b == a || !StartsWithCI(s, b, "contains") {
      assert false;
    } else {
      assert |"contains"| == 8;
      c := SpaceRunEnd(s, b + 8);
      if c == b + 8 || QuotedEnd(s, c).None? {
        assert false;
      } else {
        e := QuotedEnd(s, c).value;
      }
    }
  }

  /** The slices of a string between successive cut points concatenate back. */
  lemma SliceSplit(s: string, a: nat, b: nat, c: nat)
    requires a <= b <= c <= |s|
    ensures s[a..(c)] == s[a..(b)] + s[b..(c)]
  {
  }

  lemma EqualsShape(s: string, p: nat, j2: nat, j3: nat, j4: nat, e: nat)
    requires p < j2 <= j3 < j4 + 3 <= e <= |s| && j3 + 1 <= j4
    requires IsProperty(s[p..(j2)]) && AllSpace(s[j2..(j3)]) && s[j3] == '='
    requires AllSpace(s[j3 + 1..(j4)]) && s[j4] == Quote && s[e - 1] == Quote
    requires IsLiteral(s[j4 + 1..(e - 1)])
    ensures IsEqualsComparison(s[p..(e)], s[p..(j2)], s[j4 + 1..(e - 1)])
  {
    var ws1, ws2 := s[j2..j3], s[j3 + 1..j4];
    EqualsText(s, p, j2, j3, j4, e);
    assert AllSpace(ws1) && AllSpace(ws2)
      && s[p..e] == s[p..j2] + (ws1 + ("=" + (ws2 + ("'" + (s[j4 + 1..e - 1] + "'")))));
  }

  /** The text of an equality comparison, cut at its parts. */
  lemma EqualsText(s: string, p: nat, j2: nat, j3: nat, j4: nat, e: nat)
    requires p < j2 <= j3 < j4 + 3 <= e <= |s| && j3 + 1 <= j4
    requires s[j3] == '=' && s[j4] == Quote && s[e - 1] == Quote
    ensures s[p..(e)] == s[p..(j2)] + (s[j2..(j3)] + ("=" + (s[j3 + 1..(j4)] + ("'" + (s[j4 + 1..(e - 1)] + "'")))))
  {
    var lit := s[j4 + 1..e - 1] + "'";
    assert s[e - 1..e] == "'";
    SliceThen(s, j4 + 1, e - 1, e, "'");
    var quoted := "'" + lit;
    SliceCons(s, j4, e, lit);
    var right := s[j3 + 1..j4] + quoted;
    SliceThen(s, j3 + 1, j4, e, quoted);
    var eqRight := "=" + right;
    SliceCons(s, j3, e, right);
    SliceThen(s, j2, j3, e, eqRight);
    SliceThen(s, p, j2, e, s[j2..j3] + eqRight);
  }

  lemma ContainsShape(s: string, p: nat, j2: nat, j3: nat, j4: nat, e: nat)
    requires p < j2 < j3 && j3 + 8 < j4 && j4 + 3 <= e <= |s|
    requires IsProperty(s[p..(j2)]) && AllSpace(s[j2..(j3)]) && LowerAscii(s[j3..(j3 + 8)]) == "contains"
    requires AllSpace(s[j3 + 8..(j4)]) && s[j4] == Quote && s[e - 1] == Quote
    requires IsLiteral(s[j4 + 1..(e - 1)])
    ensures IsContainsComparison(s[p..(e)], s[p..(j2)], s[j4 + 1..(e - 1)])
  {
    var ws1, kw, ws2 := s[j2..j3], s[j3..j3 + 8], s[j3 + 8..j4];
    ContainsText(s, p, j2, j3, j4, e);
    assert |ws1| > 0 && |ws2| > 0 && AllSpace(ws1) && AllSpace(ws2) && LowerAscii(kw) == "contains"
      && s[p..e] == s[p..j2] + (ws1 + (kw + (ws2 + ("'" + (s[j4 + 1..e - 1] + "'")))));
  }

  /** The text of a CONTAINS comparison, cut at its parts. */
  lemma ContainsText(s: string, p: nat, j2: nat, j3: nat, j4: nat, e: nat)
    requires p < j2 < j3 && j3 + 8 < j4 && j4 + 3 <= e <= |s|
    requires s[j4] == Quote && s[e - 1] == Quote
    ensures s[p..(e)] == s[p..(j2)] + (s[j2..(j3)] + (s[j3..(j3 + 8)] + (s[j3 + 8..(j4)] + ("'" + (s[j4 + 1..(e - 1)] + "'")))))
  {
    var lit := s[j4 + 1..e - 1] + "'";
    assert s[e - 1..e] == "'";
    SliceThen(s, j4 + 1, e - 1, e, "'");
    var quoted := "'" + lit;
    SliceCons(s, j4, e, lit);
    var right := s[j3 + 8..j4] + quoted;
    SliceThen(s, j3 + 8, j4, e, quoted);
    var kwRight := s[j3..j3 + 8] + right;
    SliceThen(s, j3, j3 + 8, e, right);
    SliceThen(s, j2, j3, e, kwRight);
    SliceThen(s, p, j2, e, s[j2..j3] + kwRight);
  }

  /** A slice is its first part followed by the rest, known as `x`. */
  lemma SliceThen(s: string, a: nat, b: nat, c: nat, x: string)
    requires a <= b <= c <= |s| && s[b..(c)] == x
    ensures s[a..(c)] == s[a..(b)] + x
  {
    SliceSplit(s, a, b, c);
  }

  /** A slice is its first character followed by the rest, known as `x`. */
  lemma SliceCons(s: string, a: nat, c: nat, x: string)
    requires a < c <= |s| && s[a + 1..(c)] == x
    ensures s[a..(c)] == [s[a]] + x
  {
    SliceSplit(s, a, a + 1, c);
    assert s[a..a + 1] == [s[a]];
  }

  /** The six characters before `p` spell `lower(` in any case. */
  predicate PrecededByLowerCall(s: string, p: nat)
    requires p <= |s|
  {
    p >= 6 && LowerAscii(s[p - 6..(p)]) == "lower("
  }

  /** `ContainsPattern` tried at position `p`, negative look-behind included. */
  function MatchContainsAt(s: string, p: nat): (r: Option<Match>)
    requires p <= |s|
    ensures r.Some? ==> r.value.start == p < r.value.end <= |s| && r.value.text == s[p..(r.value.end)]
    ensures r.Some? ==> PropertyEnd(s, p).Some? && r.value.prop == s[p..(PropertyEnd(s, p).value)]
    ensures r.Some? ==> !PrecededByLowerCall(s, p)
    ensures r.Some? ==> '.' in s && Quote in s
  {
    if PrecededByLowerCall(s, p) then None
    else match PropertyEnd(s, p)
      case None => None
      case Some(j2) =>
        var j3 := SpaceRunEnd(s, j2);
        if j3 == j2 || !StartsWithCI(s, j3, "contains") then None
        else
          var j4 := SpaceRunEnd(s, j3 + 8);
          if j4 == j3 + 8 then None
          else match QuotedEnd(s, j4)
            case None => None
            case Some(e) =>
              Some(Match(p, e, s[p..(e)], s[p..(j2)], s[j4 + 1..(e - 1)]))
  }

  function MatchAt(pat: Pattern, s: string, p: nat): (r: Option<Match>)
    requires p <= |s|
    ensures r.Some? ==> r.value.start == p < r.value.end <= |s| && r.value.text == s[p..(r.value.end)]
    ensures r.Some? ==> '.' in s && Quote in s
  {
    match pat
    case EqualsPattern => MatchEqualsAt(s, p)
    case ContainsPattern => MatchContainsAt(s, p)
  }

  /** `re.finditer(pattern, s)` from position `pos`: the leftmost match,
      then the matches after its end, skipping no match on the way. */
  function MatchesFrom(pat: Pattern, s: string, pos: nat): (ms: seq<Match>)
    requires pos <= |s|
    ensures forall i :: 0 <= i < |ms| ==>
      pos <= ms[i].start < ms[i].end <= |s| && MatchAt(pat, s, ms[i].start) == Some(ms[i])
    ensures forall i :: 0 <= i < |ms| - 1 ==> ms[i].end <= ms[i + 1].start
    ensures Gapless(pat, s, pos, ms)
    decreases |s| - pos
  {
    match MatchAt(pat, s, pos)
    case Some(m) =>
      var rest := MatchesFrom(pat, s, m.end);
      MatchesCons(m, rest);
      assert ([m] + rest)[1..] == rest;
      [m] + rest
    case None =>
      if pos == |s| then []
      else
        var rest := MatchesFrom(pat, s, pos + 1);
        rest
  }

  lemma MatchesCons(m: Match, rest: seq<Match>)
    requires forall i :: 0 <= i < |rest| ==> m.end <= rest[i].start
    requires forall i :: 0 <= i < |rest| - 1 ==> rest[i].end <= rest[i + 1].start
    ensures forall i :: 1 <= i < |rest| + 1 ==> ([m] + rest)[i] == rest[i - 1]
    ensures forall i :: 0 <= i < |rest| ==> ([m] + rest)[i].end <= ([m] + rest)[i + 1].start
  {
    var ms := [m] + rest;
    forall i | 0 <= i < |rest| ensures ms[i].end <= ms[i + 1].start {
      assert ms[i + 1] == rest[i];
      if i > 0 { assert ms[i] == rest[i - 1]; }
    }
  }

  /** No match of `pat` starts at a position from `lo` up to (not
      including) `hi`, nor past the end of `s`. */
  predicate NoMatchBetween(pat: Pattern, s: string, lo: nat, hi: int)
    decreases |s| - lo
  {
    if lo >= hi || lo > |s| then true
    else match MatchAt(pat, s, lo)
      case Some(_) => false
      case None => NoMatchBetween(pat, s, lo + 1, hi)
  }

  /** What a match-free range means position by position. */
  lemma {:induction false} NoMatchBetweenAt(pat: Pattern, s: string, lo: nat, hi: int, p: nat)
    requires NoMatchBetween(pat, s, lo, hi)
    requires lo <= p < hi && p <= |s|
    ensures MatchAt(pat, s, p).None?
    decreases p - lo
  {
    if lo < p {
      NoMatchBetweenAt(pat, s, lo + 1, hi, p);
    }
  }

  /** Searching from `lo` finds `ms` without skipping a match: no match
      starts from `lo` up to the first of `ms`, from the end of each up to
      the start of the next, or after the end of the last. */
  predicate Gapless(pat: Pattern, s: string, lo: nat, ms: seq<Match>)
    decreases |ms|
  {
    if |ms| == 0 then NoMatchBetween(pat, s, lo, |s| + 1)
    else NoMatchBetween(pat, s, lo, ms[0].start) && Gapless(pat, s, ms[0].end, ms[1..])
  }

  /** `Gapless` match by match. */
  lemma {:induction false} GaplessGaps(pat: Pattern, s: string, lo: nat, ms: seq<Match>)
    requires Gapless(pat, s, lo, ms)
    ensures NoMatchBetween(pat, s, lo, if |ms| == 0 then |s| + 1 else ms[0].start)
    ensures forall i :: 0 <= i < |ms| - 1 ==> NoMatchBetween(pat, s, ms[i].end, ms[i + 1].start)
    ensures |ms| > 0 ==> NoMatchBetween(pat, s, ms[|ms| - 1].end, |s| + 1)
    decreases |ms|
  {
    if |ms| > 0 {
      var rest := ms[1..];
      GaplessGaps(pat, s, ms[0].end, rest);
      forall i | 0 <= i < |ms| - 1
        ensures NoMatchBetween(pat, s, ms[i].end, ms[i + 1].start)
      {
        assert ms[i + 1] == rest[i];
        if i > 0 { assert ms[i] == rest[i - 1]; }
      }
      if |rest| > 0 {
        assert ms[|ms| - 1] == rest[|rest| - 1];
      }
    }
  }

  /** The search skips nothing: no match starts between the end of one
      match and the start of the next, or after the end of the last. */
  lemma MatchesFromGaps(pat: Pattern, s: string, pos: nat)
    requires pos <= |s|
    ensures var ms := MatchesFrom(pat, s, pos);
      forall i :: 0 <= i < |ms| - 1 ==> NoMatchBetween(pat, s, ms[i].end, ms[i + 1].start)
    ensures var ms := MatchesFrom(pat, s, pos);
      |ms| > 0 ==> NoMatchBetween(pat, s, ms[|ms| - 1].end, |s| + 1)
  {
    GaplessGaps(pat, s, pos, MatchesFrom(pat, s, pos));
  }

  function Matches(pat: Pattern, s: string): seq<Match> {
    MatchesFrom(pat, s, 0)
  }

  /** The replacement `lower(\1) CONTAINS '\2'` for a match. */
  function Rewrite(m: Match): (r: string)
    ensures |r| == |m.prop| + |m.literal| + 19
    ensures r[..6] == "lower(" && r[6..(6 + |m.prop|)] == m.prop
    ensures r[(6 + |m.prop|)..(18 + |m.prop|)] == ") CONTAINS '"
    ensures r[(18 + |m.prop|)..(|r| - 1)] == m.literal && r[|r| - 1] == '\''
  {
    var r := "lower(" + m.prop + ") CONTAINS '" + m.literal + "'";
    assert r[(6 + |m.prop|)..(18 + |m.prop|)] == ") CONTAINS '";
    r
  }

  /** The rewrite keeps both groups: a property without `)` and the
      literal can be read back from the rewritten text. */
  lemma RewriteKeepsGroups(m1: Match, m2: Match)
    requires ')' !in m1.prop && ')' !in m2.prop
    requires Rewrite(m1) == Rewrite(m2)
    ensures m1.prop == m2.prop && m1.literal == m2.literal
  {
    var r := Rewrite(m1);
    assert r == Rewrite(m2);
    if |m1.prop| < |m2.prop| {
      ParenInsideLonger(r, m1.prop, m2.prop);
      assert false;
    } else if |m2.prop| < |m1.prop| {
      ParenInsideLonger(r, m2.prop, m1.prop);
      assert false;
    }
  }

  /** When two properties both start at index 6 of `r` and the shorter one is
      followed by `)`, the longer one holds that `)`. */
  lemma ParenInsideLonger(r: string, short: string, long: string)
    requires |short| < |long| && 6 + |long| <= |r|
    requires r[6..(6 + |long|)] == long && 18 + |short| <= |r|
    requires r[(6 + |short|)..(18 + |short|)] == ") CONTAINS '"
    ensures ')' in long
  {
    assert r[6 + |short|] == r[(6 + |short|)..(18 + |short|)][0] == ')';
    assert long[|short|] == r[6 + |short|];
  }

  /** The start of the 20-character window before `start`. */
  function LookbackStart(start: nat): nat {
    if start >= 20 then start - 20 else 0
  }

  /** `'lower' in result[max(0, start-20):start].lower()`: some `lower`, in
      any case, lies wholly inside the 20 characters before `start`. */
  predicate LookbackHasLower(result: string, start: nat)
    ensures LookbackHasLower(result, start) <==>
      exists j :: LookbackStart(start) <= j && j + 5 <= start && StartsWithCI(result, j, "lower")
  {
    SliceContainsCI(result, LookbackStart(start), start, "lower");
    ContainsCI(Slice(result, LookbackStart(start), start), "lower")
  }

  /** The body of the `for match in matches` loop, over the remaining matches. */
  function ApplyMatches(result: string, ms: seq<Match>): (r: string)
    ensures |ms| == 0 ==> r == result
    decreases |ms|
  {
    if |ms| == 0 then result
    else
      var m := ms[0];
      var next := if LookbackHasLower(result, m.start) then result
                  else ReplaceFirst(result, m.text, Rewrite(m));
      ApplyMatches(next, ms[1..])
  }

  function EnforcePattern(s: string, pat: Pattern): string {
    ApplyMatches(s, Matches(pat, s))
  }

  /** `_enforce_lowercase_comparisons(query)`: the equality pattern first,
      then the CONTAINS pattern on its result. */
  function EnforceLowercaseComparisons(query: string): (r: string)
    ensures Quote !in query || '.' !in query ==> r == query
  {
    NoMatchWithoutQuoteOrDot(EqualsPattern, query);
    var afterEquals := EnforcePattern(query, EqualsPattern);
    NoMatchWithoutQuoteOrDot(ContainsPattern, afterEquals);
    EnforcePattern(afterEquals, ContainsPattern)
  }

  /** Every match holds a `.` and a `'`, so text lacking either is left alone. */
  lemma NoMatchWithoutQuoteOrDot(pat: Pattern, s: string)
    ensures Quote !in s || '.' !in s ==> EnforcePattern(s, pat) == s
  {
    var ms := Matches(pat, s);
    if |ms| > 0 {
      assert MatchAt(pat, s, ms[0].start) == Some(ms[0]);
    }
  }

  /** Matches whose 20-character look-back holds `lower` are all skipped:
      while nothing is rewritten the look-back reads the unchanged text. */
  lemma {:induction false} ApplySkipsAll(result: string, ms: seq<Match>)
    requires forall i :: 0 <= i < |ms| ==> LookbackHasLower(result, ms[i].start)
    ensures ApplyMatches(result, ms) == result
    decreases |ms|
  {
    if |ms| > 0 {
      ApplySkipsAll(result, ms[1..]);
    }
  }

  /** A pass changes nothing when every match has `lower` just before it. */
  lemma SkippedWhenLowerNearby(s: string, pat: Pattern)
    requires forall i :: 0 <= i < |Matches(pat, s)| ==> LookbackHasLower(s, Matches(pat, s)[i].start)
    ensures EnforcePattern(s, pat) == s
  {
    ApplySkipsAll(s, Matches(pat, s));
  }

  /** A rewritten comparison is not matched again at its property: the
      CONTAINS pattern is stopped by the `lower(` look-behind and the
      equality pattern by the `)` after the property. */
  lemma RewriteNotRematched(x: string, m: Match, y: string)
    requires IsProperty(m.prop)
    ensures
      var s := x + Rewrite(m) + y;
      MatchContainsAt(s, |x| + 6).None? && MatchEqualsAt(s, |x| + 6).None?
  {
    RewriteLaidOut(x, m, y);
    NotMatchedAfterLowerCall(x + Rewrite(m) + y, |x| + 6, m.prop);
  }

  /** A property right after `lower(` and right before `)` starts no match. */
  lemma NotMatchedAfterLowerCall(s: string, p: nat, prop: string)
    requires IsProperty(prop) && 6 <= p && p + |prop| < |s|
    requires s[p - 6..(p)] == "lower(" && s[p..(p + |prop|)] == prop && s[p + |prop|] == ')'
    ensures MatchContainsAt(s, p).None? && MatchEqualsAt(s, p).None?
  {
    var a := p + |prop|;
    assert LowerAscii("lower(") == "lower(";
    assert PrecededByLowerCall(s, p);
    PropertyRuns(s, p, a, prop);
    assert SpaceRunEnd(s, a) == a;
  }

  /** Where the pieces of a rewrite sit once it is spliced between `x` and `y`. */
  lemma RewriteLaidOut(x: string, m: Match, y: string)
    ensures
      var s := x + Rewrite(m) + y;
      var p := |x| + 6;
      && p + |m.prop| < |s| && s[|x|..(p)] == "lower("
      && s[p..(p + |m.prop|)] == m.prop && s[p + |m.prop|] == ')'
  {
    var r := Rewrite(m);
    var s := x + r + y;
    var p := |x| + 6;
    assert r == "lower(" + (m.prop + (") CONTAINS '" + m.literal + "'"));
    assert s[|x|..(|x| + |r|)] == r;
    assert r[..6] == "lower(" && r[6..(6 + |m.prop|)] == m.prop && r[6 + |m.prop|] == ')';
    assert s[|x|..(p)] == r[..6];
    assert s[p..(p + |m.prop|)] == r[6..(6 + |m.prop|)];
    assert s[p + |m.prop|] == r[6 + |m.prop|];
  }

  /** `n.name = 'Marie Curie'` is exactly one equality match. */
  lemma EqualsMatchesExample()
    ensures Matches(EqualsPattern, "n.name = 'Marie Curie'")
         == [Match(0, 22, "n.name = 'Marie Curie'", "n.name", "Marie Curie")]
  {
    var s := "n.name = 'Marie Curie'";
    EqualsExampleMatch();
    assert MatchesFrom(EqualsPattern, s, 22) == [];
  }

  /** The equality pattern matches the whole of `n.name = 'Marie Curie'`. */
  lemma EqualsExampleMatch()
    ensures MatchEqualsAt("n.name = 'Marie Curie'", 0)
         == Some(Match(0, 22, "n.name = 'Marie Curie'", "n.name", "Marie Curie"))
  {
    ExampleLaidOut();
    EqualsMatchComplete("n.name = 'Marie Curie'", 0, "n.name", " ", " ", "Marie Curie");
  }

  /** The groups and layout of `n.name = 'Marie Curie'`. */
  lemma ExampleLaidOut()
    ensures IsProperty("n.name") && IsLiteral("Marie Curie") && AllSpace(" ")
    ensures "n.name" + (" " + ("=" + (" " + ("'" + ("Marie Curie" + "'"))))) == "n.name = 'Marie Curie'"
    ensures |"n.name = 'Marie Curie'"| == 22
    ensures LaidOutAt("n.name = 'Marie Curie'", 0, "n.name = 'Marie Curie'")
  {
    var s := "n.name = 'Marie Curie'";
    assert "n.name"[..1] == "n" && "n.name"[2..] == "name";
    assert "n.name" + (" " + ("=" + (" " + ("'" + ("Marie Curie" + "'"))))) == s;
    assert s[0..|s|] == s;
  }

  /** The equality pass turns `n.name = 'Marie Curie'` into a
      case-insensitive CONTAINS on the lower-cased property. */
  lemma EqualsPassExample()
    ensures EnforcePattern("n.name = 'Marie Curie'", EqualsPattern)
         == "lower(n.name) CONTAINS 'Marie Curie'"
  {
    var s := "n.name = 'Marie Curie'";
    var m := Match(0, 22, s, "n.name", "Marie Curie");
    EqualsMatchesExample();
    NothingBeforeStart(s);
    ApplySingle(s, m);
    ReplaceWhole(s, Rewrite(m));
    RewriteMarieCurie(m);
  }

  /** Nothing lies before the start of the text, so no `lower` either. */
  lemma NothingBeforeStart(s: string)
    ensures !LookbackHasLower(s, 0)
  {
    assert Slice(s, 0, 0) == [];
    assert LowerAscii([]) == [];
  }

  /** A single match without `lower` before it is rewritten once. */
  lemma ApplySingle(s: string, m: Match)
    requires !LookbackHasLower(s, m.start)
    ensures ApplyMatches(s, [m]) == ReplaceFirst(s, m.text, Rewrite(m))
  {
    assert [m][1..] == [];
  }

  /** Replacing a whole text by `rep` gives `rep`. */
  lemma ReplaceWhole(s: string, rep: string)
    requires |s| > 0
    ensures ReplaceFirst(s, s, rep) == rep
  {
    assert OccursAt(s, s, 0);
    assert Find(s, s) == Some(0);
    assert s[..0] == [] && s[|s|..] == [];
  }

  lemma RewriteMarieCurie(m: Match)
    requires m.prop == "n.name" && m.literal == "Marie Curie"
    ensures Rewrite(m) == "lower(n.name) CONTAINS 'Marie Curie'"
  {
    RewriteSpelled(m);
    MarieCurieSpelled();
  }

  lemma MarieCurieSpelled()
    ensures "lower(" + "n.name" + ") CONTAINS '" + "Marie Curie" + "'" == "lower(n.name) CONTAINS 'Marie Curie'"
  {
  }

  lemma RewriteSpelled(m: Match)
    ensures Rewrite(m) == "lower(" + m.prop + ") CONTAINS '" + m.literal + "'"
  {
  }

  /** Completeness of `EqualsPattern`: text of the comparison shape at `p`
      is matched there, with exactly these groups. */
  lemma EqualsMatchComplete(s: string, p: nat, prop: string, ws1: string, ws2: string, literal: string)
    requires IsProperty(prop) && IsLiteral(literal) && AllSpace(ws1) && AllSpace(ws2)
    requires LaidOutAt(s, p, prop + (ws1 + ("=" + (ws2 + ("'" + (literal + "'"))))))
    ensures
      var text := prop + (ws1 + ("=" + (ws2 + ("'" + (literal + "'")))));
      MatchEqualsAt(s, p) == Some(Match(p, p + |text|, text, prop, literal))
  {
    var a := p + |prop|;
    var b := a + |ws1|;
    var c := b + 1 + |ws2|;
    var e := c + |literal| + 2;
    EqualsLayout(s, p, prop, ws1, ws2, literal, a, b, c, e);
    EqualsMatchFromCuts(s, p, a, b, c, e);
  }

  /** Where the pieces of a laid-out equality comparison sit in `s`. */
  lemma EqualsLayout(s: string, p: nat, prop: string, ws1: string, ws2: string, literal: string, a: nat, b: nat, c: nat, e: nat)
    requires AllSpace(ws1) && |literal| > 0
    requires a == p + |prop| && b == a + |ws1| && c == b + 1 + |ws2| && e == c + |literal| + 2
    requires LaidOutAt(s, p, prop + (ws1 + ("=" + (ws2 + ("'" + (literal + "'"))))))
    ensures e == p + |prop + (ws1 + ("=" + (ws2 + ("'" + (literal + "'")))))|
    ensures p <= a <= b < c && c + 1 < e - 1 && e <= |s|
    ensures s[p..(a)] == prop && s[a..(b)] == ws1 && s[b] == '=' && s[b + 1..(c)] == ws2
    ensures s[c] == Quote && s[c + 1..(e - 1)] == literal && s[e - 1] == Quote
    ensures !IsWordChar(s[a])
  {
    var r4 := "'" + (literal + "'");
    var r3 := ws2 + r4;
    var r2 := "=" + r3;
    assert p + |prop + (ws1 + r2)| == e;
    HeadSlices(s, p, e, prop, ws1, r2);
    assert s[b + 1..e] == r3 && s[b] == '=' by { SliceHead(s, b, e, "=", r3); assert s[b] == s[b..e][0]; }
    SliceHead(s, b + 1, e, ws2, r4);
    QuotedSlice(s, c, e, literal);
  }

  /** `MatchEqualsAt` at `p` over a laid-out comparison with cut points
      `a` (end of property), `b` (the `=`), `c` (opening quote), `e` (end). */
  lemma EqualsMatchFromCuts(s: string, p: nat, a: nat, b: nat, c: nat, e: nat)
    requires p <= a <= b < c && c + 1 < e - 1 && e <= |s|
    requires IsProperty(s[p..(a)]) && !IsWordChar(s[a])
    requires AllSpace(s[a..(b)]) && s[b] == '=' && AllSpace(s[b + 1..(c)]) && s[c] == Quote
    requires Quote !in s[c + 1..(e - 1)] && s[e - 1] == Quote
    ensures MatchEqualsAt(s, p) == Some(Match(p, e, s[p..(e)], s[p..(a)], s[c + 1..(e - 1)]))
  {
    PropertyRuns(s, p, a, s[p..a]);
    SpaceRunEndAt(s, a, b);
    SpaceRunEndAt(s, b + 1, c);
    QuoteFreeRunEndAt(s, c + 1, e - 1);
    EqualsMatchAtCuts(s, p, a, b, c, e);
  }

  /** `MatchEqualsAt` once the ends of its runs are known. */
  lemma EqualsMatchAtCuts(s: string, p: nat, a: nat, b: nat, c: nat, e: nat)
    requires p <= |s| && PropertyEnd(s, p) == Some(a)
    requires a <= |s| && SpaceRunEnd(s, a) == b && b < |s| && s[b] == '='
    requires SpaceRunEnd(s, b + 1) == c && c < |s| && s[c] == Quote
    requires c + 1 < e - 1 < |s| && QuoteFreeRunEnd(s, c + 1) == e - 1
    ensures MatchEqualsAt(s, p) == Some(Match(p, e, s[p..(e)], s[p..(a)], s[c + 1..(e - 1)]))
  {
    QuotedEndAt(s, c, e);
    EqualsUnfold(s, p, a, b, c, e);
  }

  /** `MatchEqualsAt` once each of its steps is known. */
  lemma EqualsUnfold(s: string, p: nat, a: nat, b: nat, c: nat, e: nat)
    requires p <= |s| && PropertyEnd(s, p) == Some(a)
    requires SpaceRunEnd(s, a) == b && b < |s| && s[b] == '='
    requires SpaceRunEnd(s, b + 1) == c && QuotedEnd(s, c) == Some(e)
    ensures MatchEqualsAt(s, p) == Some(Match(p, e, s[p..(e)], s[p..(a)], s[c + 1..(e - 1)]))
  {
    var r := MatchEqualsAt(s, p);
    assert PropertyEnd(s, p).Some? && PropertyEnd(s, p).value == a;
    assert !(b >= |s| || s[b] != '=');
    assert r.Some?;
    assert r.value.end == e;
    assert r.value.prop == s[p..a];
    assert r.value.literal == s[c + 1..e - 1];
  }

  /** What `QuotedEnd` promises, for a known end. */
  lemma QuotedEndSound(s: string, c: nat, e: nat)
    requires c <= |s| && QuotedEnd(s, c) == Some(e)
    ensures c + 3 <= e <= |s| && s[c] == Quote && s[e - 1] == Quote
    ensures IsLiteral(s[c + 1..(e - 1)])
  {
    var r := QuotedEnd(s, c);
    assert r.value == e;
  }

  /** `QuotedEnd` once the end of its quote-free run is known. */
  lemma QuotedEndAt(s: string, c: nat, e: nat)
    requires c < |s| && s[c] == Quote
    requires c + 1 < e - 1 < |s| && QuoteFreeRunEnd(s, c + 1) == e - 1
    ensures QuotedEnd(s, c) == Some(e)
  {
  }

  /** Completeness of `ContainsPattern`: text of the comparison shape at `p`,
      not preceded by `lower(`, is matched there, with exactly these groups. */
  lemma ContainsMatchComplete(s: string, p: nat, prop: string, ws1: string, kw: string, ws2: string, literal: string)
    requires IsProperty(prop) && IsLiteral(literal) && AllSpace(ws1) && AllSpace(ws2)
    requires |ws1| > 0 && |ws2| > 0 && LowerAscii(kw) == "contains"
    requires LaidOutAt(s, p, prop + (ws1 + (kw + (ws2 + ("'" + (literal + "'"))))))
    requires !PrecededByLowerCall(s, p)
    ensures
      var text := prop + (ws1 + (kw + (ws2 + ("'" + (literal + "'")))));
      MatchContainsAt(s, p) == Some(Match(p, p + |text|, text, prop, literal))
  {
    var a := p + |prop|;
    var b := a + |ws1|;
    var c := b + |kw| + |ws2|;
    var e := c + |literal| + 2;
    ContainsLayout(s, p, prop, ws1, kw, ws2, literal, a, b, c, e);
    ContainsMatchFromCuts(s, p, a, b, c, e);
  }

  /** Where the pieces of a laid-out CONTAINS comparison sit in `s`. */
  lemma ContainsLayout(s: string, p: nat, prop: string, ws1: string, kw: string, ws2: string, literal: string,
                       a: nat, b: nat, c: nat, e: nat)
    requires AllSpace(ws1) && |ws1| > 0 && |ws2| > 0 && |literal| > 0 && LowerAscii(kw) == "contains"
    requires a == p + |prop| && b == a + |ws1| && c == b + |kw| + |ws2| && e == c + |literal| + 2
    requires LaidOutAt(s, p, prop + (ws1 + (kw + (ws2 + ("'" + (literal + "'"))))))
    ensures e == p + |prop + (ws1 + (kw + (ws2 + ("'" + (literal + "'")))))|
    ensures p <= a < b && b + 8 < c && c + 1 < e - 1 && e <= |s|
    ensures s[p..(a)] == prop && s[a..(b)] == ws1 && s[b..(b + 8)] == kw && s[b + 8..(c)] == ws2
    ensures s[c] == Quote && s[c + 1..(e - 1)] == literal && s[e - 1] == Quote
    ensures !IsWordChar(s[a])
  {
    var r4 := "'" + (literal + "'");
    var r3 := ws2 + r4;
    var r2 := kw + r3;
    assert |kw| == 8 by { assert |LowerAscii(kw)| == |kw|; }
    assert p + |prop + (ws1 + r2)| == e;
    HeadSlices(s, p, e, prop, ws1, r2);
    SliceHead(s, b, e, kw, r3);
    SliceHead(s, b + 8, e, ws2, r4);
    QuotedSlice(s, c, e, literal);
  }

  /** `MatchContainsAt` at `p` over a laid-out comparison with cut points
      `a` (end of property), `b` (the keyword), `c` (opening quote), `e` (end). */
  lemma ContainsMatchFromCuts(s: string, p: nat, a: nat, b: nat, c: nat, e: nat)
    requires p <= a < b && b + 8 < c && c + 1 < e - 1 && e <= |s|
    requires IsProperty(s[p..(a)]) && !IsWordChar(s[a]) && !PrecededByLowerCall(s, p)
    requires AllSpace(s[a..(b)]) && LowerAscii(s[b..(b + 8)]) == "contains"
    requires AllSpace(s[b + 8..(c)]) && s[c] == Quote
    requires Quote !in s[c + 1..(e - 1)] && s[e - 1] == Quote
    ensures MatchContainsAt(s, p) == Some(Match(p, e, s[p..(e)], s[p..(a)], s[c + 1..(e - 1)]))
  {
    PropertyRuns(s, p, a, s[p..a]);
    assert !IsSpace(s[b]) by {
      assert AsciiLowerChar(s[b]) == LowerAscii(s[b..b + 8])[0] == 'c';
    }
    SpaceRunEndAt(s, a, b);
    SpaceRunEndAt(s, b + 8, c);
    QuoteFreeRunEndAt(s, c + 1, e - 1);
    ContainsMatchAtCuts(s, p, a, b, c, e);
  }

  /** `MatchContainsAt` once the ends of its runs are known. */
  lemma ContainsMatchAtCuts(s: string, p: nat, a: nat, b: nat, c: nat, e: nat)
    requires p <= |s| && !PrecededByLowerCall(s, p) && PropertyEnd(s, p) == Some(a)
    requires a < b && SpaceRunEnd(s, a) == b && StartsWithCI(s, b, "contains")
    requires b + 8 < c < |s| && SpaceRunEnd(s, b + 8) == c && s[c] == Quote
    requires c + 1 < e - 1 < |s| && QuoteFreeRunEnd(s, c + 1) == e - 1
    ensures MatchContainsAt(s, p) == Some(Match(p, e, s[p..(e)], s[p..(a)], s[c + 1..(e - 1)]))
  {
    QuotedEndAt(s, c, e);
    ContainsUnfold(s, p, a, b, c, e);
  }

  /** `MatchContainsAt` once each of its steps is known. */
  lemma ContainsUnfold(s: string, p: nat, a: nat, b: nat, c: nat, e: nat)
    requires p <= |s| && !PrecededByLowerCall(s, p) && PropertyEnd(s, p) == Some(a)
    requires a < b && SpaceRunEnd(s, a) == b && StartsWithCI(s, b, "contains")
    requires b + 8 < c && SpaceRunEnd(s, b + 8) == c && QuotedEnd(s, c) == Some(e)
    ensures MatchContainsAt(s, p) == Some(Match(p, e, s[p..(e)], s[p..(a)], s[c + 1..(e - 1)]))
  {
    var r := MatchContainsAt(s, p);
    assert PropertyEnd(s, p).Some? && PropertyEnd(s, p).value == a;
    assert r.Some?;
    assert r.value.end == e;
    assert r.value.prop == s[p..a];
    assert r.value.literal == s[c + 1..e - 1];
  }

  /** A run of `\w+\.\w+` laid at `p` ends, as `PropertyEnd` sees it, at
      its last character when a non-word character follows. */
  lemma PropertyRuns(s: string, p: nat, a: nat, prop: string)
    requires p <= a < |s| && s[p..(a)] == prop && IsProperty(prop) && !IsWordChar(s[a])
    ensures PropertyEnd(s, p) == Some(a)
  {
    var d :| 0 < d < |prop| - 1 && prop[d] == '.' && AllWord(prop[..d]) && AllWord(prop[d + 1..]);
    PropertyRunsAt(s, p, a, d);
  }

  lemma PropertyRunsAt(s: string, p: nat, a: nat, d: nat)
    requires p + d + 1 < a < |s| && !IsWordChar(s[a])
    requires 0 < d && s[p + d] == '.' && AllWord(s[p..a][..d]) && AllWord(s[p..a][d + 1..])
    ensures PropertyEnd(s, p) == Some(a)
  {
    assert s[p..(p + d)] == s[p..(a)][..d];
    assert s[p + d + 1..(a)] == s[p..(a)][d + 1..];
    WordRunEndAt(s, p, p + d);
    WordRunEndAt(s, p + d + 1, a);
    PropertyEndAt(s, p, p + d, a);
  }

  lemma SliceHead(s: string, i: nat, e: nat, x: string, y: string)
    requires i + |x| <= e <= |s| && s[i..(e)] == x + y
    ensures s[i..(i + |x|)] == x && s[i + |x|..(e)] == y
  {
    assert s[i..i + |x|] == s[i..e][..|x|];
    assert s[i + |x|..e] == s[i..e][|x|..];
  }

  /** A property, a whitespace gap and the rest laid out from `p`: the
      gap starts at a non-word character. */
  lemma HeadSlices(s: string, p: nat, e: nat, prop: string, ws: string, rest: string)
    requires p + |prop| + |ws| + |rest| == e <= |s| && s[p..(e)] == prop + (ws + rest)
    requires AllSpace(ws) && |ws| + |rest| > 0
    requires |ws| > 0 || !IsWordChar(rest[0])
    ensures s[p..(p + |prop|)] == prop && s[p + |prop|..(p + |prop| + |ws|)] == ws
    ensures s[p + |prop| + |ws|..(e)] == rest
    ensures !IsWordChar(s[p + |prop|])
  {
    SliceHead(s, p, e, prop, ws + rest);
    SliceHead(s, p + |prop|, e, ws, rest);
    GapStartNotWord(s, p + |prop|, e, ws, rest);
  }

  /** `'literal'` laid out from `c` to `e`. */
  lemma QuotedSlice(s: string, c: nat, e: nat, literal: string)
    requires c + |literal| + 2 == e <= |s| && s[c..(e)] == "'" + (literal + "'")
    ensures s[c] == Quote && s[c + 1..(e - 1)] == literal && s[e - 1] == Quote
  {
    SliceHead(s, c, e, "'", literal + "'");
    assert s[c] == s[c..e][0];
    SliceHead(s, c + 1, e, literal, "'");
    assert s[e - 1] == s[e - 1..e][0];
  }

  /** `PropertyEnd` from the ends of its two word runs. */
  lemma PropertyEndAt(s: string, p: nat, j1: nat, j2: nat)
    requires p < j1 < |s| && WordRunEnd(s, p) == j1 && s[j1] == '.'
    requires j1 + 1 < j2 <= |s| && WordRunEnd(s, j1 + 1) == j2
    ensures PropertyEnd(s, p) == Some(j2)
  {
  }

  /** After a property, spaces or the next symbol leave no word character. */
  lemma GapStartNotWord(s: string, a: nat, e: nat, ws: string, rest: string)
    requires a <= e <= |s| && s[a..(e)] == ws + rest && AllSpace(ws)
    requires |ws| > 0 || (|rest| > 0 && !IsWordChar(rest[0]))
    ensures a < |s| && !IsWordChar(s[a])
  {
    assert s[a] == s[a..e][0];
    if |ws| > 0 {
      assert IsSpace(ws[0]);
    }
  }

  lemma WordRunEndAt(s: string, i: nat, j: nat)
    requires i <= j < |s| && AllWord(s[i..(j)]) && !IsWordChar(s[j])
    ensures WordRunEnd(s, i) == j
    decreases j - i
  {
    if i < j {
      assert s[i + 1..j] == s[i..j][1..];
      WordRunEndAt(s, i + 1, j);
    }
  }

  lemma SpaceRunEndAt(s: string, i: nat, j: nat)
    requires i <= j < |s| && AllSpace(s[i..(j)]) && !IsSpace(s[j])
    ensures SpaceRunEnd(s, i) == j
    decreases j - i
  {
    if i < j {
      assert s[i + 1..j] == s[i..j][1..];
      SpaceRunEndAt(s, i + 1, j);
    }
  }

  lemma QuoteFreeRunEndAt(s: string, i: nat, j: nat)
    requires i <= j < |s| && Quote !in s[i..(j)] && s[j] == Quote
    ensures QuoteFreeRunEnd(s, i) == j
    decreases j - i
  {
    if i < j {
      assert s[i + 1..j] == s[i..j][1..];
      QuoteFreeRunEndAt(s, i + 1, j);
    }
  }
}
