/** String primitives the validator, the repairer and the tracker are built on.

    Python's `str` methods and the few regular-expression classes the source
    uses are defined here once: whitespace as `str.isspace` and `\s` see it,
    `\w` restricted to ASCII, ASCII case folding, `strip`, `rstrip(c)`,
    `replace` (all occurrences and first occurrence), `split(',')`, `join`,
    clamped slicing and decimal rendering of integers.
 */
module Text {
  import opened Wrappers

  /** Python's whitespace: the characters `str.isspace()` accepts and `\s`
      matches in a `str` pattern. */
  predicate IsSpace(c: char) {
    || c == ' ' || c == '\t' || c == '\n' || c == '\r'
    || c == '\U{000B}' || c == '\U{000C}'
    || ('\U{001C}' <= c <= '\U{001F}')
    || c == '\U{0085}' || c == '\U{00A0}' || c == '\U{1680}'
    || ('\U{2000}' <= c <= '\U{200A}')
    || c == '\U{2028}' || c == '\U{2029}' || c == '\U{202F}' || c == '\U{205F}'
    || c == '\U{3000}'
  }

  predicate IsAsciiLetter(c: char) {
    ('a' <= c <= 'z') || ('A' <= c <= 'Z')
  }

  predicate IsAsciiDigit(c: char) {
    '0' <= c <= '9'
  }

  /** The regular-expression class `\w`, restricted to ASCII. */
  predicate IsWordChar(c: char) {
    IsAsciiLetter(c) || IsAsciiDigit(c) || c == '_'
  }

  predicate AllSpace(s: string) {
    forall i :: 0 <= i < |s| ==> IsSpace(s[i])
  }

  predicate NoSpace(s: string) {
    forall i :: 0 <= i < |s| ==> !IsSpace(s[i])
  }

  /** Every whitespace character is a plain space and no two whitespace
      characters are adjacent: the shape `re.sub(r'\s+', ' ', s)` leaves. */
  predicate NoSpaceRuns(s: string) {
    && (forall i :: 0 <= i < |s| && IsSpace(s[i]) ==> s[i] == ' ')
    && (forall i :: 0 <= i < |s| - 1 && IsSpace(s[i]) ==> !IsSpace(s[i + 1]))
  }

  function AsciiLowerChar(c: char): (r: char)
    ensures 'A' <= c <= 'Z' ==> r as int == c as int + 32
    ensures !('A' <= c <= 'Z') ==> r == c
  {
    if 'A' <= c <= 'Z' then (c as int + 32) as char else c
  }

  /** `s.lower()` as far as ASCII letters are concerned. */
  function LowerAscii(s: string): (r: string)
    ensures |r| == |s|
    ensures forall i :: 0 <= i < |s| ==> r[i] == AsciiLowerChar(s[i])
  {
    seq(|s|, i requires 0 <= i < |s| => AsciiLowerChar(s[i]))
  }

  /** `sub` occurs in `s` at position `i`. */
  predicate OccursAt(s: string, sub: string, i: int) {
    0 <= i && i + |sub| <= |s| && s[i..(i + |sub|)] == sub
  }

  /** Python's `sub in s`. */
  predicate Contains(s: string, sub: string) {
    exists i | 0 <= i <= |s| - |sub| :: OccursAt(s, sub, i)
  }

  /** `needle in s.lower()`, for a lower-case ASCII needle. */
  predicate ContainsCI(s: string, needle: string) {
    Contains(LowerAscii(s), needle)
  }

  /** A needle occurs, in any case, in a window of `s` exactly when it
      starts somewhere in the window and ends inside it. */
  lemma ContainsCIWindow(s: string, lo: nat, hi: nat, needle: string)
    requires lo <= hi <= |s|
    ensures ContainsCI(s[lo..(hi)], needle) <==>
      exists j :: lo <= j && j + |needle| <= hi && StartsWithCI(s, j, needle)
  {
    var w := LowerAscii(s[lo..(hi)]);
    if ContainsCI(s[lo..(hi)], needle) {
      var i :| 0 <= i <= |w| - |needle| && OccursAt(w, needle, i);
      WindowHit(s, lo, hi, needle, i);
    }
    if exists j :: lo <= j && j + |needle| <= hi && StartsWithCI(s, j, needle) {
      var j :| lo <= j && j + |needle| <= hi && StartsWithCI(s, j, needle);
      WindowFind(s, lo, hi, needle, j);
    }
  }

  /** `needle in s[lo:hi].lower()`, with Python's clamped slice bounds. */
  lemma SliceContainsCI(s: string, lo: nat, hi: nat, needle: string)
    requires |needle| > 0
    ensures ContainsCI(Slice(s, lo, hi), needle) <==>
      exists j :: lo <= j && j + |needle| <= hi && StartsWithCI(s, j, needle)
  {
    var b := if hi < |s| then hi else |s|;
    var a := if lo < b then lo else b;
    assert Slice(s, lo, hi) == s[a..(b)];
    ContainsCIWindow(s, a, b, needle);
    if exists j :: lo <= j && j + |needle| <= hi && StartsWithCI(s, j, needle) {
      var j :| lo <= j && j + |needle| <= hi && StartsWithCI(s, j, needle);
      assert a <= j && j + |needle| <= b;
    }
  }

  lemma WindowHit(s: string, lo: nat, hi: nat, needle: string, i: nat)
    requires lo <= hi <= |s| && OccursAt(LowerAscii(s[lo..(hi)]), needle, i)
    ensures lo + i + |needle| <= hi && StartsWithCI(s, lo + i, needle)
  {
    WindowLower(s, lo, hi, i, |needle|);
  }

  lemma WindowFind(s: string, lo: nat, hi: nat, needle: string, j: nat)
    requires lo <= j && j + |needle| <= hi <= |s| && StartsWithCI(s, j, needle)
    ensures ContainsCI(s[lo..(hi)], needle)
  {
    WindowLower(s, lo, hi, j - lo, |needle|);
    assert OccursAt(LowerAscii(s[lo..(hi)]), needle, j - lo);
  }

  lemma WindowLower(s: string, lo: nat, hi: nat, i: nat, n: nat)
    requires lo <= hi <= |s| && i + n <= hi - lo
    ensures LowerAscii(s[lo..(hi)])[i..(i + n)] == LowerAscii(s[(lo + i)..(lo + i + n)])
  {
    var a, b := LowerAscii(s[lo..(hi)])[i..(i + n)], LowerAscii(s[(lo + i)..(lo + i + n)]);
    forall k | 0 <= k < n ensures a[k] == b[k] {
      assert a[k] == LowerAscii(s[lo..(hi)])[i + k] == AsciiLowerChar(s[lo..(hi)][i + k]);
      assert b[k] == AsciiLowerChar(s[(lo + i)..(lo + i + n)][k]);
    }
  }

  /** `s[i:].lower().startswith(needle)` for a lower-case ASCII needle. */
  predicate StartsWithCI(s: string, i: nat, needle: string) {
    i + |needle| <= |s| && LowerAscii(s[i..(i + |needle|)]) == needle
  }

  /** First occurrence of `sub` in `s` at or after `from` (`s.find(sub, from)`). */
  function FindFrom(s: string, sub: string, from: nat): (r: Option<nat>)
    ensures r.Some? ==> from <= r.value && OccursAt(s, sub, r.value)
    ensures r.Some? ==> forall j :: from <= j < r.value ==> !OccursAt(s, sub, j)
    ensures r.None? ==> forall j :: from <= j ==> !OccursAt(s, sub, j)
    decreases |s| - from
  {
    if from + |sub| > |s| then None
    else if s[from..(from + |sub|)] == sub then Some(from)
    else FindFrom(s, sub, from + 1)
  }

  function Find(s: string, sub: string): (r: Option<nat>)
    ensures r.Some? <==> Contains(s, sub)
    ensures r.Some? ==> OccursAt(s, sub, r.value)
    ensures r.Some? ==> forall j :: 0 <= j < r.value ==> !OccursAt(s, sub, j)
  {
    FindFrom(s, sub, 0)
  }

  /** `s.lstrip()`: drops the leading whitespace. */
  function LStrip(s: string): (r: string)
    ensures |r| <= |s| && r == s[|s| - |r|..]
    ensures AllSpace(s[..|s| - |r|])
    ensures r == [] || !IsSpace(r[0])
    decreases |s|
  {
    if |s| > 0 && IsSpace(s[0]) then
      var r := LStrip(s[1..]);
      assert s[..|s| - |r|] == [s[0]] + s[1..][..|s[1..]| - |r|];
      r
    else s
  }

  /** `s.rstrip()`: drops the trailing whitespace. */
  function RStrip(s: string): (r: string)
    ensures |r| <= |s| && r == s[..|r|]
    ensures AllSpace(s[|r|..])
    ensures r == [] || !IsSpace(r[|r| - 1])
    decreases |s|
  {
    if |s| > 0 && IsSpace(s[|s| - 1]) then
      var r := RStrip(s[..|s| - 1]);
      assert s[|r|..] == s[..|s| - 1][|r|..] + [s[|s| - 1]];
      r
    else s
  }

  /** `s.strip()`: the text between a leading and a trailing whitespace run,
      neither end of which is whitespace. */
  function Strip(s: string): (r: string)
    ensures |r| <= |s|
    ensures r == [] || (!IsSpace(r[0]) && !IsSpace(r[|r| - 1]))
    ensures exists i :: BetweenSpaces(s, r, i)
  {
    var t := LStrip(s);
    var r := RStrip(t);
    TrimmedBetweenSpaces(s, t, r);
    r
  }

  /** What remains after trimming whitespace off the front, giving `t`, and
      then off the back, giving `r`, lies between whitespace in `s`. */
  lemma TrimmedBetweenSpaces(s: string, t: string, r: string)
    requires |t| <= |s| && t == s[|s| - |t|..] && AllSpace(s[..|s| - |t|])
    requires |r| <= |t| && r == t[..|r|] && AllSpace(t[|r|..])
    ensures BetweenSpaces(s, r, |s| - |t|)
  {
    var i := |s| - |t|;
    assert s[i..(i + |r|)] == t[..|r|];
    var after := s[(i + |r|)..];
    forall k | 0 <= k < |after| ensures IsSpace(after[k]) {
      assert after[k] == t[|r|..][k];
    }
  }

  /** `r` occurs in `s` at `i`, with only whitespace before and after it. */
  predicate BetweenSpaces(s: string, r: string, i: int) {
    0 <= i <= |s| - |r| && r == s[i..(i + |r|)] && AllSpace(s[..(i)]) && AllSpace(s[(i + |r|)..])
  }

  /** `s.rstrip(c)`: drops every trailing `c`. */
  function RStripChar(s: string, c: char): (r: string)
    ensures |r| <= |s| && r == s[..|r|]
    ensures forall i :: |r| <= i < |s| ==> s[i] == c
    ensures r == [] || r[|r| - 1] != c
    decreases |s|
  {
    if |s| > 0 && s[|s| - 1] == c then RStripChar(s[..|s| - 1], c) else s
  }

  /** The non-whitespace characters of `s`, in order. */
  function NonSpace(s: string): (r: string)
    ensures |r| <= |s|
    ensures NoSpace(r)
  {
    if |s| == 0 then []
    else if IsSpace(s[0]) then NonSpace(s[1..])
    else [s[0]] + NonSpace(s[1..])
  }

  /** `re.sub(r'\s+', ' ', s)`: each maximal whitespace run becomes one space. */
  function Collapse(s: string): (r: string)
    ensures NoSpaceRuns(r)
    ensures NonSpace(r) == NonSpace(s)
    ensures |r| == 0 <==> |s| == 0
    ensures |s| > 0 ==> (IsSpace(r[0]) <==> IsSpace(s[0]))
    ensures NoSpace(s) ==> r == s
    ensures |s| > 0 && AllSpace(s) ==> r == " "
    decreases |s|
  {
    if |s| == 0 then []
    else if IsSpace(s[0]) then
      var t := LStrip(s);
      var rest := Collapse(t);
      CollapseSpaceStep(s, t, rest);
      [' '] + rest
    else
      var rest := Collapse(s[1..]);
      CollapseWordStep(s, rest);
      [s[0]] + rest
  }

  /** The facts `Collapse` promises about its result `r` for input `s`. */
  predicate CollapsedFrom(s: string, r: string) {
    && NoSpaceRuns(r)
    && NonSpace(r) == NonSpace(s)
    && (|r| == 0 <==> |s| == 0)
    && (|s| > 0 && |r| > 0 ==> (IsSpace(r[0]) <==> IsSpace(s[0])))
    && (NoSpace(s) ==> r == s)
    && (|s| > 0 && AllSpace(s) ==> r == " ")
  }

  /** A leading whitespace run becomes one space before the collapsed rest. */
  lemma CollapseSpaceStep(s: string, t: string, rest: string)
    requires |s| > 0 && IsSpace(s[0])
    requires |t| <= |s| && t == s[|s| - |t|..] && AllSpace(s[..|s| - |t|])
    requires t == [] || !IsSpace(t[0])
    requires CollapsedFrom(t, rest)
    ensures CollapsedFrom(s, [' '] + rest)
  {
    NonSpaceOfSpacesPrefix(s, |s| - |t|);
    NoSpaceRunsConcat([' '], rest);
    NonSpaceConcat([' '], rest);
  }

  /** A leading non-whitespace character is kept before the collapsed rest. */
  lemma CollapseWordStep(s: string, rest: string)
    requires |s| > 0 && !IsSpace(s[0])
    requires CollapsedFrom(s[1..], rest)
    ensures CollapsedFrom(s, [s[0]] + rest)
  {
    NoSpaceRunsConcat([s[0]], rest);
    NonSpaceConcat([s[0]], rest);
    assert s == [s[0]] + s[1..];
    if NoSpace(s) {
      assert NoSpace(s[1..]);
    }
  }

  lemma NonSpaceConcat(a: string, b: string)
    ensures NonSpace(a + b) == NonSpace(a) + NonSpace(b)
    decreases |a|
  {
    if |a| > 0 {
      assert (a + b)[1..] == a[1..] + b;
      NonSpaceConcat(a[1..], b);
    } else {
      assert a + b == b;
    }
  }

  /** Dropping a whitespace prefix of length `k` leaves the non-whitespace
      characters unchanged. */
  lemma NonSpaceOfSpacesPrefix(s: string, k: nat)
    requires k <= |s| && AllSpace(s[..(k)])
    ensures NonSpace(s) == NonSpace(s[k..])
    decreases k
  {
    if k > 0 {
      assert s[1..][..k - 1] == s[1..k];
      NonSpaceOfSpacesPrefix(s[1..], k - 1);
      assert s[1..][k - 1..] == s[k..];
    }
  }

  lemma NoSpaceRunsConcat(a: string, b: string)
    requires NoSpaceRuns(a) && NoSpaceRuns(b)
    requires |a| > 0 && |b| > 0 ==> !(IsSpace(a[|a| - 1]) && IsSpace(b[0]))
    ensures NoSpaceRuns(a + b)
  {
    var ab := a + b;
    forall i | 0 <= i < |ab| - 1 && IsSpace(ab[i])
      ensures !IsSpace(ab[i + 1])
    {
      if i < |a| - 1 {
        assert ab[i] == a[i] && ab[i + 1] == a[i + 1];
      } else if i == |a| - 1 {
        assert ab[i] == a[|a| - 1] && ab[i + 1] == b[0];
      } else {
        assert ab[i] == b[i - |a|] && ab[i + 1] == b[i - |a| + 1];
      }
    }
  }

  /** A string is all whitespace when its head and its tail are. */
  lemma AllSpaceCons(a: string)
    requires |a| > 0
    ensures AllSpace(a) <==> IsSpace(a[0]) && AllSpace(a[1..])
  {
    if IsSpace(a[0]) && AllSpace(a[1..]) {
      forall i | 0 <= i < |a| ensures IsSpace(a[i]) {
        if i > 0 { assert a[i] == a[1..][i - 1]; }
      }
    }
  }

  /** Dropping leading whitespace from a concatenation: all of `a` goes when
      it is all whitespace, otherwise only its own leading run. */
  lemma {:induction false} LStripConcat(a: string, b: string)
    ensures AllSpace(a) ==> LStrip(a + b) == LStrip(b)
    ensures !AllSpace(a) ==> LStrip(a + b) == LStrip(a) + b
    decreases |a|
  {
    if |a| == 0 {
      assert a + b == b;
    } else if IsSpace(a[0]) {
      assert (a + b)[0] == a[0] && (a + b)[1..] == a[1..] + b;
      assert LStrip(a + b) == LStrip(a[1..] + b);
      assert LStrip(a) == LStrip(a[1..]);
      AllSpaceCons(a);
      LStripConcat(a[1..], b);
    } else {
      assert (a + b)[0] == a[0];
    }
  }

  /** A cut outside every whitespace run commutes with the collapse.
      Together with the whitespace-free and all-whitespace cases of
      `Collapse`, this fixes the result run by run: each whitespace-free
      stretch is kept and each maximal whitespace run becomes one space. */
  lemma {:induction false} CollapseConcat(a: string, b: string)
    requires |a| == 0 || |b| == 0 || !IsSpace(a[|a| - 1]) || !IsSpace(b[0])
    ensures Collapse(a + b) == Collapse(a) + Collapse(b)
    decreases |a|
  {
    if |a| == 0 {
      assert a + b == b;
    } else if |b| == 0 {
      assert a + b == a;
    } else if !IsSpace(a[0]) {
      CollapseConcat(a[1..], b);
      CollapseConcatWord(a, b);
    } else if AllSpace(a) {
      CollapseConcatSpaces(a, b);
    } else {
      var t := CollapseConcatSpaceHead(a, b);
      CollapseConcat(t, b);
    }
  }

  /** `CollapseConcat` when `a` starts with a non-whitespace character. */
  lemma CollapseConcatWord(a: string, b: string)
    requires |a| > 0 && !IsSpace(a[0])
    requires |a| == 1 || |b| == 0 || !IsSpace(a[|a| - 1]) || !IsSpace(b[0])
    requires Collapse(a[1..] + b) == Collapse(a[1..]) + Collapse(b)
    ensures Collapse(a + b) == Collapse(a) + Collapse(b)
  {
    TailOfConcat(a, b);
    assert Collapse(a + b) == [a[0]] + Collapse(a[1..] + b);
    assert Collapse(a) == [a[0]] + Collapse(a[1..]);
    ConsAppend(a[0], Collapse(a[1..]), Collapse(b));
  }

  /** `CollapseConcat` when `a` is a whitespace run and `b` starts with a
      non-whitespace character. */
  lemma CollapseConcatSpaces(a: string, b: string)
    requires |a| > 0 && AllSpace(a) && |b| > 0 && !IsSpace(b[0])
    ensures Collapse(a + b) == Collapse(a) + Collapse(b)
  {
    assert (a + b)[0] == a[0];
    LStripConcat(a, b);
    assert LStrip(b) == b;
    assert Collapse(a + b) == [' '] + Collapse(LStrip(a + b));
    assert Collapse(a) == " ";
  }

  /** `CollapseConcat` when `a` starts with whitespace but is not all
      whitespace: both sides collapse the leading run of `a`, and the rest,
      `t`, is shorter than `a` and ends as `a` does. */
  lemma CollapseConcatSpaceHead(a: string, b: string) returns (t: string)
    requires |a| > 0 && IsSpace(a[0]) && !AllSpace(a)
    ensures t == LStrip(a) && 0 < |t| < |a| && t[|t| - 1] == a[|a| - 1]
    ensures Collapse(t + b) == Collapse(t) + Collapse(b) ==> Collapse(a + b) == Collapse(a) + Collapse(b)
  {
    t := LStrip(a);
    assert (a + b)[0] == a[0];
    LStripConcat(a, b);
    assert |t| < |a| by { assert t == a[|a| - |t|..]; }
    assert |t| > 0 by { assert a == a[..|a| - |t|] + t; }
    assert t[|t| - 1] == a[|a| - 1] by { assert t == a[|a| - |t|..]; }
    assert Collapse(a + b) == [' '] + Collapse(t + b);
    assert Collapse(a) == [' '] + Collapse(t);
    ConsAppend(' ', Collapse(t), Collapse(b));
  }

  /** The first character and the tail of a concatenation with a non-empty
      front. */
  lemma TailOfConcat(a: string, b: string)
    requires |a| > 0
    ensures (a + b)[0] == a[0] && (a + b)[1..] == a[1..] + b
  {
  }

  /** Concatenation regrouped after a leading character. */
  lemma ConsAppend(c: char, head: string, tail: string)
    ensures ([c] + head) + tail == [c] + (head + tail)
  {
  }

  /** `s.replace(pat, rep)`: every non-overlapping occurrence, scanning left
      to right. */
  function ReplaceAll(s: string, pat: string, rep: string): (r: string)
    requires |pat| > 0
    ensures !Contains(s, pat) ==> r == s
    decreases |s|
  {
    if |s| < |pat| then s
    else if s[..|pat|] == pat then
      assert OccursAt(s, pat, 0);
      rep + ReplaceAll(s[|pat|..], pat, rep)
    else
      var rest := ReplaceAll(s[1..], pat, rep);
      ContainsTail(s, pat);
      assert s == [s[0]] + s[1..];
      [s[0]] + rest
  }

  lemma ContainsTail(s: string, sub: string)
    requires |s| > 0
    ensures Contains(s[1..], sub) ==> Contains(s, sub)
  {
    if Contains(s[1..], sub) {
      var i :| 0 <= i <= |s[1..]| - |sub| && OccursAt(s[1..], sub, i);
      assert s[i + 1..i + 1 + |sub|] == s[1..][i..i + |sub|];
      assert OccursAt(s, sub, i + 1);
    }
  }

  /** `replace` rewrites the first occurrence and carries on after it: the
      result is the text before the first occurrence, the replacement, and
      the replacement applied to the rest. */
  lemma ReplaceAllAtFirst(s: string, pat: string, rep: string, i: nat)
    requires |pat| > 0 && OccursAt(s, pat, i)
    requires forall j :: 0 <= j < i ==> !OccursAt(s, pat, j)
    ensures ReplaceAll(s, pat, rep) == s[..(i)] + rep + ReplaceAll(s[(i + |pat|)..], pat, rep)
  {
    var a, b := s[..(i)], s[(i)..];
    assert s == a + b;
    assert OccursAt(b, pat, 0) by { assert b[0..|pat|] == s[i..i + |pat|]; }
    ReplaceAllAround(a, b, pat, rep);
    assert b[|pat|..] == s[(i + |pat|)..];
  }

  /** `replace` on a text cut just before its first occurrence. */
  lemma ReplaceAllAround(a: string, b: string, pat: string, rep: string)
    requires |pat| > 0 && OccursAt(b, pat, 0)
    requires forall j :: 0 <= j < |a| ==> !OccursAt(a + b, pat, j)
    ensures ReplaceAll(a + b, pat, rep) == a + rep + ReplaceAll(b[|pat|..], pat, rep)
  {
    ReplaceAllPastPrefix(a, b, pat, rep);
    ReplaceAllHere(b, pat, rep);
    assert a + (rep + ReplaceAll(b[|pat|..], pat, rep)) == a + rep + ReplaceAll(b[|pat|..], pat, rep);
  }

  /** `replace` copies a prefix in which no occurrence starts. */
  lemma {:induction false} ReplaceAllPastPrefix(a: string, b: string, pat: string, rep: string)
    requires |pat| > 0
    requires forall j :: 0 <= j < |a| ==> !OccursAt(a + b, pat, j)
    ensures ReplaceAll(a + b, pat, rep) == a + ReplaceAll(b, pat, rep)
    decreases |a|
  {
    if |a| == 0 {
      assert a + b == b;
    } else if |a + b| < |pat| {
      assert ReplaceAll(a + b, pat, rep) == a + b;
      assert ReplaceAll(b, pat, rep) == b;
    } else {
      TailOfConcat(a, b);
      ReplaceAllSkip(a + b, pat, rep);
      forall j | 0 <= j < |a| - 1 ensures !OccursAt(a[1..] + b, pat, j) {
        assert !OccursAt(a + b, pat, j + 1);
        ShiftOccurs(a + b, pat, j);
      }
      ReplaceAllPastPrefix(a[1..], b, pat, rep);
      ConsAppend(a[0], a[1..], ReplaceAll(b, pat, rep));
      assert [a[0]] + a[1..] == a;
    }
  }

  /** An occurrence in the tail is an occurrence one further on. */
  lemma ShiftOccurs(s: string, pat: string, j: nat)
    requires |s| > 0
    ensures OccursAt(s[1..], pat, j) <==> OccursAt(s, pat, j + 1)
  {
    if j + |pat| <= |s[1..]| {
      assert s[1..][j..j + |pat|] == s[j + 1..j + 1 + |pat|];
    }
  }

  /** `ReplaceAll` at an occurrence at the very start. */
  lemma ReplaceAllHere(s: string, pat: string, rep: string)
    requires |pat| > 0 && OccursAt(s, pat, 0)
    ensures ReplaceAll(s, pat, rep) == rep + ReplaceAll(s[|pat|..], pat, rep)
  {
    assert s[..|pat|] == s[0..|pat|];
  }

  /** `ReplaceAll` past a first character that starts no occurrence. */
  lemma ReplaceAllSkip(s: string, pat: string, rep: string)
    requires |pat| > 0 && |pat| <= |s| && !OccursAt(s, pat, 0)
    ensures ReplaceAll(s, pat, rep) == [s[0]] + ReplaceAll(s[1..], pat, rep)
  {
    assert s[..|pat|] == s[0..|pat|];
  }

  /** Replacing a whitespace-free pattern by a non-empty whitespace-free text
      keeps the single-space shape and the whitespace-ness of the first
      character. */
  lemma {:induction false} ReplaceAllKeepsNoSpaceRuns(s: string, pat: string, rep: string)
    requires |pat| > 0 && |rep| > 0 && NoSpace(pat) && NoSpace(rep)
    requires NoSpaceRuns(s)
    ensures NoSpaceRuns(ReplaceAll(s, pat, rep))
    ensures |s| > 0 ==>
      (|ReplaceAll(s, pat, rep)| > 0 && (IsSpace(ReplaceAll(s, pat, rep)[0]) <==> IsSpace(s[0])))
    decreases |s|
  {
    if |s| < |pat| {
    } else if s[..|pat|] == pat {
      var t := s[|pat|..];
      assert NoSpaceRuns(t) by {
        forall i | 0 <= i < |t| ensures t[i] == s[i + |pat|] {}
      }
      ReplaceAllKeepsNoSpaceRuns(t, pat, rep);
      assert s[0] == pat[0];
      NoSpaceRunsConcat(rep, ReplaceAll(t, pat, rep));
    } else {
      var t := s[1..];
      assert NoSpaceRuns(t) by {
        forall i | 0 <= i < |t| ensures t[i] == s[i + 1] {}
      }
      ReplaceAllKeepsNoSpaceRuns(t, pat, rep);
      NoSpaceRunsConcat([s[0]], ReplaceAll(t, pat, rep));
    }
  }

  /** `s.replace(target, rep, 1)`. */
  function ReplaceFirst(s: string, target: string, rep: string): (r: string)
    ensures target == [] ==> r == rep + s
    ensures target != [] && !Contains(s, target) ==> r == s
    ensures target != [] && Contains(s, target) ==>
      exists i :: OccursAt(s, target, i)
        && (forall j :: 0 <= j < i ==> !OccursAt(s, target, j))
        && r == s[..(i)] + rep + s[i + |target|..]
  {
    if target == [] then rep + s
    else match Find(s, target)
      case None => s
      case Some(i) => s[..(i)] + rep + s[i + |target|..]
  }

  /** Python slicing `s[lo:hi]` for non-negative bounds: both are clamped to
      the length and an empty range gives the empty string. */
  function Slice(s: string, lo: nat, hi: nat): (r: string)
    ensures lo <= hi <= |s| ==> r == s[lo..(hi)]
    ensures |r| <= |s|
  {
    var a := if lo < |s| then lo else |s|;
    var b := if hi < |s| then hi else |s|;
    if a >= b then [] else s[a..(b)]
  }

  /** `sep.join(parts)`. */
  function Join(sep: string, parts: seq<string>): (r: string)
    decreases |parts|
  {
    if |parts| == 0 then []
    else if |parts| == 1 then parts[0]
    else parts[0] + sep + Join(sep, parts[1..])
  }

  /** A join starts with its first part, and joining nothing gives `""`. */
  lemma JoinStartsWithFirst(sep: string, parts: seq<string>)
    ensures |parts| == 0 ==> Join(sep, parts) == []
    ensures |parts| > 0 ==> |Join(sep, parts)| >= |parts[0]| && Join(sep, parts)[..(|parts[0]|)] == parts[0]
  {
    if |parts| > 1 {
      assert (parts[0] + sep + Join(sep, parts[1..]))[..(|parts[0]|)] == parts[0];
    }
  }

  /** `s.split(c)` for a one-character separator. */
  function SplitOn(s: string, c: char): (parts: seq<string>)
    ensures |parts| >= 1
    ensures forall i :: 0 <= i < |parts| ==> c !in parts[i]
    ensures Join([c], parts) == s
    decreases |s|
  {
    if |s| == 0 then [[]]
    else
      var rest := SplitOn(s[1..], c);
      if s[0] == c then
        assert s == [c] + s[1..];
        [[]] + rest
      else
        var parts := [[s[0]] + rest[0]] + rest[1..];
        assert Join([c], parts) == [s[0]] + Join([c], rest) by {
          if |rest| > 1 {
            assert parts[1..] == rest[1..];
          }
        }
        assert s == [s[0]] + s[1..];
        parts
  }

  /** A join of separator-free parts holds the separator exactly when there
      are at least two parts. */
  lemma {:induction false} JoinHasSeparator(parts: seq<string>, c: char)
    requires |parts| >= 1 && forall i :: 0 <= i < |parts| ==> c !in parts[i]
    ensures c in Join([c], parts) <==> |parts| > 1
    decreases |parts|
  {
    if |parts| > 1 {
      var j := Join([c], parts[1..]);
      assert Join([c], parts) == parts[0] + [c] + j;
      assert (parts[0] + [c] + j)[|parts[0]|] == c;
    }
  }

  /** Splitting undoes joining: separator-free parts are recovered from
      their join. */
  lemma {:induction false} SplitJoin(parts: seq<string>, c: char)
    requires |parts| >= 1 && forall i :: 0 <= i < |parts| ==> c !in parts[i]
    ensures SplitOn(Join([c], parts), c) == parts
  {
    var s := Join([c], parts);
    JoinInjective(SplitOn(s, c), parts, c);
  }

  /** The separator first occurs right after a separator-free head. */
  lemma SeparatorAfter(a: string, x: string, c: char)
    requires c !in a
    ensures (a + [c] + x)[|a|] == c
    ensures forall i :: 0 <= i < |a| ==> (a + [c] + x)[i] != c
  {
    forall i | 0 <= i < |a| ensures (a + [c] + x)[i] != c {
      assert (a + [c] + x)[i] == a[i];
    }
  }

  lemma {:induction false} JoinInjective(ps: seq<string>, qs: seq<string>, c: char)
    requires |ps| >= 1 && forall i :: 0 <= i < |ps| ==> c !in ps[i]
    requires |qs| >= 1 && forall i :: 0 <= i < |qs| ==> c !in qs[i]
    requires Join([c], ps) == Join([c], qs)
    ensures ps == qs
    decreases |ps|
  {
    JoinHasSeparator(ps, c);
    JoinHasSeparator(qs, c);
    if |ps| > 1 {
      var x := Join([c], ps[1..]);
      var y := Join([c], qs[1..]);
      var s := ps[0] + [c] + x;
      assert s == qs[0] + [c] + y;
      SeparatorAfter(ps[0], x, c);
      SeparatorAfter(qs[0], y, c);
      assert |ps[0]| == |qs[0]|;
      assert ps[0] == s[..|ps[0]|] == qs[0];
      assert x == s[|ps[0]| + 1..] == y;
      JoinInjective(ps[1..], qs[1..], c);
      assert ps == [ps[0]] + ps[1..];
      assert qs == [qs[0]] + qs[1..];
    }
  }

  function DigitChar(d: nat): (c: char)
    requires d < 10
    ensures IsAsciiDigit(c)
  {
    ('0' as int + d) as char
  }

  /** The number a string of decimal digits denotes, most significant digit
      first. */
  function DecimalValue(s: string): int
    decreases |s|
  {
    if |s| == 0 then 0
    else 10 * DecimalValue(s[..|s| - 1]) + (s[|s| - 1] as int - '0' as int)
  }

  /** The number `int(s)` reads from an optional `-` and decimal digits. */
  function IntValue(s: string): int {
    if |s| > 0 && s[0] == '-' then -DecimalValue(s[1..]) else DecimalValue(s)
  }

  /** `str(n)` for a non-negative integer: decimal digits denoting `n`, with
      no leading zero. */
  function NatToString(n: nat): (r: string)
    ensures |r| >= 1
    ensures forall i :: 0 <= i < |r| ==> IsAsciiDigit(r[i])
    ensures r[0] == '0' ==> n == 0
    ensures DecimalValue(r) == n
    decreases n
  {
    if n < 10 then
      assert [DigitChar(n)][..0] == [];
      [DigitChar(n)]
    else
      var r := NatToString(n / 10) + [DigitChar(n % 10)];
      assert r[..|r| - 1] == NatToString(n / 10);
      r
  }

  /** `str(i)` for any integer: a `-` exactly for a negative `i`, then the
      digits, and the text reads back as `i`. */
  function IntToString(i: int): (r: string)
    ensures |r| >= 1
    ensures r[0] == '-' <==> i < 0
    ensures forall k :: (if i < 0 then 1 else 0) <= k < |r| ==> IsAsciiDigit(r[k])
    ensures IntValue(r) == i
  {
    if i < 0 then
      var r := "-" + NatToString(-i);
      assert r[1..] == NatToString(-i);
      r
    else NatToString(i)
  }
}
