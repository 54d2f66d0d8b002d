/**
 * `String.prototype.replace` with a global, multiline regular expression and
 * an empty replacement, for the two fixed patterns of the cleaner.
 *
 * The engine scans the ORIGINAL text from left to right: at each position it
 * tries a match (where `^` is judged against the original text, so a
 * position counts as a line start only if the original character before it
 * is a line terminator); a match is deleted and the scan resumes after it,
 * otherwise one character is kept and the scan moves on by one. Both
 * patterns always consume at least one character, so no empty match arises.
 *
 * The scan is stated over any matcher (a function giving the length of the
 * match at a position, 0 for none); `Regex` gives the matcher of each of the
 * two patterns.
 */
module GlobalReplace {
  import opened JsText
  import DateRegex
  import OfCourseRegex

  /** Length of the match at a position of a text, 0 when there is none. */
  type Matcher = (seq<char>, nat) -> nat

  /** A match of `m` starts at position `p` of `s` and fits in `s`. */
  predicate Starts(m: Matcher, s: seq<char>, p: nat) {
    p < |s| && 0 < m(s, p) <= |s| - p
  }

  /** The result of the replace on the part of `s` from `p` on. */
  function DeleteFrom(m: Matcher, s: seq<char>, p: nat): seq<char>
    requires p <= |s|
    decreases |s| - p
  {
    if p == |s| then []
    else if Starts(m, s, p) then DeleteFrom(m, s, p + m(s, p))
    else [s[p]] + DeleteFrom(m, s, p + 1)
  }

  /** A matched span: where it starts in the original text and its length. */
  datatype Span = Span(start: nat, len: nat) {
    function End(): nat { start + len }
  }

  /** The matches the same scan finds (what `s.matchAll(re)` lists). */
  function MatchesFrom(m: Matcher, s: seq<char>, p: nat): (spans: seq<Span>)
    requires p <= |s|
    ensures forall k :: 0 <= k < |spans| ==> p <= spans[k].start
    decreases |s| - p
  {
    if p == |s| then []
    else if Starts(m, s, p) then [Span(p, m(s, p))] + MatchesFrom(m, s, p + m(s, p))
    else MatchesFrom(m, s, p + 1)
  }

  /** Position `i` lies inside one of `spans`. */
  ghost predicate Covered(spans: seq<Span>, i: nat) {
    exists k :: 0 <= k < |spans| && spans[k].start <= i < spans[k].End()
  }

  /** The characters of `s` from `i` on that no span covers, in order: the
      text with the spans cut out. */
  ghost function Without(s: seq<char>, spans: seq<Span>, i: nat): seq<char>
    requires i <= |s|
    decreases |s| - i
  {
    if i == |s| then [] else (if Covered(spans, i) then [] else [s[i]]) + Without(s, spans, i + 1)
  }

  function TotalLen(spans: seq<Span>): nat {
    if spans == [] then 0 else spans[0].len + TotalLen(spans[1..])
  }

  /** Every listed span is a match at its start and fits in the text, and
      the spans come in order without overlapping. */
  ghost predicate MatchList(m: Matcher, s: seq<char>, spans: seq<Span>) {
    && (forall k :: 0 <= k < |spans| ==> Starts(m, s, spans[k].start) && m(s, spans[k].start) == spans[k].len)
    && (forall k :: 0 <= k < |spans| - 1 ==> spans[k].End() <= spans[k + 1].start)
  }

  /** The scan lists only matches, in order. */
  lemma {:induction false} MatchesAreMatches(m: Matcher, s: seq<char>, p: nat)
    requires p <= |s|
    ensures MatchList(m, s, MatchesFrom(m, s, p))
    decreases |s| - p
  {
    if p < |s| {
      var spans := MatchesFrom(m, s, p);
      if Starts(m, s, p) {
        var n := m(s, p);
        var rest := MatchesFrom(m, s, p + n);
        MatchesAreMatches(m, s, p + n);
        assert spans == [Span(p, n)] + rest;
        forall k | 0 <= k < |spans|
          ensures Starts(m, s, spans[k].start) && m(s, spans[k].start) == spans[k].len
        {
          if k > 0 {
            assert spans[k] == rest[k - 1];
          }
        }
        forall k | 0 <= k < |spans| - 1
          ensures spans[k].End() <= spans[k + 1].start
        {
          assert spans[k + 1] == rest[k];
          if k > 0 {
            assert spans[k] == rest[k - 1];
          }
        }
      } else {
        MatchesAreMatches(m, s, p + 1);
      }
    }
  }

  /** No match starts at a position that the listed spans leave uncovered:
      the scan misses no match. */
  lemma {:induction false} MatchesAreComplete(m: Matcher, s: seq<char>, p: nat)
    requires p <= |s|
    ensures forall i :: p <= i < |s| && !Covered(MatchesFrom(m, s, p), i) ==> !Starts(m, s, i)
    decreases |s| - p
  {
    if p < |s| {
      var spans := MatchesFrom(m, s, p);
      if Starts(m, s, p) {
        var n := m(s, p);
        var rest := MatchesFrom(m, s, p + n);
        MatchesAreComplete(m, s, p + n);
        assert spans == [Span(p, n)] + rest;
        forall i | p <= i < p + n
          ensures Covered(spans, i)
        {
          assert spans[0].start <= i < spans[0].End();
        }
        forall i: nat | Covered(rest, i)
          ensures Covered(spans, i)
        {
          var k :| 0 <= k < |rest| && rest[k].start <= i < rest[k].End();
          assert spans[k + 1] == rest[k];
        }
      } else {
        MatchesAreComplete(m, s, p + 1);
      }
    }
  }

  lemma {:induction false} WithoutCovered(s: seq<char>, spans: seq<Span>, i: nat, j: nat)
    requires i <= j <= |s|
    requires forall x :: i <= x < j ==> Covered(spans, x)
    ensures Without(s, spans, i) == Without(s, spans, j)
    decreases j - i
  {
    if i < j {
      WithoutCovered(s, spans, i + 1, j);
    }
  }

  lemma {:induction false} WithoutDropFirst(s: seq<char>, sp: Span, rest: seq<Span>, i: nat)
    requires sp.End() <= i <= |s|
    ensures Without(s, [sp] + rest, i) == Without(s, rest, i)
    decreases |s| - i
  {
    if i < |s| {
      var spans := [sp] + rest;
      assert Covered(spans, i) <==> Covered(rest, i) by {
        if Covered(spans, i) {
          var k :| 0 <= k < |spans| && spans[k].start <= i < spans[k].End();
          assert k > 0 && rest[k - 1] == spans[k];
        }
        if Covered(rest, i) {
          var k :| 0 <= k < |rest| && rest[k].start <= i < rest[k].End();
          assert spans[k + 1] == rest[k];
        }
      }
      WithoutDropFirst(s, sp, rest, i + 1);
    }
  }

  /** The replace deletes exactly the listed spans and keeps every other
      character of the original text, in order. */
  lemma {:induction false} DeleteRemovesMatches(m: Matcher, s: seq<char>, p: nat)
    requires p <= |s|
    ensures DeleteFrom(m, s, p) == Without(s, MatchesFrom(m, s, p), p)
    decreases |s| - p
  {
    if p < |s| {
      var spans := MatchesFrom(m, s, p);
      if Starts(m, s, p) {
        var n := m(s, p);
        var rest := MatchesFrom(m, s, p + n);
        DeleteRemovesMatches(m, s, p + n);
        assert spans[0] == Span(p, n);
        WithoutCovered(s, spans, p, p + n);
        WithoutDropFirst(s, Span(p, n), rest, p + n);
      } else {
        DeleteRemovesMatches(m, s, p + 1);
        assert !Covered(spans, p);
      }
    }
  }

  /** The text shrinks by exactly the total length of the matches. */
  lemma {:induction false} DeleteLength(m: Matcher, s: seq<char>, p: nat)
    requires p <= |s|
    ensures |DeleteFrom(m, s, p)| + TotalLen(MatchesFrom(m, s, p)) == |s| - p
    decreases |s| - p
  {
    if p < |s| {
      if Starts(m, s, p) {
        var n := m(s, p);
        DeleteLength(m, s, p + n);
        var spans := MatchesFrom(m, s, p);
        assert spans[1..] == MatchesFrom(m, s, p + n);
      } else {
        DeleteLength(m, s, p + 1);
      }
    }
  }

  /** The replace only deletes: its result is a subsequence of the text. */
  lemma {:induction false} DeleteIsSubsequence(m: Matcher, s: seq<char>, p: nat)
    requires p <= |s|
    ensures IsSubsequence(DeleteFrom(m, s, p), s[p..])
    decreases |s| - p
  {
    if p == |s| {
    } else if Starts(m, s, p) {
      var n := m(s, p);
      DeleteIsSubsequence(m, s, p + n);
      assert s[p..] == s[p .. p + n] + s[p + n..];
      SubsequenceDropPrefix(DeleteFrom(m, s, p + n), s[p .. p + n], s[p + n..]);
    } else {
      DeleteIsSubsequence(m, s, p + 1);
      assert s[p..] == [s[p]] + s[p + 1..];
      SubsequenceCons(s[p], DeleteFrom(m, s, p + 1), s[p + 1..]);
    }
  }

  /** Positions where no match starts are copied through unchanged. */
  lemma {:induction false} DeleteKeepsUnmatched(m: Matcher, s: seq<char>, p: nat, q: nat)
    requires p <= q <= |s|
    requires forall i :: p <= i < q ==> !Starts(m, s, i)
    ensures DeleteFrom(m, s, p) == s[p..q] + DeleteFrom(m, s, q)
    decreases q - p
  {
    if p < q {
      DeleteKeepsUnmatched(m, s, p + 1, q);
      var rest := DeleteFrom(m, s, q);
      calc {
        DeleteFrom(m, s, p);
        [s[p]] + DeleteFrom(m, s, p + 1);
        [s[p]] + (s[p + 1..q] + rest);
        { assert [s[p]] + (s[p + 1..q] + rest) == ([s[p]] + s[p + 1..q]) + rest; }
        ([s[p]] + s[p + 1..q]) + rest;
        { assert [s[p]] + s[p + 1..q] == s[p..q]; }
        s[p..q] + rest;
      }
    }
  }

  /** The replace leaves the text unchanged exactly when no match starts
      anywhere in it. */
  lemma DeleteIsIdentityIff(m: Matcher, s: seq<char>)
    ensures DeleteFrom(m, s, 0) == s <==> forall i :: 0 <= i < |s| ==> !Starts(m, s, i)
  {
    if forall i :: 0 <= i < |s| ==> !Starts(m, s, i) {
      DeleteKeepsUnmatched(m, s, 0, |s|);
      assert s[0..|s|] == s;
    }
    if DeleteFrom(m, s, 0) == s {
      var spans := MatchesFrom(m, s, 0);
      DeleteLength(m, s, 0);
      MatchesAreMatches(m, s, 0);
      MatchesAreComplete(m, s, 0);
      assert spans == [];
    }
  }

  /** `m` looks only at the text from the position on and at whether the
      position begins a line: the two facts a `^`-anchored pattern can see. */
  ghost predicate Anchored(m: Matcher) {
    forall s: seq<char>, i: nat, t: seq<char>, j: nat {:trigger SameView(s, i, t, j)} ::
      SameView(s, i, t, j) ==> m(s, i) == m(t, j)
  }

  /** Position `i` of `s` and position `j` of `t` look alike to an anchored
      pattern. */
  ghost predicate SameView(s: seq<char>, i: nat, t: seq<char>, j: nat) {
    i <= |s| && j <= |t| && s[i..] == t[j..] && AtLineStart(s, i) == AtLineStart(t, j)
  }

  /** A position inside `t` looks the same in `x + t`, the first one provided
      `x` is empty or ends a line. */
  lemma ShiftedView(x: seq<char>, t: seq<char>, q: nat)
    requires q <= |t|
    requires q == 0 ==> x == [] || IsLineTerminator(x[|x| - 1])
    ensures SameView(x + t, |x| + q, t, q)
  {
    var s := x + t;
    var p := |x| + q;
    assert s[p..] == t[q..];
    if q > 0 {
      assert s[p - 1] == t[q - 1];
    }
  }

  /** For an anchored matcher, the replace of `x + t` from inside `t` is the
      replace of `t` alone, provided the first position agrees on being a
      line start. */
  lemma {:induction false} DeleteShift(m: Matcher, x: seq<char>, t: seq<char>, q: nat)
    requires Anchored(m)
    requires q <= |t|
    requires q == 0 ==> x == [] || IsLineTerminator(x[|x| - 1])
    ensures DeleteFrom(m, x + t, |x| + q) == DeleteFrom(m, t, q)
    decreases |t| - q
  {
    var s := x + t;
    var p := |x| + q;
    if q == |t| {
      assert p == |s|;
    } else {
      ShiftedView(x, t, q);
      assert s[p] == t[q];
      assert m(s, p) == m(t, q) && |s| - p == |t| - q;
      var q' := if Starts(m, t, q) then q + m(t, q) else q + 1;
      DeleteShift(m, x, t, q');
      var rest := DeleteFrom(m, t, q');
      assert DeleteFrom(m, s, |x| + q') == rest;
      if Starts(m, t, q) {
        assert DeleteFrom(m, s, p) == rest;
      } else {
        assert DeleteFrom(m, s, p) == [t[q]] + rest;
      }
    }
  }

  // ---------------------------------------------------------------------
  // The two patterns of the scripts.

  /** `DatePrefix` is `/^\d{4}-\d{2}-\d{2}T\d{2}:\d{2}:\d{2}\.\d+Z\s+\[inf\]\s+/gm`,
      `OfCourseLine` is `/^Of course\. Here is.*?[\r\n]+/gm`. */
  datatype Pattern = DatePrefix | OfCourseLine

  /** The pattern without its `^`. */
  ghost predicate InLanguage(pat: Pattern, t: seq<char>) {
    match pat
    case DatePrefix => DateRegex.InLanguage(t)
    case OfCourseLine => OfCourseRegex.InLanguage(t)
  }

  function PrefixLen(pat: Pattern, u: seq<char>): (n: nat)
    ensures n <= |u|
  {
    match pat
    case DatePrefix => DateRegex.PrefixLen(u)
    case OfCourseLine => OfCourseRegex.PrefixLen(u)
  }

  /** Length of the match of `pat`, with its `^`, at position `p` of `s`;
      0 when there is none. */
  function MatchLen(pat: Pattern, s: seq<char>, p: nat): (n: nat)
    ensures n > 0 ==> p + n <= |s|
  {
    if p <= |s| && AtLineStart(s, p) then PrefixLen(pat, s[p..]) else 0
  }

  function Regex(pat: Pattern): Matcher {
    (s, p) => MatchLen(pat, s, p)
  }

  /** `s.replace(re, '')` for the regular expression `pat`. */
  function Delete(pat: Pattern, s: seq<char>): seq<char> {
    DeleteFrom(Regex(pat), s, 0)
  }

  /** A match starts exactly at line starts where some non-empty prefix of the
      rest of the text is in the pattern's language, and it is the longest
      such prefix. */
  lemma MatchLenIsLongestMatch(pat: Pattern, s: seq<char>, p: nat)
    requires p <= |s|
    ensures MatchLen(pat, s, p) > 0 ==> AtLineStart(s, p) && InLanguage(pat, s[p .. p + MatchLen(pat, s, p)])
    ensures AtLineStart(s, p) ==>
      forall k :: p <= k <= |s| && InLanguage(pat, s[p..k]) ==> p < k <= p + MatchLen(pat, s, p)
  {
    var u := s[p..];
    assert forall k :: p <= k <= |s| ==> s[p..k] == u[..k - p];
    match pat
    case DatePrefix => DateRegex.PrefixLenIsLongestMatch(u);
    case OfCourseLine => OfCourseRegex.PrefixLenIsLongestMatch(u);
  }

  /** Some non-empty prefix of the text at line start `i` is in the
      pattern's language: what `^` plus the pattern accepts there. */
  ghost predicate HasMatchAt(pat: Pattern, s: seq<char>, i: nat) {
    i < |s| && AtLineStart(s, i) && exists k :: i < k <= |s| && InLanguage(pat, s[i..k])
  }

  /** The matcher finds a match exactly where the pattern has one. */
  lemma MatchLenPositiveIff(pat: Pattern, s: seq<char>, i: nat)
    requires i < |s|
    ensures MatchLen(pat, s, i) > 0 <==> HasMatchAt(pat, s, i)
  {
    MatchLenIsLongestMatch(pat, s, i);
  }

  lemma StartsIff(pat: Pattern, s: seq<char>, i: nat)
    ensures Starts(Regex(pat), s, i) <==> i < |s| && MatchLen(pat, s, i) > 0
  {
  }

  /** `s.replace(re, '')` returns `s` itself exactly when the pattern matches
      at no line start of `s`. */
  lemma DeleteUnchangedIff(pat: Pattern, s: seq<char>)
    ensures Delete(pat, s) == s <==> forall i :: 0 <= i < |s| ==> !HasMatchAt(pat, s, i)
  {
    DeleteIsIdentityIff(Regex(pat), s);
    forall i | 0 <= i < |s|
      ensures Starts(Regex(pat), s, i) <==> HasMatchAt(pat, s, i)
    {
      StartsIff(pat, s, i);
      MatchLenPositiveIff(pat, s, i);
    }
  }

  /** What `s.replace(re, '')` does, in full: it lists, in order and without
      overlap, spans that each start at a line start where the pattern
      matches and run for the longest match there; every line start left
      outside these spans has no match; and the result is the text with
      exactly these spans cut out, shorter by their total length. */
  lemma DeleteSpec(pat: Pattern, s: seq<char>)
    ensures var spans := MatchesFrom(Regex(pat), s, 0);
      && (forall k :: 0 <= k < |spans| ==>
            HasMatchAt(pat, s, spans[k].start) && spans[k].len == MatchLen(pat, s, spans[k].start))
      && (forall k :: 0 <= k < |spans| - 1 ==> spans[k].End() <= spans[k + 1].start)
      && (forall i :: 0 <= i < |s| && !Covered(spans, i) ==> !HasMatchAt(pat, s, i))
      && Delete(pat, s) == Without(s, spans, 0)
      && |Delete(pat, s)| + TotalLen(spans) == |s|
  {
    var m := Regex(pat);
    var spans := MatchesFrom(m, s, 0);
    MatchesAreMatches(m, s, 0);
    MatchesAreComplete(m, s, 0);
    DeleteRemovesMatches(m, s, 0);
    DeleteLength(m, s, 0);
    forall k | 0 <= k < |spans|
      ensures HasMatchAt(pat, s, spans[k].start) && spans[k].len == MatchLen(pat, s, spans[k].start)
    {
      StartsIff(pat, s, spans[k].start);
      MatchLenPositiveIff(pat, s, spans[k].start);
    }
    forall i | 0 <= i < |s| && !Covered(spans, i)
      ensures !HasMatchAt(pat, s, i)
    {
      StartsIff(pat, s, i);
      MatchLenPositiveIff(pat, s, i);
    }
  }

  /** A position that follows a character other than a line terminator is
      never a match start, whatever the text after it holds. */
  lemma NoMatchInsideLine(pat: Pattern, s: seq<char>, p: nat)
    requires 0 < p <= |s| && !IsLineTerminator(s[p - 1])
    ensures !Starts(Regex(pat), s, p)
  {
  }

  /** Whether a pattern matches at a position depends only on whether the
      position begins a line and on the text after it. */
  lemma RegexIsAnchored(pat: Pattern)
    ensures Anchored(Regex(pat))
  {
    forall s: seq<char>, i: nat, t: seq<char>, j: nat | SameView(s, i, t, j)
      ensures Regex(pat)(s, i) == Regex(pat)(t, j)
    {
      assert MatchLen(pat, s, i) == MatchLen(pat, t, j);
    }
  }

  /** The replace of `x + t` from inside `t` is the replace of `t` alone,
      provided the first position agrees on being a line start. */
  lemma DeleteIgnoresEarlierText(pat: Pattern, x: seq<char>, t: seq<char>, q: nat)
    requires q <= |t|
    requires q == 0 ==> x == [] || IsLineTerminator(x[|x| - 1])
    ensures DeleteFrom(Regex(pat), x + t, |x| + q) == DeleteFrom(Regex(pat), t, q)
  {
    RegexIsAnchored(pat);
    DeleteShift(Regex(pat), x, t, q);
  }

  /** After a deleted span that ends at `|x|`, the replace goes on with `t` as
      if `t` stood alone: either `x` ends a line, or `t` does not start with
      a match that the line-start anchor would have allowed on its own. */
  lemma DeleteAfterText(pat: Pattern, x: seq<char>, t: seq<char>)
    requires x != []
    requires t != [] && !IsLineTerminator(x[|x| - 1]) ==> !HasMatchAt(pat, t, 0)
    ensures DeleteFrom(Regex(pat), x + t, |x|) == Delete(pat, t)
  {
    var m := Regex(pat);
    if t == [] {
      assert |x + t| == |x|;
    } else if IsLineTerminator(x[|x| - 1]) {
      DeleteIgnoresEarlierText(pat, x, t, 0);
    } else {
      NoMatchInsideLine(pat, x + t, |x|);
      MatchLenPositiveIff(pat, t, 0);
      StartsIff(pat, t, 0);
      assert (x + t)[|x|] == t[0];
      assert DeleteFrom(m, t, 0) == [t[0]] + DeleteFrom(m, t, 1);
      DeleteIgnoresEarlierText(pat, x, t, 1);
    }
  }

  /** Text that continues a line, with no line terminator of its own, holds
      no line start and so survives the replace. */
  lemma DeleteKeepsRestOfLine(pat: Pattern, x: seq<char>, t: seq<char>)
    requires x != [] && !IsLineTerminator(x[|x| - 1])
    requires forall i :: 0 <= i < |t| ==> !IsLineTerminator(t[i])
    ensures DeleteFrom(Regex(pat), x + t, |x|) == t
  {
    var s := x + t;
    var m := Regex(pat);
    forall i | |x| <= i < |s|
      ensures !Starts(m, s, i)
    {
      assert i == |x| ==> s[i - 1] == x[|x| - 1];
      assert i > |x| ==> s[i - 1] == t[i - 1 - |x|];
      NoMatchInsideLine(pat, s, i);
    }
    DeleteKeepsUnmatched(m, s, |x|, |s|);
    assert s[|x|..|s|] == t;
  }
}
