/**
 * The pattern that removes the conversational lines opening with
 * "Of course. Here is":
 *
 *   Of course\. Here is.*?[\r\n]+
 *
 * (the leading `^` is the caller's business, see GlobalReplace).
 * `Shape` describes the language; `PrefixLen` is a deterministic matcher and
 * `PrefixLenIsLongestMatch` proves it returns the longest prefix in the
 * language. That is the match a backtracking engine reports: `.` cannot
 * cross `\r` or `\n`, so the lazy `.*?` can only stop at the first line
 * terminator, which must then be `\r` or `\n`, and the greedy `[\r\n]+`
 * at the end of the pattern takes the whole run.
 */
module OfCourseRegex {
  import opened JsText

  const Phrase: seq<char> := "Of course. Here is"

  /** `t` is a whole match whose lazy `.*?` part has length `d`. */
  ghost predicate Shape(t: seq<char>, d: nat) {
    && 18 + d < |t|
    && t[..18] == Phrase
    && AllIn(t, 18, 18 + d, NotLineTerminator)
    && AllIn(t, 18 + d, |t|, CrOrLf)
  }

  ghost predicate InLanguage(t: seq<char>) {
    exists d: nat :: Shape(t, d)
  }

  predicate StartsWithPhrase(u: seq<char>) {
    |u| >= 18 && u[..18] == Phrase
  }

  /** Length of the match at the start of `u`, 0 when there is none. */
  function PrefixLen(u: seq<char>): (n: nat)
    ensures n <= |u|
    ensures n > 0 ==> StartsWithPhrase(u) && IsCrOrLf(u[n - 1])
  {
    if !StartsWithPhrase(u) then 0
    else
      var e := LineEnd(u, 18);
      if e < |u| && IsCrOrLf(u[e]) then RunEnd(u, e, CrOrLf) else 0
  }

  /** Any match at the start of `u` stops its `.*?` at the end of the first
      line and ends inside the run of `\r`/`\n` that follows. */
  lemma ShapeIsForced(u: seq<char>, k: nat, d: nat)
    requires k <= |u| && Shape(u[..k], d)
    ensures StartsWithPhrase(u)
    ensures 18 + d == LineEnd(u, 18) && IsCrOrLf(u[18 + d])
    ensures 18 + d < k <= RunEnd(u, 18 + d, CrOrLf)
  {
    var t := u[..k];
    assert forall i :: 0 <= i < k ==> t[i] == u[i];
    assert u[..18] == t[..18];
    RunEndExact(u, 18, 18 + d, NotLineTerminator);
    RunEndAtLeast(u, 18 + d, k, CrOrLf);
  }

  /** The parts of a match read on `u` are the parts of the prefix `u[..k]`. */
  lemma ShapeOfPrefix(u: seq<char>, k: nat, d: nat)
    requires StartsWithPhrase(u) && 18 + d < k <= |u|
    requires AllIn(u, 18, 18 + d, NotLineTerminator)
    requires AllIn(u, 18 + d, k, CrOrLf)
    ensures Shape(u[..k], d)
  {
    var t := u[..k];
    assert forall i :: 0 <= i < k ==> t[i] == u[i];
    assert t[..18] == u[..18];
  }

  /** The matcher returns the longest prefix of `u` in the pattern's language,
      or 0 when no prefix of `u` is in it. */
  lemma PrefixLenIsLongestMatch(u: seq<char>)
    ensures PrefixLen(u) > 0 ==> InLanguage(u[..PrefixLen(u)])
    ensures forall k :: 0 <= k <= |u| && InLanguage(u[..k]) ==> 0 < k <= PrefixLen(u)
  {
    var n := PrefixLen(u);
    if n > 0 {
      var e := LineEnd(u, 18);
      ShapeOfPrefix(u, n, e - 18);
    }
    forall k | 0 <= k <= |u| && InLanguage(u[..k])
      ensures 0 < k <= n
    {
      var d :| Shape(u[..k], d);
      ShapeIsForced(u, k, d);
    }
  }

  /** A complete match followed by the end of the text or by a character other
      than `\r` and `\n` is exactly what the matcher takes. */
  lemma PrefixLenOfShape(u: seq<char>, k: nat, d: nat)
    requires k <= |u| && Shape(u[..k], d)
    requires k == |u| || !IsCrOrLf(u[k])
    ensures PrefixLen(u) == k
  {
    ShapeIsForced(u, k, d);
    var e := 18 + d;
    var t := u[..k];
    assert forall i :: e <= i < k ==> t[i] == u[i];
    RunEndExact(u, e, k, CrOrLf);
  }

  /** A line that ends at the end of the text, or with U+2028 or U+2029, before
      any `\r` or `\n`, is not matched. */
  lemma NoMatchWithoutCrOrLf(u: seq<char>, q: nat)
    requires q <= |u|
    requires forall j :: 0 <= j < q ==> !IsCrOrLf(u[j])
    requires q == |u| || u[q] == '\U{2028}' || u[q] == '\U{2029}'
    ensures PrefixLen(u) == 0
  {
  }

  /** A text that does not start with `O` has no match at its start. */
  lemma NoMatchWithoutLeadingO(u: seq<char>)
    requires u == [] || u[0] != 'O'
    ensures PrefixLen(u) == 0
  {
    if |u| >= 18 {
      assert u[..18][0] == u[0];
    }
  }

  /** The phrase, the rest `x` of its line and a run `r` of `\r`/`\n` form
      the whole match when whatever follows does not extend the run. */
  lemma LineShape(x: seq<char>, r: seq<char>, y: seq<char>)
    requires forall i :: 0 <= i < |x| ==> !IsLineTerminator(x[i])
    requires r != [] && forall i :: 0 <= i < |r| ==> IsCrOrLf(r[i])
    requires y == [] || !IsCrOrLf(y[0])
    ensures PrefixLen(Phrase + x + r + y) == 18 + |x| + |r|
  {
    var s := Phrase + x + r + y;
    var k, d := 18 + |x| + |r|, |x|;
    assert s[..18] == Phrase;
    assert AllIn(s, 18, 18 + d, NotLineTerminator) by {
      forall j | 18 <= j < 18 + d ensures !IsLineTerminator(s[j]) {
        assert s[j] == x[j - 18];
      }
    }
    assert AllIn(s, 18 + d, k, CrOrLf) by {
      forall j | 18 + d <= j < k ensures IsCrOrLf(s[j]) {
        assert s[j] == r[j - 18 - d];
      }
    }
    ShapeOfPrefix(s, k, d);
    assert k < |s| ==> s[k] == y[0];
    PrefixLenOfShape(s, k, d);
  }
}
