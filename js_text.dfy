/**
 * Character classes of JavaScript regular expressions, as the two fixed
 * patterns of the cleaner use them, and the small sequence vocabulary the
 * rest of the model is stated in (runs of one class, subsequences, counts).
 *
 * A string is a `seq<char>` of Unicode scalar values. JavaScript strings
 * are UTF-16 code units; every character the patterns and markers name is
 * a single code unit, so the two agree on them.
 */
module JsText {

  /** `\d`: the ASCII digits only. */
  predicate IsDigit(c: char) {
    '0' <= c <= '9'
  }

  /** The line terminators that end a line for `^` and that `.` refuses. */
  predicate IsLineTerminator(c: char) {
    c == '\n' || c == '\r' || c == '\U{2028}' || c == '\U{2029}'
  }

  /** The character class `[\r\n]`. */
  predicate IsCrOrLf(c: char) {
    c == '\r' || c == '\n'
  }

  /** `\s`: JavaScript white space (tab, vertical tab, form feed, space,
      no-break space, byte order mark, the space separators) and the line
      terminators. */
  predicate IsJsSpace(c: char) {
    || c == '\t' || c == '\U{B}' || c == '\U{C}' || c == ' '
    || c == '\U{A0}' || c == '\U{FEFF}' || c == '\U{1680}'
    || ('\U{2000}' <= c <= '\U{200A}')
    || c == '\U{202F}' || c == '\U{205F}' || c == '\U{3000}'
    || IsLineTerminator(c)
  }

  /** The single-character classes the two patterns repeat with `+` or `*`. */
  datatype CharClass = Digit | Space | CrOrLf | NotLineTerminator

  predicate In(cls: CharClass, c: char) {
    match cls
    case Digit => IsDigit(c)
    case Space => IsJsSpace(c)
    case CrOrLf => IsCrOrLf(c)
    case NotLineTerminator => !IsLineTerminator(c)
  }

  /** Every character of `u[i..j]` belongs to `cls`. */
  predicate AllIn(u: seq<char>, i: nat, j: nat, cls: CharClass) {
    i <= j <= |u| && forall k :: i <= k < j ==> In(cls, u[k])
  }

  /** Where the longest run of `cls` characters starting at `i` ends: what a
      greedy `cls+` (or `cls*`) consumes there is `u[i..RunEnd(u, i, cls)]`. */
  function RunEnd(u: seq<char>, i: nat, cls: CharClass): (e: nat)
    requires i <= |u|
    ensures AllIn(u, i, e, cls)
    ensures e == |u| || !In(cls, u[e])
    decreases |u| - i
  {
    if i == |u| || !In(cls, u[i]) then i else RunEnd(u, i + 1, cls)
  }

  /** A run of `cls` characters from `i` to `j` ends no later than the greedy
      run at `i`. */
  lemma {:induction false} RunEndAtLeast(u: seq<char>, i: nat, j: nat, cls: CharClass)
    requires AllIn(u, i, j, cls)
    ensures j <= RunEnd(u, i, cls)
    decreases j - i
  {
    if i < j {
      RunEndAtLeast(u, i + 1, j, cls);
    }
  }

  /** A run of `cls` from `i` to `j` that ends at the end of `u` or before a
      character outside `cls` is the longest run. */
  lemma RunEndExact(u: seq<char>, i: nat, j: nat, cls: CharClass)
    requires AllIn(u, i, j, cls)
    requires j == |u| || !In(cls, u[j])
    ensures RunEnd(u, i, cls) == j
  {
    RunEndAtLeast(u, i, j, cls);
  }

  /** A run in a prefix of `u` is a run in `u`. */
  lemma AllInPrefix(u: seq<char>, k: nat, i: nat, j: nat, cls: CharClass)
    requires k <= |u| && AllIn(u[..k], i, j, cls)
    ensures AllIn(u, i, j, cls)
  {
    assert forall m :: i <= m < j ==> u[..k][m] == u[m];
  }

  /** Where the line that contains position `i` ends: the first line
      terminator at or after `i`, or the end of the text. */
  function LineEnd(u: seq<char>, i: nat): (e: nat)
    requires i <= |u|
    ensures i <= e <= |u|
    ensures forall k :: i <= k < e ==> !IsLineTerminator(u[k])
    ensures e == |u| || IsLineTerminator(u[e])
  {
    RunEnd(u, i, NotLineTerminator)
  }

  /** Multiline `^`: position `p` begins a line of `s` when it is the start of
      the text or follows a line terminator. */
  predicate AtLineStart(s: seq<char>, p: nat)
    requires p <= |s|
  {
    p == 0 || IsLineTerminator(s[p - 1])
  }

  /** `a` is `b` with some characters deleted. */
  ghost predicate IsSubsequence(a: seq<char>, b: seq<char>)
    decreases |b|
  {
    if b == [] then a == []
    else IsSubsequence(a, b[1..]) || (a != [] && a[0] == b[0] && IsSubsequence(a[1..], b[1..]))
  }

  lemma {:induction false} SubsequenceRefl(a: seq<char>)
    ensures IsSubsequence(a, a)
    decreases |a|
  {
    if a != [] {
      SubsequenceRefl(a[1..]);
    }
  }

  /** Deleting a whole prefix keeps a subsequence. */
  lemma {:induction false} SubsequenceDropPrefix(a: seq<char>, x: seq<char>, b: seq<char>)
    requires IsSubsequence(a, b)
    ensures IsSubsequence(a, x + b)
    decreases |x|
  {
    if x == [] {
      assert x + b == b;
    } else {
      SubsequenceDropPrefix(a, x[1..], b);
      assert (x + b)[1..] == x[1..] + b;
      assert IsSubsequence(a, (x + b)[1..]);
    }
  }

  /** Keeping a character on both sides keeps a subsequence. */
  lemma SubsequenceCons(c: char, a: seq<char>, b: seq<char>)
    requires IsSubsequence(a, b)
    ensures IsSubsequence([c] + a, [c] + b)
  {
    assert ([c] + a)[1..] == a;
    assert ([c] + b)[1..] == b;
  }

  lemma {:induction false} SubsequenceLength(a: seq<char>, b: seq<char>)
    requires IsSubsequence(a, b)
    ensures |a| <= |b|
    decreases |b|
  {
    if b != [] {
      if IsSubsequence(a, b[1..]) {
        SubsequenceLength(a, b[1..]);
      } else {
        SubsequenceLength(a[1..], b[1..]);
      }
    }
  }

  lemma {:induction false} SubsequenceTrans(a: seq<char>, b: seq<char>, c: seq<char>)
    requires IsSubsequence(a, b) && IsSubsequence(b, c)
    ensures IsSubsequence(a, c)
    decreases |c|
  {
    if c == [] {
    } else if IsSubsequence(b, c[1..]) {
      SubsequenceTrans(a, b, c[1..]);
    } else {
      // b[0] == c[0] and b[1..] is a subsequence of c[1..]
      if IsSubsequence(a, b[1..]) {
        SubsequenceTrans(a, b[1..], c[1..]);
      } else {
        SubsequenceTrans(a[1..], b[1..], c[1..]);
      }
    }
  }

  /** Number of occurrences of `c` in `s`. */
  function Count(s: seq<char>, c: char): nat
  {
    if s == [] then 0 else (if s[0] == c then 1 else 0) + Count(s[1..], c)
  }

  /** `c` occurs nowhere in `s` exactly when its count is zero. */
  lemma {:induction false} CountZero(s: seq<char>, c: char)
    ensures Count(s, c) == 0 <==> c !in s
    decreases |s|
  {
    if s != [] {
      CountZero(s[1..], c);
      assert s == [s[0]] + s[1..];
    }
  }
}
