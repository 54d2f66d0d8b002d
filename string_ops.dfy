/**
 * The two plain string operations of the cleaning steps: truncation at the
 * first occurrence of a start marker (`indexOf` followed by `substring`) and
 * `replaceAll` of a one-character string by the empty string.
 */
module StringOps {
  import opened JsText

  /** `m` occurs in `s` at position `j`. */
  predicate OccursAt(s: seq<char>, m: seq<char>, j: nat) {
    j + |m| <= |s| && s[j .. j + |m|] == m
  }

  ghost predicate Occurs(s: seq<char>, m: seq<char>) {
    exists j: nat :: OccursAt(s, m, j)
  }

  /** `s.indexOf(m, i)` for `0 <= i <= |s|`: the first occurrence at or after
      `i`, or -1. */
  function IndexFrom(s: seq<char>, m: seq<char>, i: nat): (r: int)
    requires i <= |s|
    ensures r == -1 || (i <= r && OccursAt(s, m, r))
    ensures r == -1 ==> forall j: nat :: i <= j ==> !OccursAt(s, m, j)
    ensures r != -1 ==> forall j: nat :: i <= j < r ==> !OccursAt(s, m, j)
    decreases |s| - i
  {
    if OccursAt(s, m, i) then i
    else if i == |s| then -1
    else IndexFrom(s, m, i + 1)
  }

  /** `s.indexOf(m)`. */
  function IndexOf(s: seq<char>, m: seq<char>): (r: int)
    ensures r == -1 <==> !Occurs(s, m)
    ensures r != -1 ==> 0 <= r && OccursAt(s, m, r) && forall j: nat :: j < r ==> !OccursAt(s, m, j)
  {
    IndexFrom(s, m, 0)
  }

  /** The truncation step: `const startIndex = s.indexOf(m); if (startIndex !== -1)
      s = s.substring(startIndex);`. When the marker occurs, the result is
      the suffix that starts at its first occurrence; otherwise the text is
      left as it is. */
  function TruncateAtMarker(s: seq<char>, m: seq<char>): (r: seq<char>)
    ensures |r| <= |s| && r == s[|s| - |r|..]
    ensures Occurs(s, m) ==> |m| <= |r| && r[..|m|] == m
    ensures Occurs(s, m) ==> forall j: nat :: j < |s| - |r| ==> !OccursAt(s, m, j)
    ensures !Occurs(s, m) ==> r == s
    ensures IsSubsequence(r, s)
  {
    var i := IndexOf(s, m);
    TruncateFacts(s, m, i);
    if i != -1 then s[i..] else s
  }

  /** What the truncation needs of the suffix it keeps: it starts with the
      marker when `i` is a first occurrence, and it is a subsequence. */
  lemma TruncateFacts(s: seq<char>, m: seq<char>, i: int)
    requires i == IndexOf(s, m)
    ensures i != -1 ==> 0 <= i <= |s| && |m| <= |s[i..]| && s[i..][..|m|] == m
    ensures IsSubsequence(if i != -1 then s[i..] else s, s)
  {
    if i != -1 {
      assert s[i..][..|m|] == s[i .. i + |m|];
      SubsequenceRefl(s[i..]);
      assert s == s[..i] + s[i..];
      SubsequenceDropPrefix(s[i..], s[..i], s[i..]);
    } else {
      SubsequenceRefl(s);
    }
  }

  /** `s.replaceAll(c, '')` for the one-character string `c`. Every occurrence
      of `c` is gone, every other character is still there as often as
      before, in the same order. */
  function RemoveAll(s: seq<char>, c: char): (r: seq<char>)
    ensures c !in r
    ensures |r| == |s| - Count(s, c)
    ensures IsSubsequence(r, s)
    ensures forall d :: d != c ==> Count(r, d) == Count(s, d)
  {
    if s == [] then []
    else
      var rest := RemoveAll(s[1..], c);
      if s[0] == c then
        SubsequenceDropPrefix(rest, [s[0]], s[1..]);
        assert [s[0]] + s[1..] == s;
        rest
      else
        SubsequenceCons(s[0], rest, s[1..]);
        assert [s[0]] + s[1..] == s;
        assert ([s[0]] + rest)[1..] == rest;
        [s[0]] + rest
  }

  /** A text without `c` is left as it is. */
  lemma {:induction false} RemoveAllAbsent(s: seq<char>, c: char)
    requires c !in s
    ensures RemoveAll(s, c) == s
    decreases |s|
  {
    if s != [] {
      RemoveAllAbsent(s[1..], c);
      assert s == [s[0]] + s[1..];
    }
  }

  /** `replaceAll(c, '')` returns the text itself exactly when `c` does not
      occur in it. */
  lemma RemoveAllUnchangedIff(s: seq<char>, c: char)
    ensures RemoveAll(s, c) == s <==> Count(s, c) == 0
  {
    CountZero(s, c);
    if Count(s, c) == 0 {
      RemoveAllAbsent(s, c);
    }
  }

  /** Removing a character twice is removing it once. */
  lemma RemoveAllIdempotent(s: seq<char>, c: char)
    ensures RemoveAll(RemoveAll(s, c), c) == RemoveAll(s, c)
  {
    RemoveAllAbsent(RemoveAll(s, c), c);
  }

  /** Removal works piece by piece. */
  lemma {:induction false} RemoveAllAppend(a: seq<char>, b: seq<char>, c: char)
    ensures RemoveAll(a + b, c) == RemoveAll(a, c) + RemoveAll(b, c)
    decreases |a|
  {
    if a == [] {
      assert a + b == b;
    } else {
      assert (a + b)[1..] == a[1..] + b;
      assert (a + b)[0] == a[0];
      RemoveAllAppend(a[1..], b, c);
    }
  }

  /** A prefix without `c` survives the removal of `c`. */
  lemma RemoveAllKeepsPrefix(m: seq<char>, v: seq<char>, c: char)
    requires c !in m && |m| <= |v| && v[..|m|] == m
    ensures |m| <= |RemoveAll(v, c)| && RemoveAll(v, c)[..|m|] == m
  {
    assert v == m + v[|m|..];
    RemoveAllAppend(m, v[|m|..], c);
    RemoveAllAbsent(m, c);
  }

  /** When the text starts with a head that holds no copy of the marker's
      first character, followed by the marker, truncation cuts exactly the
      head. */
  lemma TruncateAfterHead(head: seq<char>, rest: seq<char>, m: seq<char>)
    requires m != [] && |m| <= |rest| && rest[..|m|] == m
    requires forall j :: 0 <= j < |head| ==> head[j] != m[0]
    ensures TruncateAtMarker(head + rest, m) == rest
  {
    var s := head + rest;
    assert s[|head| .. |head| + |m|] == rest[..|m|];
    assert OccursAt(s, m, |head|);
    var i := IndexOf(s, m);
    assert s[i] == m[0];
    assert forall j :: 0 <= j < |head| ==> s[j] == head[j];
    assert s[|head|..] == rest;
  }

  /** The same with the text after the marker named. */
  lemma TruncateAtMarkerAfter(head: seq<char>, m: seq<char>, tail: seq<char>)
    requires m != []
    requires forall j :: 0 <= j < |head| ==> head[j] != m[0]
    ensures TruncateAtMarker(head + m + tail, m) == m + tail
  {
    assert head + m + tail == head + (m + tail);
    assert (m + tail)[..|m|] == m;
    TruncateAfterHead(head, m + tail, m);
  }

  /** Asterisks inside a word go, the letters stay. */
  lemma RemoveAllExample()
    ensures RemoveAll("wo*r*ld", '*') == "world"
  {
  }
}
