/**
 * The timestamp prefix pattern shared by both scripts:
 *
 *   \d{4}-\d{2}-\d{2}T\d{2}:\d{2}:\d{2}\.\d+Z\s+\[inf\]\s+
 *
 * (the leading `^` is the caller's business, see GlobalReplace).
 * `Shape` describes the pattern's language declaratively; `PrefixLen` is a
 * deterministic matcher, and `PrefixLenIsLongestMatch` proves that it returns
 * the longest prefix in that language, which is the match a backtracking
 * engine reports for this pattern: `\d+` stops before `Z` and the first
 * `\s+` before `[`, so neither has a second choice, and the last `\s+` is
 * greedy at the end of the pattern.
 */
module DateRegex {
  import opened JsText

  const Tag: seq<char> := "[inf]"

  /** `\d{4}-\d{2}-\d{2}T\d{2}:\d{2}:\d{2}\.`: the fixed 20-character head. */
  predicate HasHead(t: seq<char>) {
    && |t| >= 20
    && AllIn(t, 0, 4, Digit) && t[4] == '-'
    && AllIn(t, 5, 7, Digit) && t[7] == '-'
    && AllIn(t, 8, 10, Digit) && t[10] == 'T'
    && AllIn(t, 11, 13, Digit) && t[13] == ':'
    && AllIn(t, 14, 16, Digit) && t[16] == ':'
    && AllIn(t, 17, 19, Digit) && t[19] == '.'
  }

  /** `u[..k]` is a whole match of the pattern whose `Z` is at `z` and whose
      `[inf]` starts at `b`: fraction digits from 20 to `z`, white space from
      `z + 1` to `b`, and the rest of `u[..k]` after the tag is the final
      white space. */
  predicate ShapeOn(u: seq<char>, k: nat, z: nat, b: nat) {
    && k <= |u| && HasHead(u)
    && 20 < z && z + 1 < b && b + 5 < k
    && AllIn(u, 20, z, Digit) && u[z] == 'Z'
    && AllIn(u, z + 1, b, Space)
    && u[b .. b + 5] == Tag
    && AllIn(u, b + 5, k, Space)
  }

  /** The whole of `t` is a match with these parts. */
  predicate Shape(t: seq<char>, z: nat, b: nat) {
    ShapeOn(t, |t|, z, b)
  }

  ghost predicate InLanguage(t: seq<char>) {
    exists z: nat, b: nat :: Shape(t, z, b)
  }

  /** The greedy runs of `u` line up with the pattern: the fraction digits
      end at a `Z`, the white space after it ends at `[inf]`, and white space
      follows the tag. */
  predicate LinesUp(u: seq<char>) {
    HasHead(u) && FractionEndsAtZ(u, RunEnd(u, 20, Digit))
  }

  /** Fraction digits up to `z`, a `Z` there, then the rest lines up. */
  predicate FractionEndsAtZ(u: seq<char>, z: nat) {
    && 20 < z < |u| && u[z] == 'Z'
    && SpaceEndsAtTag(u, z + 1, RunEnd(u, z + 1, Space))
  }

  /** White space from `i` to `b`, then `[inf]`, then white space. */
  predicate SpaceEndsAtTag(u: seq<char>, i: nat, b: nat) {
    && i < b && b + 5 <= |u| && u[b .. b + 5] == Tag
    && RunEnd(u, b + 5, Space) > b + 5
  }

  /** Length of the match at the start of `u`, 0 when there is none. */
  function PrefixLen(u: seq<char>): (n: nat)
    ensures n <= |u|
    ensures n > 0 ==> HasHead(u)
  {
    if !LinesUp(u) then 0
    else
      var z := RunEnd(u, 20, Digit);
      var b := RunEnd(u, z + 1, Space);
      RunEnd(u, b + 5, Space)
  }

  /** The fixed head of a prefix of `u` is the head of `u`. */
  lemma HasHeadPrefix(u: seq<char>, k: nat)
    requires k <= |u| && HasHead(u[..k])
    ensures HasHead(u)
  {
    AllInPrefix(u, k, 0, 4, Digit);
    AllInPrefix(u, k, 5, 7, Digit);
    AllInPrefix(u, k, 8, 10, Digit);
    AllInPrefix(u, k, 11, 13, Digit);
    AllInPrefix(u, k, 14, 16, Digit);
    AllInPrefix(u, k, 17, 19, Digit);
  }

  /** The tag inside a prefix of `u` is the tag inside `u`. */
  lemma TagPrefix(u: seq<char>, k: nat, b: nat)
    requires b + 5 <= k <= |u| && u[..k][b .. b + 5] == Tag
    ensures u[b .. b + 5] == Tag
  {
    assert u[b .. b + 5] == u[..k][b .. b + 5];
  }

  /** A match at the start of `u`, read on `u` itself. */
  lemma ShapeInText(u: seq<char>, k: nat, z: nat, b: nat)
    requires k <= |u| && Shape(u[..k], z, b)
    ensures ShapeOn(u, k, z, b)
  {
    HasHeadPrefix(u, k);
    AllInPrefix(u, k, 20, z, Digit);
    assert u[z] == u[..k][z];
    TagPrefix(u, k, b);
    AllInPrefix(u, k, z + 1, b, Space);
    AllInPrefix(u, k, b + 5, k, Space);
  }

  /** The parts of a match read on `u` are the parts of the prefix `u[..k]`. */
  lemma ShapeOfPrefix(u: seq<char>, k: nat, z: nat, b: nat)
    requires ShapeOn(u, k, z, b)
    ensures Shape(u[..k], z, b)
  {
    var t := u[..k];
    assert forall i :: 0 <= i < k ==> t[i] == u[i];
    assert t[b .. b + 5] == u[b .. b + 5];
  }

  /** The runs of a match are the greedy runs of `u`. */
  lemma ShapeRuns(u: seq<char>, k: nat, z: nat, b: nat)
    requires ShapeOn(u, k, z, b)
    ensures LinesUp(u)
    ensures z == RunEnd(u, 20, Digit) && b == RunEnd(u, z + 1, Space)
    ensures k <= RunEnd(u, b + 5, Space)
  {
    assert !In(Digit, u[z]);
    RunEndExact(u, 20, z, Digit);
    assert u[b] == '[' by {
      assert u[b] == u[b .. b + 5][0];
    }
    assert !In(Space, u[b]);
    RunEndExact(u, z + 1, b, Space);
    RunEndAtLeast(u, b + 5, k, Space);
    assert SpaceEndsAtTag(u, z + 1, b);
  }

  /** Any match at the start of `u` has the fraction and the inner white space
      that the greedy runs of `u` give, and ends inside the final white-space
      run of `u`, so the matcher succeeds and takes at least as much. */
  lemma ShapeIsForced(u: seq<char>, k: nat, z: nat, b: nat)
    requires k <= |u| && Shape(u[..k], z, b)
    ensures z == RunEnd(u, 20, Digit) && b == RunEnd(u, z + 1, Space)
    ensures 0 < k <= PrefixLen(u)
  {
    ShapeInText(u, k, z, b);
    ShapeRuns(u, k, z, b);
  }

  /** What the matcher takes is a match. */
  lemma MatchHasShape(u: seq<char>)
    requires PrefixLen(u) > 0
    ensures InLanguage(u[..PrefixLen(u)])
  {
    var n := PrefixLen(u);
    var z := RunEnd(u, 20, Digit);
    assert FractionEndsAtZ(u, z);
    var b := RunEnd(u, z + 1, Space);
    assert SpaceEndsAtTag(u, z + 1, b);
    assert ShapeOn(u, n, z, b);
    ShapeOfPrefix(u, n, z, b);
  }

  /** Every match at the start of `u` is at most as long as what the matcher
      takes. */
  lemma MatchNoLonger(u: seq<char>, k: nat)
    requires k <= |u| && InLanguage(u[..k])
    ensures 0 < k <= PrefixLen(u)
  {
    var z, b :| Shape(u[..k], z, b);
    ShapeIsForced(u, k, z, b);
  }

  /** The matcher returns the longest prefix of `u` in the pattern's language,
      or 0 when no prefix of `u` is in it. */
  lemma PrefixLenIsLongestMatch(u: seq<char>)
    ensures PrefixLen(u) > 0 ==> InLanguage(u[..PrefixLen(u)])
    ensures forall k :: 0 <= k <= |u| && InLanguage(u[..k]) ==> 0 < k <= PrefixLen(u)
  {
    if PrefixLen(u) > 0 {
      MatchHasShape(u);
    }
    forall k | 0 <= k <= |u| && InLanguage(u[..k])
      ensures 0 < k <= PrefixLen(u)
    {
      MatchNoLonger(u, k);
    }
  }

  /** A complete match followed by the end of the text or by a character that
      is not white space is exactly what the matcher takes. */
  lemma PrefixLenOfShape(u: seq<char>, k: nat, z: nat, b: nat)
    requires k <= |u| && Shape(u[..k], z, b)
    requires k == |u| || !IsJsSpace(u[k])
    ensures PrefixLen(u) == k
  {
    ShapeInText(u, k, z, b);
    ShapeRuns(u, k, z, b);
    assert k == |u| || !In(Space, u[k]);
    RunEndExact(u, b + 5, k, Space);
  }

  /** A text whose first character is not a digit has no match at its start. */
  lemma NoDigitNoMatch(u: seq<char>)
    requires u == [] || !IsDigit(u[0])
    ensures PrefixLen(u) == 0
  {
  }

  /** A stamp assembled from its parts: the 20-character head, the fraction
      digits, `Z`, white space, `[inf]` and white space. */
  lemma StampShape(head: seq<char>, frac: seq<char>, ws1: seq<char>, ws2: seq<char>)
    requires |head| == 20 && HasHead(head)
    requires frac != [] && forall i :: 0 <= i < |frac| ==> IsDigit(frac[i])
    requires ws1 != [] && forall i :: 0 <= i < |ws1| ==> IsJsSpace(ws1[i])
    requires ws2 != [] && forall i :: 0 <= i < |ws2| ==> IsJsSpace(ws2[i])
    ensures Shape(head + frac + "Z" + ws1 + "[inf]" + ws2, 20 + |frac|, 21 + |frac| + |ws1|)
  {
    var t := head + frac + "Z" + ws1 + "[inf]" + ws2;
    var z := 20 + |frac|;
    var b := z + 1 + |ws1|;
    assert forall i :: 0 <= i < 20 ==> t[i] == head[i];
    assert t[z] == 'Z';
    assert t[b .. b + 5] == Tag;
    assert HasHead(t);
    assert AllIn(t, 20, z, Digit) by {
      forall i | 20 <= i < z ensures IsDigit(t[i]) {
        assert t[i] == frac[i - 20];
      }
    }
    assert AllIn(t, z + 1, b, Space) by {
      forall i | z + 1 <= i < b ensures IsJsSpace(t[i]) {
        assert t[i] == ws1[i - z - 1];
      }
    }
    assert AllIn(t, b + 5, |t|, Space) by {
      forall i | b + 5 <= i < |t| ensures IsJsSpace(t[i]) {
        assert t[i] == ws2[i - b - 5];
      }
    }
  }

  /** More white space after a stamp leaves a longer stamp. */
  lemma StampExtends(e: seq<char>, z: nat, b: nat, w: seq<char>)
    requires Shape(e, z, b)
    requires forall i :: 0 <= i < |w| ==> IsJsSpace(w[i])
    ensures Shape(e + w, z, b)
  {
    var t := e + w;
    assert forall i :: 0 <= i < |e| ==> t[i] == e[i];
    assert t[b .. b + 5] == e[b .. b + 5];
    assert AllIn(t, b + 5, |t|, Space) by {
      forall i | b + 5 <= i < |t| ensures IsJsSpace(t[i]) {
        if i >= |e| {
          assert t[i] == w[i - |e|];
        }
      }
    }
  }
}
