/**
 * The four cleaning steps the scripts apply to a book's text, and what each
 * of the two regular-expression steps does to the lines it meets.
 */
module Cleaning {
  import opened JsText
  import opened GlobalReplace
  import DateRegex
  import OfCourseRegex
  import opened StringOps

  /** `text.replace(dateRegex, '')`: deletes every log-timestamp prefix that
      starts a line of the original text. */
  function StripTimestamps(s: seq<char>): (r: seq<char>)
    ensures IsSubsequence(r, s)
  {
    DeleteIsSubsequence(Regex(DatePrefix), s, 0);
    assert s[0..] == s;
    Delete(DatePrefix, s)
  }

  /** `text.replace(ofCourseRegex, '')`: deletes every line that starts with
      "Of course. Here is", together with the `\r`/`\n` run that ends it. */
  function RemoveOfCourseLines(s: seq<char>): (r: seq<char>)
    ensures IsSubsequence(r, s)
  {
    DeleteIsSubsequence(Regex(OfCourseLine), s, 0);
    assert s[0..] == s;
    Delete(OfCourseLine, s)
  }

  // ---------------------------------------------------------------------
  // Timestamp prefixes

  /** The example of a log prefix the scripts document,
      "2025-09-01T18:41:13.175633843Z [inf]  ". It is spelled as its parts
      (head, fraction, `Z`, space, tag, spaces) so that `StampShape`'s result
      is about the very same expression. */
  const LogPrefixExample: seq<char> := LogHead + "175633843" + "Z" + " " + "[inf]" + "  "
  const LogHead: seq<char> := "2025-09-01T18:41:13."

  lemma LogPrefixExampleIsStamp()
    ensures DateRegex.Shape(LogPrefixExample, 29, 31)
  {
    assert DateRegex.HasHead(LogHead);
    DateRegex.StampShape(LogHead, "175633843", " ", "  ");
  }

  /** A text none of whose lines starts with a digit has no timestamp to
      strip. */
  lemma NoDigitAtLineStartUntouched(s: seq<char>)
    requires forall i :: 0 <= i < |s| && AtLineStart(s, i) ==> !IsDigit(s[i])
    ensures StripTimestamps(s) == s
  {
    forall i | 0 <= i < |s|
      ensures !Starts(Regex(DatePrefix), s, i)
    {
      StartsIff(DatePrefix, s, i);
      if AtLineStart(s, i) {
        DateRegex.NoDigitNoMatch(s[i..]);
      }
    }
    DeleteIsIdentityIff(Regex(DatePrefix), s);
  }

  /** A complete stamp `e` at the start of the text is the first match, and
      the replace carries on right after it. */
  lemma StampIsFirstMatch(e: seq<char>, z: nat, b: nat, v: seq<char>)
    requires DateRegex.Shape(e, z, b)
    requires v == [] || !IsJsSpace(v[0])
    ensures StripTimestamps(e + v) == DeleteFrom(Regex(DatePrefix), e + v, |e|)
  {
    var s := e + v;
    assert s[..|e|] == e;
    DateRegex.PrefixLenOfShape(s, |e|, z, b);
    assert s[0..] == s;
    StartsIff(DatePrefix, s, 0);
  }

  /** A complete stamp `e` at the start of the text is deleted, together with
      all the white space after it; the rest is cleaned as if it stood
      alone, provided it does not itself start with a stamp. */
  lemma StripLeadingStamp(e: seq<char>, z: nat, b: nat, v: seq<char>)
    requires DateRegex.Shape(e, z, b)
    requires v == [] || !IsJsSpace(v[0])
    requires !HasMatchAt(DatePrefix, v, 0)
    ensures StripTimestamps(e + v) == StripTimestamps(v)
  {
    StampIsFirstMatch(e, z, b, v);
    DeleteAfterText(DatePrefix, e, v);
  }

  /** A stamp followed by the rest of its line: when neither the stamp nor the
      rest contains a line terminator, only the stamp goes, even if the rest
      starts with a second stamp (that one is not at a line start of the
      original text). */
  lemma StripStampedLine(e: seq<char>, z: nat, b: nat, t: seq<char>)
    requires DateRegex.Shape(e, z, b) && !IsLineTerminator(e[|e| - 1])
    requires t == [] || !IsJsSpace(t[0])
    requires forall i :: 0 <= i < |t| ==> !IsLineTerminator(t[i])
    ensures StripTimestamps(e + t) == t
  {
    StampIsFirstMatch(e, z, b, t);
    DeleteKeepsRestOfLine(DatePrefix, e, t);
  }

  /** The documented example: the prefix is removed and the text after it
      stays. */
  lemma DocumentedExampleRemoved(t: seq<char>)
    requires t == [] || !IsJsSpace(t[0])
    requires !HasMatchAt(DatePrefix, t, 0)
    ensures StripTimestamps(LogPrefixExample + t) == StripTimestamps(t)
  {
    LogPrefixExampleIsStamp();
    StripLeadingStamp(LogPrefixExample, 29, 31, t);
  }

  /** Two stamps stacked on one line: one pass removes only the first, a second
      pass removes the other, so stripping is not idempotent. */
  lemma StripNotIdempotent()
    ensures StripTimestamps(LogPrefixExample + LogPrefixExample + "x") == LogPrefixExample + "x"
    ensures StripTimestamps(StripTimestamps(LogPrefixExample + LogPrefixExample + "x")) == "x"
  {
    LogPrefixExampleIsStamp();
    var t := LogPrefixExample + "x";
    assert forall i :: 0 <= i < |t| ==> !IsLineTerminator(t[i]);
    assert LogPrefixExample + LogPrefixExample + "x" == LogPrefixExample + t;
    StripStampedLine(LogPrefixExample, 29, 31, t);
    StripStampedLine(LogPrefixExample, 29, 31, "x");
  }

  /** The final `\s+` also takes line breaks: a stamp followed by blank lines
      swallows them and the next line's indentation. */
  lemma StampSwallowsBlankLines()
    ensures StripTimestamps(LogPrefixExample + "\n\n  " + "Text") == "Text"
  {
    LogPrefixExampleIsStamp();
    var e := LogPrefixExample + "\n\n  ";
    DateRegex.StampExtends(LogPrefixExample, 29, 31, "\n\n  ");
    StripStampedLine(e, 29, 31, "Text");
  }

  /** A stamp with another date and an all-zero fraction,
      "2024-01-01T00:00:00.000000000Z [inf]  ", spelled as its parts for the
      same reason. */
  const FirstLineStamp: seq<char> := "2024-01-01T00:00:00." + "000000000" + "Z" + " " + "[inf]" + "  "

  lemma FirstLineStampIsStamp()
    ensures DateRegex.Shape(FirstLineStamp, 29, 31)
  {
    assert DateRegex.HasHead("2024-01-01T00:00:00.");
    DateRegex.StampShape("2024-01-01T00:00:00.", "000000000", " ", "  ");
  }

  /** A timestamp at the start of the first line is stripped, the following
      lines are left alone. */
  lemma StripFirstLineExample()
    ensures StripTimestamps(FirstLineStamp + "Hello\nWorld") == "Hello\nWorld"
  {
    var v := "Hello\nWorld";
    FirstLineStampIsStamp();
    NoDigitAtLineStartUntouched(v);
    NoStampAtStart(v);
    StripLeadingStamp(FirstLineStamp, 29, 31, v);
  }

  /** A text that does not start with a digit has no stamp at its start. */
  lemma NoStampAtStart(v: seq<char>)
    requires v != [] && !IsDigit(v[0])
    ensures !HasMatchAt(DatePrefix, v, 0)
  {
    MatchLenPositiveIff(DatePrefix, v, 0);
    DateRegex.NoDigitNoMatch(v);
    assert v[0..] == v;
  }

  // ---------------------------------------------------------------------
  // "Of course. Here is" lines

  /** A text none of whose lines starts with `O` has no line to remove. */
  lemma NoOAtLineStartUntouched(s: seq<char>)
    requires forall i :: 0 <= i < |s| && AtLineStart(s, i) ==> s[i] != 'O'
    ensures RemoveOfCourseLines(s) == s
  {
    forall i | 0 <= i < |s|
      ensures !Starts(Regex(OfCourseLine), s, i)
    {
      StartsIff(OfCourseLine, s, i);
      if AtLineStart(s, i) {
        OfCourseRegex.NoMatchWithoutLeadingO(s[i..]);
      }
    }
    DeleteIsIdentityIff(Regex(OfCourseLine), s);
  }

  /** A line made of the phrase, the rest `x` of the line and the run `r` of
      `\r`/`\n` after it disappears entirely; what follows is cleaned as if
      it stood alone. */
  lemma OfCourseLineRemoved(x: seq<char>, r: seq<char>, y: seq<char>)
    requires forall i :: 0 <= i < |x| ==> !IsLineTerminator(x[i])
    requires r != [] && forall i :: 0 <= i < |r| ==> IsCrOrLf(r[i])
    requires y == [] || !IsCrOrLf(y[0])
    ensures RemoveOfCourseLines(OfCourseRegex.Phrase + x + r + y) == RemoveOfCourseLines(y)
  {
    var line := OfCourseRegex.Phrase + x + r;
    OfCourseLineIsFirstMatch(x, r, y);
    assert line[|line| - 1] == r[|r| - 1];
    DeleteAfterText(OfCourseLine, line, y);
  }

  /** A phrase line with its whole `\r`/`\n` run at the start of the text is
      the first match, and the replace carries on right after it. */
  lemma OfCourseLineIsFirstMatch(x: seq<char>, r: seq<char>, y: seq<char>)
    requires forall i :: 0 <= i < |x| ==> !IsLineTerminator(x[i])
    requires r != [] && forall i :: 0 <= i < |r| ==> IsCrOrLf(r[i])
    requires y == [] || !IsCrOrLf(y[0])
    ensures var line := OfCourseRegex.Phrase + x + r;
      RemoveOfCourseLines(line + y) == DeleteFrom(Regex(OfCourseLine), line + y, |line|)
  {
    var s := OfCourseRegex.Phrase + x + r + y;
    var k := |OfCourseRegex.Phrase + x + r|;
    OfCourseRegex.LineShape(x, r, y);
    assert s[0..] == s;
    assert MatchLen(OfCourseLine, s, 0) == k;
    StartsIff(OfCourseLine, s, 0);
    assert Regex(OfCourseLine)(s, 0) == k;
  }

  /** The characters of the phrase are neither `\r`, `\n` nor other line
      terminators. */
  lemma PhraseHasNoLineTerminator()
    ensures forall i :: 0 <= i < |OfCourseRegex.Phrase| ==> !IsLineTerminator(OfCourseRegex.Phrase[i])
  {
  }

  /** A matching line with no `\r` or `\n` after it, the last line of the
      text, is kept. */
  lemma FinalOfCourseLineKept(x: seq<char>)
    requires forall i :: 0 <= i < |x| ==> !IsLineTerminator(x[i])
    ensures RemoveOfCourseLines(OfCourseRegex.Phrase + x) == OfCourseRegex.Phrase + x
  {
    var s := OfCourseRegex.Phrase + x;
    PhraseHasNoLineTerminator();
    assert forall j :: 0 <= j < |s| ==> !IsLineTerminator(s[j]) by {
      forall j | 0 <= j < |s| ensures !IsLineTerminator(s[j]) {
        if j >= 18 {
          assert s[j] == x[j - 18];
        }
      }
    }
    forall i | 0 <= i < |s|
      ensures !Starts(Regex(OfCourseLine), s, i)
    {
      StartsIff(OfCourseLine, s, i);
      if i == 0 {
        assert s[0..] == s;
        OfCourseRegex.NoMatchWithoutCrOrLf(s, |s|);
      } else {
        NoMatchInsideLine(OfCourseLine, s, i);
      }
    }
    DeleteIsIdentityIff(Regex(OfCourseLine), s);
  }

  /** A matching line ended by U+2028 or U+2029 rather than `\r` or `\n` is
      kept, with its separator; the following lines are cleaned as usual. */
  lemma OfCourseLineBeforeSeparatorKept(x: seq<char>, c: char, y: seq<char>)
    requires forall i :: 0 <= i < |x| ==> !IsLineTerminator(x[i])
    requires c == '\U{2028}' || c == '\U{2029}'
    ensures RemoveOfCourseLines(OfCourseRegex.Phrase + x + [c] + y)
         == OfCourseRegex.Phrase + x + [c] + RemoveOfCourseLines(y)
  {
    var line := OfCourseRegex.Phrase + x + [c];
    var s := line + y;
    var q := 18 + |x|;
    var m := Regex(OfCourseLine);
    assert s == OfCourseRegex.Phrase + x + [c] + y;
    PhraseHasNoLineTerminator();
    assert forall j :: 0 <= j < q ==> !IsLineTerminator(s[j]) by {
      forall j | 0 <= j < q ensures !IsLineTerminator(s[j]) {
        if j >= 18 {
          assert s[j] == x[j - 18];
        } else {
          assert s[j] == OfCourseRegex.Phrase[j];
        }
      }
    }
    forall i | 0 <= i < |line|
      ensures !Starts(m, s, i)
    {
      StartsIff(OfCourseLine, s, i);
      if i == 0 {
        assert s[0..] == s;
        assert s[q] == c;
        OfCourseRegex.NoMatchWithoutCrOrLf(s, q);
      } else {
        NoMatchInsideLine(OfCourseLine, s, i);
      }
    }
    DeleteKeepsUnmatched(m, s, 0, |line|);
    assert s[0..|line|] == line;
    DeleteIgnoresEarlierText(OfCourseLine, line, y, 0);
  }

  /** The first `k` characters of a text survive the step when they contain no
      line terminator and the text does not start with `O`. */
  lemma LeadingLineKept(t: seq<char>, k: nat)
    requires k <= |t|
    requires forall i :: 0 <= i < k ==> !IsLineTerminator(t[i])
    requires t == [] || t[0] != 'O'
    ensures k <= |RemoveOfCourseLines(t)| && RemoveOfCourseLines(t)[..k] == t[..k]
  {
    var m := Regex(OfCourseLine);
    forall i | 0 <= i < k
      ensures !Starts(m, t, i)
    {
      StartsIff(OfCourseLine, t, i);
      if i == 0 {
        assert t[0..] == t;
        OfCourseRegex.NoMatchWithoutLeadingO(t);
      } else {
        NoMatchInsideLine(OfCourseLine, t, i);
      }
    }
    DeleteKeepsUnmatched(m, t, 0, k);
    assert t[0..k] == t[..k];
  }

  /** A preamble line and its line break vanish, leaving the content. */
  lemma OfCourseExample()
    ensures RemoveOfCourseLines(OfCourseRegex.Phrase + " your text:" + "\n" + "Actual content") == "Actual content"
  {
    OfCourseLineRemoved(" your text:", "\n", "Actual content");
    NoOAtLineStartUntouched("Actual content");
  }
}
