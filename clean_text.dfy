/**
 * The cleaning each book route of the web server applies to the text it reads
 * before wrapping it in HTML. Every route strips the log timestamps first and
 * then runs its own fixed sequence of the remaining steps.
 */
module CleanText {
  import opened JsText
  import opened StringOps
  import opened Cleaning
  import OfCourseRegex

  /** Where each book's actual content begins. The literals are spelled in
      short pieces so that the proofs about them compare the same pieces
      instead of checking long literals character by character; joined, they
      are exactly the markers of the scripts. */
  const ArchitectsMarker: seq<char> := ArchitectsOpening + ArchitectsClosing
  const ArchitectsOpening: seq<char> :=
    "The dust had a " + "particular taste " + "here, a metallic " + "grit that settled "
  const ArchitectsClosing: seq<char> := "on the tongue " + "and clung to the " + "back of the throat."
  const StillnessMarker: seq<char> := "The sun did not " + "so much rise over"
  const DumplingsMarker: seq<char> := "The Beijing air " + "hit me like a "
  const WisdomMarker: seq<char> := "The sun fell " + "upon the sacred"

  /** A marker that begins with `T` and is made of printable ASCII other than
      `*` and `'`: it holds no line terminator and nothing the later steps
      delete. */
  predicate PlainMarker(m: seq<char>) {
    m != [] && m[0] == 'T' && PlainText(m)
  }

  predicate PlainText(m: seq<char>) {
    forall i :: 0 <= i < |m| ==> ' ' <= m[i] <= '~' && m[i] != '*' && m[i] != '\''
  }

  lemma PlainTextAppend(a: seq<char>, b: seq<char>)
    requires PlainText(a) && PlainText(b)
    ensures PlainText(a + b)
  {
    assert forall i :: |a| <= i < |a + b| ==> (a + b)[i] == b[i - |a|];
  }

  lemma ArchitectsMarkerIsPlain()
    ensures PlainMarker(ArchitectsMarker)
  {
    ArchitectsOpeningIsPlain();
    ArchitectsClosingIsPlain();
    PlainTextAppend(ArchitectsOpening, ArchitectsClosing);
  }

  lemma ArchitectsOpeningIsPlain()
    ensures PlainText(ArchitectsOpening)
  {
    var p1, p2, p3, p4 := "The dust had a ", "particular taste ", "here, a metallic ", "grit that settled ";
    assert PlainText(p1) && PlainText(p2) && PlainText(p3) && PlainText(p4);
    PlainTextAppend(p1, p2);
    PlainTextAppend(p1 + p2, p3);
    PlainTextAppend(p1 + p2 + p3, p4);
  }

  lemma ArchitectsClosingIsPlain()
    ensures PlainText(ArchitectsClosing)
  {
    var p1, p2, p3 := "on the tongue ", "and clung to the ", "back of the throat.";
    assert PlainText(p1) && PlainText(p2) && PlainText(p3);
    PlainTextAppend(p1, p2);
    PlainTextAppend(p1 + p2, p3);
  }

  lemma StillnessMarkerIsPlain()
    ensures PlainMarker(StillnessMarker)
  {
    var p1, p2 := "The sun did not ", "so much rise over";
    assert PlainText(p1) && PlainText(p2);
    PlainTextAppend(p1, p2);
  }

  lemma DumplingsMarkerIsPlain()
    ensures PlainMarker(DumplingsMarker)
  {
    var p1, p2 := "The Beijing air ", "hit me like a ";
    assert PlainText(p1) && PlainText(p2);
    PlainTextAppend(p1, p2);
  }

  lemma WisdomMarkerIsPlain()
    ensures PlainMarker(WisdomMarker)
  {
    var p1, p2 := "The sun fell ", "upon the sacred";
    assert PlainText(p1) && PlainText(p2);
    PlainTextAppend(p1, p2);
  }

  lemma MarkersArePlain()
    ensures PlainMarker(ArchitectsMarker) && PlainMarker(StillnessMarker)
    ensures PlainMarker(DumplingsMarker) && PlainMarker(WisdomMarker)
  {
    ArchitectsMarkerIsPlain();
    StillnessMarkerIsPlain();
    DumplingsMarkerIsPlain();
    WisdomMarkerIsPlain();
  }

  /** "The Architects of Silence": timestamps, truncation, preamble lines,
      asterisks. */
  function Architects(raw: seq<char>): (r: seq<char>)
    ensures IsSubsequence(r, raw) && '*' !in r
  {
    var t := StripTimestamps(raw);
    var u := TruncateAtMarker(t, ArchitectsMarker);
    var v := RemoveOfCourseLines(u);
    var w := RemoveAll(v, '*');
    SubsequenceTrans(u, t, raw);
    SubsequenceTrans(v, u, raw);
    SubsequenceTrans(w, v, raw);
    w
  }

  /** "The Stillness Valley": timestamps, truncation, apostrophes. */
  function Stillness(raw: seq<char>): (r: seq<char>)
    ensures IsSubsequence(r, raw) && '\'' !in r
  {
    var t := StripTimestamps(raw);
    var u := TruncateAtMarker(t, StillnessMarker);
    var w := RemoveAll(u, '\'');
    SubsequenceTrans(u, t, raw);
    SubsequenceTrans(w, u, raw);
    w
  }

  /** "The Dumpling Diaries": timestamps, truncation, asterisks. */
  function Dumplings(raw: seq<char>): (r: seq<char>)
    ensures IsSubsequence(r, raw) && '*' !in r
  {
    var t := StripTimestamps(raw);
    var u := TruncateAtMarker(t, DumplingsMarker);
    var w := RemoveAll(u, '*');
    SubsequenceTrans(u, t, raw);
    SubsequenceTrans(w, u, raw);
    w
  }

  /** "The Unheeded Oracle": timestamps, preamble lines, truncation,
      asterisks. */
  function Wisdom(raw: seq<char>): (r: seq<char>)
    ensures IsSubsequence(r, raw) && '*' !in r
  {
    var t := StripTimestamps(raw);
    var v := RemoveOfCourseLines(t);
    var u := TruncateAtMarker(v, WisdomMarker);
    var w := RemoveAll(u, '*');
    SubsequenceTrans(v, t, raw);
    SubsequenceTrans(u, v, raw);
    SubsequenceTrans(w, u, raw);
    w
  }

  /** The cleaned text is never longer than the file's text. */
  lemma CleanedNoLonger(raw: seq<char>)
    ensures |Architects(raw)| <= |raw| && |Stillness(raw)| <= |raw|
    ensures |Dumplings(raw)| <= |raw| && |Wisdom(raw)| <= |raw|
  {
    SubsequenceLength(Architects(raw), raw);
    SubsequenceLength(Stillness(raw), raw);
    SubsequenceLength(Dumplings(raw), raw);
    SubsequenceLength(Wisdom(raw), raw);
  }

  /** When the marker occurs in the text that reaches the truncation step,
      the book begins with its marker. */
  lemma ArchitectsBeginsWithMarker(raw: seq<char>)
    requires Occurs(StripTimestamps(raw), ArchitectsMarker)
    ensures |ArchitectsMarker| <= |Architects(raw)|
    ensures Architects(raw)[..|ArchitectsMarker|] == ArchitectsMarker
  {
    var m := ArchitectsMarker;
    MarkersArePlain();
    var u := TruncateAtMarker(StripTimestamps(raw), m);
    assert forall i :: 0 <= i < |m| ==> u[i] == m[i];
    LeadingLineKept(u, |m|);
    var v := RemoveOfCourseLines(u);
    RemoveAllKeepsPrefix(m, v, '*');
  }

  lemma StillnessBeginsWithMarker(raw: seq<char>)
    requires Occurs(StripTimestamps(raw), StillnessMarker)
    ensures |StillnessMarker| <= |Stillness(raw)|
    ensures Stillness(raw)[..|StillnessMarker|] == StillnessMarker
  {
    MarkersArePlain();
    RemoveAllKeepsPrefix(StillnessMarker, TruncateAtMarker(StripTimestamps(raw), StillnessMarker), '\'');
  }

  lemma DumplingsBeginsWithMarker(raw: seq<char>)
    requires Occurs(StripTimestamps(raw), DumplingsMarker)
    ensures |DumplingsMarker| <= |Dumplings(raw)|
    ensures Dumplings(raw)[..|DumplingsMarker|] == DumplingsMarker
  {
    MarkersArePlain();
    RemoveAllKeepsPrefix(DumplingsMarker, TruncateAtMarker(StripTimestamps(raw), DumplingsMarker), '*');
  }

  lemma WisdomBeginsWithMarker(raw: seq<char>)
    requires Occurs(RemoveOfCourseLines(StripTimestamps(raw)), WisdomMarker)
    ensures |WisdomMarker| <= |Wisdom(raw)|
    ensures Wisdom(raw)[..|WisdomMarker|] == WisdomMarker
  {
    MarkersArePlain();
    var v := RemoveOfCourseLines(StripTimestamps(raw));
    RemoveAllKeepsPrefix(WisdomMarker, TruncateAtMarker(v, WisdomMarker), '*');
  }

  /** A preamble line that itself contains the Wisdom marker, followed by one
      more line. */
  const PreambleWithMarker: seq<char> := "Of course. Here is " + WisdomMarker + "\n" + "Body"

  /** The order of truncation and preamble removal matters. Removing the
      preamble first (the Wisdom route's order) loses a marker that sits
      inside a preamble line... */
  lemma PreambleFirstLosesMarker()
    ensures TruncateAtMarker(RemoveOfCourseLines(PreambleWithMarker), WisdomMarker) == "Body"
  {
    MarkersArePlain();
    var x := " " + WisdomMarker;
    assert forall i :: 0 <= i < |x| ==> !IsLineTerminator(x[i]);
    assert "Of course. Here is " == OfCourseRegex.Phrase + " ";
    assert PreambleWithMarker == OfCourseRegex.Phrase + x + "\n" + "Body";
    OfCourseLineRemoved(x, "\n", "Body");
    NoOAtLineStartUntouched("Body");
    assert !OccursAt("Body", WisdomMarker, 0);
  }

  lemma TruncationFindsInnerMarker()
    ensures TruncateAtMarker(PreambleWithMarker, WisdomMarker) == WisdomMarker + "\n" + "Body"
  {
    var head := "Of course. Here is ";
    var rest := WisdomMarker + "\n" + "Body";
    assert PreambleWithMarker == head + rest;
    assert rest[..|WisdomMarker|] == WisdomMarker;
    TruncateAfterHead(head, rest, WisdomMarker);
  }

  /** ...while truncating first (the Architects route's order) keeps it. */
  lemma TruncationFirstKeepsMarker()
    ensures RemoveOfCourseLines(TruncateAtMarker(PreambleWithMarker, WisdomMarker)) == WisdomMarker + "\n" + "Body"
  {
    MarkersArePlain();
    TruncationFindsInnerMarker();
    var b := WisdomMarker + "\n" + "Body";
    assert forall j :: 0 <= j < |b| && AtLineStart(b, j) ==> b[j] != 'O';
    NoOAtLineStartUntouched(b);
  }

  /** Two plain lines joined by `\n`: the second line begins at the only
      line start after position 0, and no asterisk occurs. */
  lemma PlainTwoLines(a: seq<char>, b: seq<char>)
    requires PlainText(a) && PlainText(b)
    ensures '*' !in a + "\n" + b
    ensures forall j :: 0 < j < |a + "\n" + b| && AtLineStart(a + "\n" + b, j) ==> j == |a| + 1
  {
    var s := a + "\n" + b;
    assert forall i :: 0 <= i < |a| ==> s[i] == a[i];
    assert forall i :: |a| < i < |s| ==> s[i] == b[i - |a| - 1];
  }

  /** The opening of a preamble line followed by a plain marker is plain. */
  lemma PreambleOpeningIsPlain(m: seq<char>)
    requires PlainText(m)
    ensures PlainText("Of course. Here is " + m)
  {
    assert PlainText("Of course. Here is ");
    PlainTextAppend("Of course. Here is ", m);
  }

  /** The Wisdom route, which removes preamble lines before truncating, keeps
      only the line after a preamble line holding its marker. */
  lemma WisdomLosesInnerMarker()
    ensures Wisdom(PreambleWithMarker) == "Body"
  {
    MarkersArePlain();
    var a := "Of course. Here is " + WisdomMarker;
    PreambleOpeningIsPlain(WisdomMarker);
    assert PlainText("Body");
    PlainTwoLines(a, "Body");
    assert PreambleWithMarker[|a| + 1] == 'B';
    NoDigitAtLineStartUntouched(PreambleWithMarker);
    PreambleFirstLosesMarker();
    RemoveAllAbsent("Body", '*');
  }

  /** A preamble line holding the marker `m`, followed by one more line. */
  function PreambleHolding(m: seq<char>): seq<char> {
    "Of course. Here is " + m + "\n" + "Body"
  }

  /** No line of a preamble holding a plain marker starts with a digit, so
      timestamp stripping leaves it alone. */
  lemma PreambleHoldingHasNoStamp(m: seq<char>)
    requires PlainMarker(m)
    ensures StripTimestamps(PreambleHolding(m)) == PreambleHolding(m)
  {
    var a := "Of course. Here is " + m;
    PreambleOpeningIsPlain(m);
    assert PlainText("Body");
    PlainTwoLines(a, "Body");
    assert PreambleHolding(m)[|a| + 1] == 'B';
    NoDigitAtLineStartUntouched(PreambleHolding(m));
  }

  /** Truncating first cuts the preamble opening and keeps the marker and the
      line after it... */
  lemma TruncatedPreamble(m: seq<char>)
    requires PlainMarker(m)
    ensures TruncateAtMarker(PreambleHolding(m), m) == m + "\n" + "Body"
  {
    var head := "Of course. Here is ";
    assert head + m + ("\n" + "Body") == PreambleHolding(m);
    assert m + ("\n" + "Body") == m + "\n" + "Body";
    TruncateAtMarkerAfter(head, m, "\n" + "Body");
  }

  /** ...which no later Architects step touches. */
  lemma MarkerLinesKept(m: seq<char>)
    requires PlainMarker(m)
    ensures RemoveOfCourseLines(m + "\n" + "Body") == m + "\n" + "Body"
    ensures RemoveAll(m + "\n" + "Body", '*') == m + "\n" + "Body"
  {
    assert PlainText("Body");
    PlainTwoLines(m, "Body");
    var b := m + "\n" + "Body";
    assert b[|m| + 1] == 'B';
    NoOAtLineStartUntouched(b);
    RemoveAllAbsent(b, '*');
  }

  /** The Architects route, which truncates before removing preamble lines,
      keeps a marker that sits inside a preamble line, and everything after
      it. */
  lemma ArchitectsKeepsInnerMarker()
    ensures Architects(PreambleHolding(ArchitectsMarker)) == ArchitectsMarker + "\n" + "Body"
  {
    MarkersArePlain();
    PreambleHoldingHasNoStamp(ArchitectsMarker);
    TruncatedPreamble(ArchitectsMarker);
    MarkerLinesKept(ArchitectsMarker);
  }

  /** Noise before the opening words of the Architects text is cut off. */
  lemma TruncationExample()
    ensures TruncateAtMarker("noise...\n" + "The dust had a particular taste here" + "...\nrest",
                             "The dust had a particular taste here")
         == "The dust had a particular taste here" + "...\nrest"
  {
    TruncateAtMarkerAfter("noise...\n", "The dust had a particular taste here", "...\nrest");
  }
}
