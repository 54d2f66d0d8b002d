# Noise remover: the text-cleaning core

A small web server serves four books. For each book it reads a text file
whose lines may carry log timestamp prefixes such as
`2025-09-01T18:41:13.175633843Z [inf]  `, and which may hold conversational
lines opening with "Of course. Here is". It cleans the text and wraps it
in HTML. A stand-alone script does the first cleaning step on its own.
This project models the cleaning and proves what each step does.

The four cleaning steps are:

1. **Timestamp stripping.** `text.replace(dateRegex, '')` with
   `/^\d{4}-\d{2}-\d{2}T\d{2}:\d{2}:\d{2}\.\d+Z\s+\[inf\]\s+/gm` deletes every
   log prefix that starts a line (`Cleaning.StripTimestamps`).
2. **Preamble line removal.** `text.replace(ofCourseRegex, '')` with
   `/^Of course\. Here is.*?[\r\n]+/gm` deletes each line that opens with
   the phrase, together with the run of `\r`/`\n` after it
   (`Cleaning.RemoveOfCourseLines`).
3. **Truncation.** `indexOf` plus `substring` drops everything before the
   first occurrence of the book's start marker. It does nothing when the
   marker is absent (`StringOps.TruncateAtMarker`).
4. **Character removal.** `replaceAll('*', '')` removes asterisks, or
   `replaceAll("'", '')` removes apostrophes (`StringOps.RemoveAll`).

Each route runs these steps in its own order (`CleanText.Architects`,
`Stillness`, `Dumplings`, `Wisdom`). The script runs step 1 alone with the
same expression (`IndexScript.CleanedText`).

Modules:

- `JsText` holds the character classes of JavaScript regular expressions
  (`\d`, `\s`, `.`, `[\r\n]`) and the multiline `^`. It also defines greedy
  runs (`RunEnd`), subsequences and character counts.
- `DateRegex` and `OfCourseRegex` each describe their pattern's language
  (`Shape`, `InLanguage`) and give a deterministic matcher (`PrefixLen`).
  Each proves the matcher returns the longest prefix in the language. For
  these two patterns, that is the match a backtracking engine reports.
- `GlobalReplace` models a global replace by the empty string. It scans the
  original text left to right, and `^` is judged against the original text.
  It proves exactly which spans are cut out.
- `StringOps` models `indexOf`, the truncation and `replaceAll` of one
  character.
- `Cleaning` covers the two regular-expression steps and what they do to
  the lines they meet.
- `CleanText` covers the four routes and their markers.
- `IndexScript` covers the stand-alone script.

Two properties one might expect of the cleaning do not hold, and the model
proves that they fail:

- Timestamp stripping is not idempotent. All matches are found in one pass
  over the original text. On a line that carries two stacked prefixes, the
  second prefix is not at a line start of the original, so it survives. A
  second pass then removes it (`Cleaning.StripNotIdempotent`).
- A line that starts with the phrase can survive the preamble step. The
  pattern needs a `\r` or `\n` after the line, and `.` refuses U+2028 and
  U+2029. So a phrase line that is the last line of the text is kept
  (`Cleaning.FinalOfCourseLineKept`). So is a phrase line ended by U+2028 or
  U+2029 (`Cleaning.OfCourseLineBeforeSeparatorKept`).

## Model

| member | source | states |
|---|---|---|
| JsText.IsDigit | clean_text.js:14 | `\d`: the ASCII digits `0` to `9` |
| JsText.IsCrOrLf | clean_text.js:17 | `[\r\n]`: carriage return or line feed, and no other line terminator |
| JsText.IsJsSpace | clean_text.js:14 | `\s`: the JavaScript white space characters and the line terminators |
| JsText.IsLineTerminator | clean_text.js:17 | the characters `.` refuses and after which multiline `^` holds: `\n`, `\r`, U+2028, U+2029 |
| JsText.AtLineStart | clean_text.js:17 | multiline `^`: position 0 or right after a line terminator of the text |
| DateRegex.HasHead | clean_text.js:14 | the fixed head `\d{4}-\d{2}-\d{2}T\d{2}:\d{2}:\d{2}\.`: four, two and two digits separated by `-`, then `T`, two, two and two digits separated by `:`, then `.` |
| DateRegex.Shape | clean_text.js:14 | the language of the timestamp pattern without `^`, with the positions of `Z` and `[inf]` named |
| DateRegex.InLanguage | clean_text.js:14 | a text is a whole match of the timestamp pattern |
| OfCourseRegex.StartsWithPhrase | clean_text.js:17 | the text starts with the literal `Of course. Here is` (the escaped `\.` is a plain dot) |
| OfCourseRegex.Shape | clean_text.js:17 | the language of the preamble pattern without `^`, with the length of the lazy `.*?` part named |
| OfCourseRegex.InLanguage | clean_text.js:17 | a text is a whole match of the preamble pattern |
| GlobalReplace.Regex | clean_text.js:14-17 | a `/^…/gm` expression as a matcher: at a position of the whole text it reports the length of the anchored match there, 0 when there is none |
| GlobalReplace.DeleteFrom | clean_text.js:38 | the left-to-right scan of a global replace by the empty string: a match is skipped, otherwise one character is kept |
| GlobalReplace.Delete | index.js:19 | `s.replace(re, '')` for one of the two patterns, the scan from the start of the text |
| GlobalReplace.HasMatchAt | clean_text.js:14 | `^` plus the pattern matches at a position: a line start where a non-empty prefix of the rest is in the language |
| JsText.RunEnd | clean_text.js:14 | a greedy run of one character class ends where the class stops or at the end of the text, and every character before that is in the class |
| DateRegex.PrefixLen | clean_text.js:14 | a match at the start of a text is never longer than the text, and only a text with the fixed date-and-time head can match |
| DateRegex.PrefixLenIsLongestMatch | clean_text.js:14 | the matcher returns a prefix in the pattern's language, and no longer prefix is in it; it returns 0 exactly when no prefix is |
| DateRegex.MatchHasShape | index.js:9 | every match has all its parts: exactly 4-2-2 date digits and 2-2-2 time digits with their separators, at least one fraction digit, `Z`, white space, `[inf]`, white space; a prefix missing any part is not matched |
| DateRegex.MatchNoLonger | clean_text.js:14 | any prefix in the language is no longer than the match |
| DateRegex.ShapeIsForced | clean_text.js:14 | in any match the fraction digits and the first white space run are maximal, so the parts are forced |
| DateRegex.PrefixLenOfShape | index.js:9 | a complete stamp not followed by more white space is exactly what is matched; the final `\s+` is maximal |
| DateRegex.NoDigitNoMatch | index.js:9 | a text that does not start with a digit has no match |
| DateRegex.StampShape | index.js:8 | head, fraction digits, `Z`, white space, `[inf]` and white space assembled in order form a stamp |
| DateRegex.StampExtends | index.js:9 | more white space after a stamp still belongs to the stamp |
| OfCourseRegex.PrefixLen | clean_text.js:17 | a match starts with the phrase and ends with `\r` or `\n` |
| OfCourseRegex.PrefixLenIsLongestMatch | clean_text.js:17 | the matcher returns a prefix in the pattern's language, and no longer prefix is in it; it returns 0 exactly when no prefix is |
| OfCourseRegex.ShapeIsForced | clean_text.js:17 | in any match the lazy `.*?` stops at the end of the first line, which must be `\r` or `\n`, and the match ends inside the following `\r`/`\n` run |
| OfCourseRegex.PrefixLenOfShape | clean_text.js:17 | the phrase line plus its whole `\r`/`\n` run is exactly what is matched |
| OfCourseRegex.LineShape | clean_text.js:17 | phrase, rest of the line, and a `\r`/`\n` run form the whole match when the next character does not extend the run |
| OfCourseRegex.NoMatchWithoutCrOrLf | clean_text.js:17 | a phrase line ended by the end of the text, U+2028 or U+2029 before any `\r`/`\n` is not matched |
| OfCourseRegex.NoMatchWithoutLeadingO | clean_text.js:17 | a text that does not start with `O` has no match |
| GlobalReplace.MatchesFrom | clean_text.js:38 | every span the scan lists starts at or after the scan position |
| GlobalReplace.MatchesAreMatches | clean_text.js:38 | the listed spans are matches at their starts, in order, without overlap |
| GlobalReplace.MatchesAreComplete | clean_text.js:38 | every position outside the listed spans has no match |
| GlobalReplace.DeleteRemovesMatches | clean_text.js:38 | the result is the original text with exactly the listed spans cut out |
| GlobalReplace.DeleteLength | index.js:19 | the result is shorter than the text by the total length of the matches |
| GlobalReplace.DeleteIsSubsequence | clean_text.js:38 | the replace only deletes: its result is a subsequence of the text |
| GlobalReplace.DeleteKeepsUnmatched | clean_text.js:38 | a stretch with no match start is copied through unchanged |
| GlobalReplace.DeleteIsIdentityIff | clean_text.js:38 | the replace leaves the text unchanged exactly when no match starts anywhere |
| GlobalReplace.DeleteShift | clean_text.js:38 | for an anchored matcher, the text before a line start does not change how the rest is cleaned |
| GlobalReplace.ShiftedView | clean_text.js:14 | a position inside the second part of a concatenation sees the same text after it and the same line-start status |
| GlobalReplace.MatchLen | clean_text.js:14 | a match found at a position fits in the text |
| GlobalReplace.MatchLenIsLongestMatch | clean_text.js:14 | a match starts only at a line start of the original text, is in the language, and is the longest prefix there in the language |
| GlobalReplace.MatchLenPositiveIff | clean_text.js:14 | the matcher finds a match at a position exactly when the anchored pattern matches there |
| GlobalReplace.StartsIff | clean_text.js:14 | the scan sees a match start exactly where the matcher reports a non-empty match |
| GlobalReplace.DeleteUnchangedIff | index.js:19 | `s.replace(re, '')` returns `s` exactly when the pattern matches at no line start of `s` |
| GlobalReplace.DeleteSpec | index.js:19 | the replace lists spans in order without overlap; each span is the longest match at a line start; every line start outside them has no match; the result is the text with exactly these spans cut out, shorter by their total length |
| GlobalReplace.NoMatchInsideLine | index.js:9 | a position after a character that is not a line terminator is never a match start |
| GlobalReplace.RegexIsAnchored | clean_text.js:14 | a pattern's answer at a position depends only on the line-start status there and the text after it |
| GlobalReplace.DeleteIgnoresEarlierText | clean_text.js:38 | the text before a line start does not change how the rest is cleaned |
| GlobalReplace.DeleteAfterText | clean_text.js:38 | after a deleted span the scan goes on with the rest as if it stood alone, unless a match would start mid-line |
| GlobalReplace.DeleteKeepsRestOfLine | index.js:9 | text that continues a line and contains no line terminator survives the replace |
| StringOps.IndexFrom | clean_text.js:41 | the first occurrence at or after a position, or -1 when there is none from there on |
| StringOps.IndexOf | clean_text.js:41 | `indexOf` is -1 exactly when the marker does not occur, and otherwise is its first occurrence |
| StringOps.TruncateAtMarker | clean_text.js:41-44 | when the marker occurs, the result is the suffix starting at its first occurrence, so it begins with the marker and no occurrence starts earlier; otherwise the text is unchanged; the result is a suffix and a subsequence |
| StringOps.TruncateAfterHead | clean_text.js:255-258 | a head free of the marker's first character, followed by the marker, is cut off exactly |
| StringOps.TruncateAtMarkerAfter | clean_text.js:41-44 | the same with the text after the marker named: the result is the marker followed by that text |
| StringOps.RemoveAll | clean_text.js:50 | no occurrence of the character remains, every other character is kept as often as before and in order, and the length drops by the occurrence count |
| StringOps.RemoveAllAbsent | clean_text.js:121 | a text without the character is left unchanged |
| StringOps.RemoveAllUnchangedIff | clean_text.js:50 | `replaceAll(c, '')` returns the text itself exactly when `c` does not occur in it |
| StringOps.RemoveAllIdempotent | clean_text.js:190 | removing the character twice is removing it once |
| StringOps.RemoveAllAppend | clean_text.js:261 | removal works piece by piece over a concatenation |
| StringOps.RemoveAllKeepsPrefix | clean_text.js:50 | a prefix without the character survives the removal |
| StringOps.RemoveAllExample | clean_text.js:50 | `"wo*r*ld"` loses its asterisks and becomes `"world"` |
| Cleaning.StripTimestamps | clean_text.js:38 | the timestamp step only deletes: its result is a subsequence of the text |
| Cleaning.RemoveOfCourseLines | clean_text.js:47 | the preamble step only deletes: its result is a subsequence of the text |
| Cleaning.LogPrefixExampleIsStamp | index.js:8 | the documented example `2025-09-01T18:41:13.175633843Z [inf]  ` is a complete stamp |
| Cleaning.NoDigitAtLineStartUntouched | clean_text.js:38 | a text none of whose lines starts with a digit is unchanged by the timestamp step |
| Cleaning.StampIsFirstMatch | clean_text.js:38 | a complete stamp at the start of the text is deleted as the first match |
| Cleaning.StripLeadingStamp | clean_text.js:38 | a stamp at the start is deleted with all white space after it, and the rest is cleaned as if it stood alone |
| Cleaning.StripStampedLine | index.js:9 | a stamp followed by the rest of its line loses only the stamp, even if the rest starts with another stamp |
| Cleaning.DocumentedExampleRemoved | index.js:8-9 | the documented example before some text is removed, and the text is cleaned as if it stood alone |
| Cleaning.StripNotIdempotent | clean_text.js:38 | two stacked stamps lose only the first in one pass, and the second pass removes the other: the step is not idempotent |
| Cleaning.StampSwallowsBlankLines | index.js:9 | the final `\s+` takes line breaks: a stamp followed by blank lines swallows them and the next line's indentation |
| Cleaning.FirstLineStampIsStamp | index.js:9 | `2024-01-01T00:00:00.000000000Z [inf]  ` is a complete stamp |
| Cleaning.StripFirstLineExample | clean_text.js:38 | `2024-01-01T00:00:00.000000000Z [inf]  Hello\nWorld` becomes `Hello\nWorld` |
| Cleaning.NoStampAtStart | index.js:9 | a text not starting with a digit has no stamp at its start |
| Cleaning.NoOAtLineStartUntouched | clean_text.js:47 | a text none of whose lines starts with `O` is unchanged by the preamble step |
| Cleaning.OfCourseLineIsFirstMatch | clean_text.js:47 | a phrase line with its whole `\r`/`\n` run at the start of the text is deleted as the first match |
| Cleaning.OfCourseLineRemoved | clean_text.js:17 | a phrase line and its whole `\r`/`\n` run vanish, and what follows is cleaned as if it stood alone |
| Cleaning.PhraseHasNoLineTerminator | clean_text.js:17 | the phrase itself holds no line terminator |
| Cleaning.FinalOfCourseLineKept | clean_text.js:17 | a phrase line with no `\r`/`\n` after it, the last line of the text, is kept |
| Cleaning.OfCourseLineBeforeSeparatorKept | clean_text.js:252 | a phrase line ended by U+2028 or U+2029 is kept with its separator, and the rest is cleaned as usual |
| Cleaning.LeadingLineKept | clean_text.js:47 | a leading stretch with no line terminator, in a text not starting with `O`, survives the preamble step |
| Cleaning.OfCourseExample | clean_text.js:47 | `Of course. Here is your text:\nActual content` becomes `Actual content` |
| CleanText.ArchitectsOpeningIsPlain | clean_text.js:20 | the first half of the Architects marker is printable ASCII without `*` or `'` |
| CleanText.ArchitectsClosingIsPlain | clean_text.js:20 | the second half of the Architects marker is printable ASCII without `*` or `'` |
| CleanText.ArchitectsMarkerIsPlain | clean_text.js:20 | the Architects marker starts with `T` and holds no line terminator, `*` or `'` |
| CleanText.StillnessMarkerIsPlain | clean_text.js:21 | the Stillness marker starts with `T` and holds no line terminator, `*` or `'` |
| CleanText.DumplingsMarkerIsPlain | clean_text.js:22 | the Dumplings marker starts with `T` and holds no line terminator, `*` or `'` |
| CleanText.WisdomMarkerIsPlain | clean_text.js:23 | the Wisdom marker starts with `T` and holds no line terminator, `*` or `'` |
| CleanText.MarkersArePlain | clean_text.js:20-23 | none of the four markers can be touched by the later steps |
| CleanText.Architects | clean_text.js:35-50 | the Architects text is a subsequence of the file text and holds no `*` |
| CleanText.Stillness | clean_text.js:109-121 | the Stillness text is a subsequence of the file text and holds no `'` |
| CleanText.Dumplings | clean_text.js:178-190 | the Dumplings text is a subsequence of the file text and holds no `*` |
| CleanText.Wisdom | clean_text.js:246-261 | the Wisdom text is a subsequence of the file text and holds no `*` |
| CleanText.CleanedNoLonger | clean_text.js:35-50 | no route's cleaned text is longer than the file text |
| CleanText.ArchitectsBeginsWithMarker | clean_text.js:41-50 | when the marker occurs after timestamp stripping, the Architects text begins with it |
| CleanText.StillnessBeginsWithMarker | clean_text.js:115-121 | when the marker occurs after timestamp stripping, the Stillness text begins with it |
| CleanText.DumplingsBeginsWithMarker | clean_text.js:184-190 | when the marker occurs after timestamp stripping, the Dumplings text begins with it |
| CleanText.WisdomBeginsWithMarker | clean_text.js:252-261 | when the marker occurs after timestamp and preamble removal, the Wisdom text begins with it |
| CleanText.PreambleFirstLosesMarker | clean_text.js:252-258 | preamble removal before truncation, the Wisdom order, loses a marker that sits inside a preamble line |
| CleanText.TruncationFindsInnerMarker | clean_text.js:41-44 | truncation finds a marker that sits inside a preamble line |
| CleanText.TruncationFirstKeepsMarker | clean_text.js:41-47 | truncation before preamble removal, the Architects order, keeps that marker and what follows |
| CleanText.WisdomLosesInnerMarker | clean_text.js:246-261 | the Wisdom route turns a preamble line holding its marker, followed by `Body`, into just `Body`: its marker is lost with the preamble line |
| CleanText.PreambleHoldingHasNoStamp | clean_text.js:38 | a preamble line holding a plain marker, and the line after it, have no timestamp to strip |
| CleanText.TruncatedPreamble | clean_text.js:41-44 | truncation at a marker inside a preamble line keeps the marker and the line after it |
| CleanText.MarkerLinesKept | clean_text.js:47-50 | preamble removal and asterisk removal leave a plain marker line and the line after it unchanged |
| CleanText.ArchitectsKeepsInnerMarker | clean_text.js:35-50 | the Architects route keeps its marker when it sits inside a preamble line, together with everything after it |
| CleanText.TruncationExample | clean_text.js:41-44 | noise before the opening words of the Architects text is cut off, leaving the words and what follows |
| IndexScript.CleanedText | index.js:19 | the script's output is a subsequence of the input, shorter by the total length of the matches, and equal to the input exactly when no line starts with a timestamp prefix |
| IndexScript.CommentExampleRemoved | index.js:8-9 | the example from the script's comment, followed by the rest of its line, is removed, leaving just that rest |

## Left out

- The Express application, its routes, `app.listen` and the `PORT` variable are framework glue.
- `fs.readFile`, the HTTP 500 error paths and the console logging are I/O. A route's file text is a parameter.
- The HTML templates, the landing page and the audio tag are static presentation.
- There is no general regular-expression engine. Only the two fixed patterns are modelled, each by its own matcher.
- Text is a `seq<char>` of Unicode scalar values, while JavaScript strings are UTF-16 code units. A lone surrogate cannot be represented. None of the patterns or markers involves a surrogate.
- CleanText.Architects, Stillness, Dumplings, Wisdom: their own contracts state only the subsequence and removed-character facts. What each step does is proved about the step's own function, and the step order is shown on the routes themselves by `WisdomLosesInnerMarker` and `ArchitectsKeepsInnerMarker`.
