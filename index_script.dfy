/**
 * The stand-alone script: it reads the log-polluted book and prints it with
 * every timestamp prefix removed, using the same regular expression as the
 * web server.
 */
module IndexScript {
  import opened JsText
  import opened GlobalReplace
  import Cleaning

  /** `const cleanedText = data.replace(dateRegex, '')`. The result only
      deletes; it is shorter than the input by the total length of the
      matches, and it equals the input exactly when no line of the input
      starts with a timestamp prefix. */
  function CleanedText(data: seq<char>): (r: seq<char>)
    ensures IsSubsequence(r, data)
    ensures |r| + TotalLen(MatchesFrom(Regex(DatePrefix), data, 0)) == |data|
    ensures r == data <==> forall i :: 0 <= i < |data| ==> !HasMatchAt(DatePrefix, data, i)
  {
    DeleteSpec(DatePrefix, data);
    DeleteUnchangedIff(DatePrefix, data);
    Cleaning.StripTimestamps(data)
  }

  /** The example in the script's comment, taken as a line of its own, is
      removed entirely and leaves just the text after it. */
  lemma CommentExampleRemoved(t: seq<char>)
    requires t == [] || !IsJsSpace(t[0])
    requires forall i :: 0 <= i < |t| ==> !IsLineTerminator(t[i])
    ensures CleanedText(Cleaning.LogPrefixExample + t) == t
  {
    Cleaning.LogPrefixExampleIsStamp();
    Cleaning.StripStampedLine(Cleaning.LogPrefixExample, 29, 31, t);
  }
}
