/**
 * The message texts that the moderation worker writes into a file's `reason` column
 * and into its log lines (server/constants/errorMessages.ts).
 */
module ErrorMessages {
  import opened Wrappers
  import opened Strings

  /** The error thrown when a folder to archive fails the path guard. */
  const ZippingFolderError: string := "Error zipping folder:"

  /** The error thrown when registering an email that is already taken. */
  const AlreadyExists: string := "Already exists"

  /** The one error a failed login throws, whatever went wrong. */
  const IncorrectLoginOrPasswordError: string := "Login or Password is incorrect."

  /** The reason stored on a file whose processing threw. */
  const ErrorProcessingFile: string := "Error processing file"

  const BannedWordsPrefix: string := "Contains banned words: "

  /** The separator placed between the matched words. */
  const WordSeparator: string := ", "

  /** The reason stored on a rejected file: the fixed prefix, then the matched words joined by ", ". */
  function ContainBannedWords(words: seq<string>): (r: string)
    ensures StartsWith(r, BannedWordsPrefix)
    ensures |words| == 1 ==> r[|BannedWordsPrefix|..] == words[0]
  {
    BannedWordsPrefix + Join(words, WordSeparator)
  }

  const FilePrefix: string := "File #"
  const RejectedMiddle: string := " rejected due to banned words: "
  const ApprovedTail: string := " approved after processing."

  /** The log line for a rejected file. */
  function FileRejectedDue(fileId: nat, words: seq<string>): (r: string)
    ensures StartsWith(r, FilePrefix + NatToString(fileId))
  {
    FilePrefix + NatToString(fileId) + RejectedMiddle + Join(words, WordSeparator)
  }

  /** The log line for an approved file. */
  function FileApproved(fileId: nat): (r: string)
    ensures StartsWith(r, FilePrefix + NatToString(fileId))
    ensures |r| >= |ApprovedTail| && r[|r| - |ApprovedTail|..] == ApprovedTail
  {
    FilePrefix + NatToString(fileId) + ApprovedTail
  }

  /** The log line for a file whose processing threw. */
  function ProcessingFileError(fileId: nat): string {
    "Error processing file #" + NatToString(fileId)
  }

  /** Reads the matched words back out of a stored rejection reason; None for any other reason. */
  function BannedWordsOf(reason: string): (r: Option<seq<string>>)
    ensures r.Some? <==> StartsWith(reason, BannedWordsPrefix)
  {
    if StartsWith(reason, BannedWordsPrefix) then
      Some(SplitOn(reason[|BannedWordsPrefix|..], WordSeparator))
    else None
  }

  /** A rejection reason names exactly the matched words, in order, when no word holds a comma. */
  lemma ContainBannedWordsRoundTrip(words: seq<string>)
    requires |words| >= 1
    requires forall i :: 0 <= i < |words| ==> ',' !in words[i]
    ensures BannedWordsOf(ContainBannedWords(words)) == Some(words)
  {
    var r := ContainBannedWords(words);
    assert r[|BannedWordsPrefix|..] == Join(words, WordSeparator);
    SplitJoin(words, WordSeparator);
  }

  /** The processing-failure reason is never mistaken for a rejection reason. */
  lemma FailureReasonIsNotRejection()
    ensures BannedWordsOf(ErrorProcessingFile) == None
  {
    assert ErrorProcessingFile[0] != BannedWordsPrefix[0];
  }

  /** Each approval log line names one file: different ids give different lines. */
  lemma FileApprovedIdentifiesFile(m: nat, n: nat)
    requires m != n
    ensures FileApproved(m) != FileApproved(n)
  {
    if FileApproved(m) == FileApproved(n) {
      DigitsThenText(FilePrefix, NatToString(m), ApprovedTail, NatToString(n), ApprovedTail);
      NatToStringInjective(m, n);
    }
  }

  /** A rejection log line gives back the file id and the joined words it was built from. */
  lemma FileRejectedDueIdentifies(m: nat, v: seq<string>, n: nat, w: seq<string>)
    requires FileRejectedDue(m, v) == FileRejectedDue(n, w)
    ensures m == n && Join(v, WordSeparator) == Join(w, WordSeparator)
  {
    var jv, jw := Join(v, WordSeparator), Join(w, WordSeparator);
    var s, t := RejectedMiddle + jv, RejectedMiddle + jw;
    assert FilePrefix + NatToString(m) + s == FileRejectedDue(m, v);
    assert FilePrefix + NatToString(n) + t == FileRejectedDue(n, w);
    DigitsThenText(FilePrefix, NatToString(m), s, NatToString(n), t);
    assert jv == s[|RejectedMiddle|..];
    assert jw == t[|RejectedMiddle|..];
    if m != n {
      NatToStringInjective(m, n);
    }
  }
}
