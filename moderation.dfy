/**
 * The moderation worker of the "file-processing" queue
 * (server/services/queue/file.processor.ts): it decodes an uploaded file, looks for
 * banned words without regard to letter case, and writes the verdict into the file's row.
 */
module Moderation {
  import opened Wrappers
  import opened Strings
  import opened Sequences
  import opened ErrorMessages
  import opened FileModel

  /**
   * The data of a "check-file" job. The bytes travel through the queue as JSON, so a job
   * whose buffer did not survive has no `fileData.data` to read.
   */
  datatype Payload = Payload(fileId: nat, fileData: Option<seq<bv8>>)

  /** `content.toLowerCase().includes(word.toLowerCase())`. */
  predicate MatchesIgnoringCase(content: string, word: string): (b: bool)
    ensures word == [] ==> b
    ensures Lower(word) == Lower(content) ==> b
  {
    Contains(Lower(content), Lower(word))
  }

  /** The banned words present in the content, in list order, ignoring letter case. */
  function FoundWords(banned: seq<string>, content: string): (found: seq<string>)
    ensures IsSubsequence(found, banned)
    ensures forall w :: w in found <==> w in banned && MatchesIgnoringCase(content, w)
    ensures forall w :: multiset(found)[w] == if MatchesIgnoringCase(content, w) then multiset(banned)[w] else 0
  {
    FilterCounts(banned, w => MatchesIgnoringCase(content, w));
    Filter(banned, w => MatchesIgnoringCase(content, w))
  }

  /** What one run of the handler writes into the row. */
  datatype Verdict = Reject(words: seq<string>) | Approve | Fail

  /** The verdict for decoded content: reject with the found words, or approve. */
  function Scan(banned: seq<string>, content: string): (v: Verdict)
    ensures v != Fail
    ensures v.Reject? <==> exists w :: w in banned && MatchesIgnoringCase(content, w)
    ensures v.Reject? ==> |v.words| > 0 && forall w :: w in v.words ==> w in banned
    ensures v.Reject? ==> v.words == FoundWords(banned, content)
    ensures v.Approve? <==> FoundWords(banned, content) == []
  {
    var found := FoundWords(banned, content);
    if |found| > 0 then Reject(found)
    else
      assert forall w :: w in banned ==> !MatchesIgnoringCase(content, w) by {
        forall w | w in banned ensures !MatchesIgnoringCase(content, w) {
          assert w !in found;
        }
      }
      Approve
  }

  /**
   * The verdict of one run. `decode` stands for the UTF-8 decoding of the bytes;
   * `firstWriteOk` says whether the first database write succeeded. A job without bytes
   * or a first write that throws ends in the catch branch.
   */
  function Outcome(banned: seq<string>, p: Payload, decode: seq<bv8> -> string, firstWriteOk: bool): (v: Verdict)
    ensures v.Fail? <==> p.fileData.None? || !firstWriteOk
    ensures p.fileData.Some? && firstWriteOk ==> v == Scan(banned, decode(p.fileData.value))
  {
    if p.fileData.None? || !firstWriteOk then Fail
    else Scan(banned, decode(p.fileData.value))
  }

  /** The status a verdict writes. */
  function StatusOf(v: Verdict): Status {
    match v
    case Reject(_) => Rejected
    case Approve => Approved
    case Fail => Failed
  }

  /**
   * The row after the verdict's update. Approval writes the status only, so the reason
   * column keeps whatever it held.
   */
  function ApplyVerdict(rec: FileRecord, v: Verdict): (r: FileRecord)
    ensures r.(status := rec.status, reason := rec.reason) == rec
    ensures r.status == StatusOf(v)
    ensures v.Reject? ==> r.reason == Some(ContainBannedWords(v.words))
    ensures v.Approve? ==> r.reason == rec.reason
    ensures v.Fail? ==> r.reason == Some(ErrorProcessingFile)
  {
    match v
    case Reject(words) => rec.(status := Rejected, reason := Some(ContainBannedWords(words)))
    case Approve => rec.(status := Approved)
    case Fail => rec.(status := Failed, reason := Some(ErrorProcessingFile))
  }

  /** The table after the verdict is written to the row with that id; a missing id matches no row. */
  function Moderate(rows: map<nat, FileRecord>, id: nat, v: Verdict): (r: map<nat, FileRecord>)
    ensures r.Keys == rows.Keys
    ensures forall k :: k in rows && k != id ==> r[k] == rows[k]
    ensures id in rows ==> r[id] == ApplyVerdict(rows[id], v)
  {
    if id in rows then rows[id := ApplyVerdict(rows[id], v)] else rows
  }

  /** The job handler, with the writes in the order the worker issues them. */
  method HandleJob(table: FileTable, banned: seq<string>, p: Payload, decode: seq<bv8> -> string, firstWriteOk: bool)
    requires table.Valid()
    modifies table
    ensures table.Valid()
    ensures table.nextId == old(table.nextId)
    ensures table.rows == Moderate(old(table.rows), p.fileId, Outcome(banned, p, decode, firstWriteOk))
  {
    var fileId := p.fileId;
    var threw := false;
    if p.fileData.None? {
      threw := true;
    } else {
      var content := decode(p.fileData.value);
      var foundWords := FoundWords(banned, content);
      if |foundWords| > 0 {
        if firstWriteOk {
          table.UpdateStatusAndReason(fileId, Rejected, ContainBannedWords(foundWords));
        } else {
          threw := true;
        }
      } else {
        if firstWriteOk {
          table.UpdateStatus(fileId, Approved);
        } else {
          threw := true;
        }
      }
    }
    if threw {
      table.UpdateStatusAndReason(fileId, Failed, ErrorProcessingFile);
    }
  }

  /** Writing a verdict never consults the row's current status: any prior status gives the same row. */
  lemma ApplyVerdictIgnoresStatus(rec: FileRecord, v: Verdict, s: Status)
    ensures ApplyVerdict(rec.(status := s), v) == ApplyVerdict(rec, v)
  {
  }

  /** A redelivered job writes the same row again: running it twice is running it once. */
  lemma {:induction false} RedeliveryIsIdempotent(rows: map<nat, FileRecord>, banned: seq<string>, p: Payload,
                                                  decode: seq<bv8> -> string, firstWriteOk: bool)
    ensures var v := Outcome(banned, p, decode, firstWriteOk);
            Moderate(Moderate(rows, p.fileId, v), p.fileId, v) == Moderate(rows, p.fileId, v)
  {
    var v := Outcome(banned, p, decode, firstWriteOk);
    if p.fileId in rows {
      var once := ApplyVerdict(rows[p.fileId], v);
      assert ApplyVerdict(once, v) == once;
    }
  }

  /** An approved or rejected file that is processed again is overwritten by the new verdict. */
  lemma TerminalStatusIsOverwritten(rows: map<nat, FileRecord>, id: nat, v: Verdict)
    requires id in rows && rows[id].status != Pending
    ensures Moderate(rows, id, v)[id].status == StatusOf(v)
  {
  }

  /** On the first run over a freshly created row, a reason is present exactly for rejected and failed files. */
  lemma FirstRunReasonMatchesStatus(id: nat, userId: nat, filename: string, data: seq<bv8>, v: Verdict)
    ensures ReasonMatchesStatus(ApplyVerdict(NewRecord(id, userId, filename, data), v))
  {
  }

  /** Approving a previously rejected row leaves the old rejection reason on an approved file. */
  lemma ReapprovalKeepsStaleReason(rec: FileRecord, words: seq<string>)
    ensures var r := ApplyVerdict(ApplyVerdict(rec, Reject(words)), Approve);
            r.status == Approved && r.reason == Some(ContainBannedWords(words)) && !ReasonMatchesStatus(r)
  {
  }

  /** A rejected row's reason names exactly the words that were found, when none holds a comma. */
  lemma {:induction false} RejectionReasonNamesFoundWords(rec: FileRecord, banned: seq<string>, content: string)
    requires forall i :: 0 <= i < |banned| ==> ',' !in banned[i]
    requires Scan(banned, content).Reject?
    ensures var r := ApplyVerdict(rec, Scan(banned, content));
            r.reason.Some? && BannedWordsOf(r.reason.value) == Some(FoundWords(banned, content))
  {
    var found := FoundWords(banned, content);
    forall i | 0 <= i < |found| ensures ',' !in found[i] {
      assert found[i] in found;
      var j :| 0 <= j < |banned| && banned[j] == found[i];
    }
    ContainBannedWordsRoundTrip(found);
  }

  /** The first sample word occurs in the lower-cased sample content. */
  lemma SampleContainsFirst(lower: string, w1: string)
    requires lower == "hello badword1 world" && w1 == "badword1"
    ensures Contains(lower, w1)
  {
    assert lower[6..14] == w1;
    OccursAtContains(lower, w1, 6);
  }

  /** The second sample word does not: the content holds no '2'. */
  lemma SampleLacksSecond(lower: string, w2: string)
    requires lower == "hello badword1 world" && w2 == "badword2"
    ensures !Contains(lower, w2)
  {
    ContainsIffOccurs(lower, w2);
    assert forall k :: 0 <= k < |lower| ==> lower[k] != '2';
    forall i | 0 <= i <= |lower| - |w2| ensures !OccursAt(lower, w2, i) {
      assert lower[i..i + |w2|][7] == lower[i + 7];
      assert w2[7] == '2';
    }
  }

  /** Of the two sample words, only the first occurs in the sample content, ignoring case. */
  lemma SampleMatches(content: string, lower: string, w1: string, w2: string)
    requires content == "Hello BADWORD1 world" && lower == "hello badword1 world"
    requires w1 == "badword1" && w2 == "badword2"
    ensures MatchesIgnoringCase(content, w1)
    ensures !MatchesIgnoringCase(content, w2)
  {
    LowerPointwise(content, lower);
    LowerPointwise(w1, w1);
    LowerPointwise(w2, w2);
    SampleContainsFirst(lower, w1);
    SampleLacksSecond(lower, w2);
  }

  /** The reason stored for the single sample word. */
  lemma SampleReason(w1: string)
    requires w1 == "badword1"
    ensures ContainBannedWords([w1]) == "Contains banned words: badword1"
  {
    assert Join([w1], WordSeparator) == w1;
  }

  /** "Hello BADWORD1 world" is rejected for "badword1" alone, whatever the letter case. */
  lemma {:induction false} RejectsMixedCaseWord(rec: FileRecord, bytes: seq<bv8>, decode: seq<bv8> -> string)
    requires decode(bytes) == "Hello BADWORD1 world"
    ensures var r := ApplyVerdict(rec, Outcome(["badword1", "badword2"], Payload(rec.id, Some(bytes)), decode, true));
            r.status == Rejected && r.reason == Some("Contains banned words: badword1")
  {
    var content := decode(bytes);
    var w1, w2 := "badword1", "badword2";
    SampleMatches(content, "hello badword1 world", w1, w2);
    FoundSample(content, w1, w2);
    SampleReason(w1);
  }

  /** With the first of two words present and the second absent, only the first is found. */
  lemma FoundSample(content: string, w1: string, w2: string)
    requires MatchesIgnoringCase(content, w1) && !MatchesIgnoringCase(content, w2)
    ensures FoundWords([w1, w2], content) == [w1]
  {
    var keep := w => MatchesIgnoringCase(content, w);
    assert [w1, w2][1..] == [w2];
    assert [w2][1..] == [];
    assert Filter([w2], keep) == Filter([], keep) == [];
    assert Filter([w1, w2], keep) == [w1] + Filter([w2], keep);
  }
}
