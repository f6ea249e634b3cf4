/**
 * The older moderation worker (server/functions/files/fileProcessor.ts): the same job
 * shape and the same writes, but a fixed list of four banned words matched with a
 * case-sensitive `includes`, and the reason text built inline.
 */
module LegacyModeration {
  import opened Wrappers
  import opened Strings
  import opened Sequences
  import opened ErrorMessages
  import opened FileModel
  import opened Moderation

  const LegacyBannedWords: seq<string> := ["badword1", "badword2", "badword3", "test"]

  /** `bannedWords.filter(word => content.includes(word))`. */
  function LegacyFoundWords(content: string): (found: seq<string>)
    ensures forall w :: w in found <==> w in LegacyBannedWords && Contains(content, w)
  {
    Filter(LegacyBannedWords, w => Contains(content, w))
  }

  /** The inline reason template agrees character for character with the shared message. */
  function LegacyReason(found: seq<string>): (r: string)
    ensures r == ContainBannedWords(found)
  {
    "Contains banned words: " + Join(found, ", ")
  }

  /** The reason written when the older worker's processing throws: the shared text. */
  const LegacyFailureReason: string := "Error processing file"

  lemma LegacyFailureReasonIsShared()
    ensures LegacyFailureReason == ErrorProcessingFile
  {
  }

  /** The verdict of one run of the older worker. */
  function LegacyOutcome(p: Payload, decode: seq<bv8> -> string, firstWriteOk: bool): (v: Verdict)
    ensures v.Fail? <==> p.fileData.None? || !firstWriteOk
    ensures v.Reject? <==> p.fileData.Some? && firstWriteOk && |LegacyFoundWords(decode(p.fileData.value))| > 0
    ensures v.Reject? ==> v.words == LegacyFoundWords(decode(p.fileData.value))
  {
    if p.fileData.None? || !firstWriteOk then Fail
    else
      var found := LegacyFoundWords(decode(p.fileData.value));
      if |found| > 0 then Reject(found) else Approve
  }

  /** The older job handler, with its writes in the order it issues them. */
  method LegacyHandleJob(table: FileTable, p: Payload, decode: seq<bv8> -> string, firstWriteOk: bool)
    requires table.Valid()
    modifies table
    ensures table.Valid()
    ensures table.nextId == old(table.nextId)
    ensures table.rows == Moderate(old(table.rows), p.fileId, LegacyOutcome(p, decode, firstWriteOk))
  {
    LegacyFailureReasonIsShared();
    var fileId := p.fileId;
    var threw := false;
    if p.fileData.None? {
      threw := true;
    } else {
      var content := decode(p.fileData.value);
      var foundWords := LegacyFoundWords(content);
      if |foundWords| > 0 {
        if firstWriteOk {
          table.UpdateStatusAndReason(fileId, Rejected, LegacyReason(foundWords));
        } else {
          threw := true;
        }
      } else {
        if firstWriteOk {
          table.UpdateStatus(fileId, Approved);
        } else {
          threw := true;
        }
      }
    }
    if threw {
      table.UpdateStatusAndReason(fileId, Failed, LegacyFailureReason);
    }
  }

  /** An exact occurrence is also an occurrence once both sides are lower-cased. */
  lemma ExactMatchIgnoresCase(content: string, w: string)
    requires Contains(content, w)
    ensures MatchesIgnoringCase(content, w)
  {
    ContainsIffOccurs(content, w);
    var i :| OccursAt(content, w, i);
    var lc, lw := Lower(content), Lower(w);
    forall k | 0 <= k < |w| ensures lc[i..i + |w|][k] == lw[k] {
      assert content[i + k] == w[k];
    }
    assert OccursAt(lc, lw, i);
    OccursAtContains(lc, lw, i);
  }

  /** Every word the older worker finds, the current worker finds in the same list. */
  lemma LegacyFindsNoMoreThanCurrent(content: string)
    ensures forall w :: w in LegacyFoundWords(content) ==> w in FoundWords(LegacyBannedWords, content)
  {
    forall w | w in LegacyFoundWords(content) ensures w in FoundWords(LegacyBannedWords, content) {
      ExactMatchIgnoresCase(content, w);
    }
  }

  /** The four legacy words are already lower case. */
  lemma LegacyWordsAreLowerCase()
    ensures forall i :: 0 <= i < |LegacyBannedWords| ==> Lower(LegacyBannedWords[i]) == LegacyBannedWords[i]
  {
    var ws := LegacyBannedWords;
    forall i | 0 <= i < |ws| ensures Lower(ws[i]) == ws[i] {
      var w := ws[i];
      LowerPointwise(w, w);
    }
  }

  /** On lower-case content the two workers find the same words in the same list. */
  lemma {:induction false} SameWordsOnLowerCaseContent(content: string)
    requires Lower(content) == content
    ensures LegacyFoundWords(content) == FoundWords(LegacyBannedWords, content)
  {
    LegacyWordsAreLowerCase();
    FilterCongruent(LegacyBannedWords, w => Contains(content, w), w => MatchesIgnoringCase(content, w));
  }

  /** A word that starts with a lower-case letter never occurs in content without lower-case letters. */
  lemma NoLowerCaseStart(content: string, w: string)
    requires forall k :: 0 <= k < |content| ==> !('a' <= content[k] <= 'z')
    requires |w| > 0 && 'a' <= w[0] <= 'z'
    ensures !Contains(content, w)
  {
    ContainsIffOccurs(content, w);
    forall i | 0 <= i <= |content| - |w| ensures !OccursAt(content, w, i) {
      assert content[i..i + |w|][0] == content[i];
    }
  }

  /** No fixed word occurs case-sensitively in "BADWORD1". */
  lemma LegacyMissesUpperCase(content: string)
    requires content == "BADWORD1"
    ensures LegacyFoundWords(content) == []
  {
    var ws := LegacyBannedWords;
    forall i | 0 <= i < |ws| ensures !Contains(content, ws[i]) {
      NoLowerCaseStart(content, ws[i]);
    }
    FilterDropsAll(ws, w => Contains(content, w));
  }

  /** "BADWORD1" passes the older worker but is rejected by the current one with the same list. */
  lemma UpperCaseSlipsThroughLegacy(content: string)
    requires content == "BADWORD1"
    ensures LegacyFoundWords(content) == []
    ensures FoundWords(LegacyBannedWords, content) != []
  {
    var lower := "badword1";
    LowerPointwise(content, lower);
    LowerPointwise(lower, lower);
    assert MatchesIgnoringCase(content, "badword1");
    assert "badword1" in LegacyBannedWords;
    LegacyMissesUpperCase(content);
  }
}
