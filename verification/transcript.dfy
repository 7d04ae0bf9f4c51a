/** The chat transcript: messages, their ids taken from the clock, and the
    two texts the assistant side produces. */
module Transcript {
  import opened Text
  import opened Registry

  datatype Author = User | Assistant

  /** A chat message. The id is the text of a clock reading and is NOT
      unique: two messages created in the same millisecond share it. */
  datatype Message = Message(id: string, author: Author, content: string)

  /** `Date.now().toString()` for the clock reading now (milliseconds). */
  function MessageId(now: nat): (id: string)
    ensures |id| >= 1 && forall k :: 0 <= k < |id| ==> IsDigit(id[k])
  {
    DecimalString(now)
  }

  /** Ids clash exactly when the clock readings they come from are equal, so
      a message created in the same millisecond as another gets its id. */
  lemma MessageIdsClashIffSameReading(a: nat, b: nat)
    ensures MessageId(a) == MessageId(b) <==> a == b
  {
    DecimalStringInjective(a, b);
  }

  // The leading space is split off so that the verifier sees the first
  // character of this long literal.
  const UploadNoticeTail: string :=
    " " + "PDF(s) uploaded successfully! You can now ask questions about their content."

  /** The confirmation posted after an upload: the accepted count, then a
      fixed text that says "PDF(s)" whatever the count. */
  function UploadNotice(count: nat): string
  {
    DecimalString(count) + UploadNoticeTail
  }

  /** The confirmation begins with the accepted count written in decimal,
      and what follows it does not depend on the count. */
  lemma UploadNoticeCount(count: nat)
    ensures ReadNat(UploadNotice(count)) == (count, UploadNoticeTail)
  {
    assert UploadNoticeTail[0] == ' ';
    ReadDecimal(count, UploadNoticeTail);
  }

  /** `files.map(f => f.name)`. */
  function Names(files: seq<FileDesc>): (names: seq<string>)
    ensures |names| == |files|
    ensures forall k :: 0 <= k < |files| ==> names[k] == files[k].name
  {
    seq(|files|, k requires 0 <= k < |files| => files[k].name)
  }

  const ReplyLead: string := "Based on your "
  const ReplyCountTail: string := " PDF(s) ("
  const ReplyQuestionLead: string := "), here's my response to your question: \""
  const ReplyTail: string :=
    "\". This is a simulated response - in a real application, this would be generated by analyzing the PDF content using RAG technology."

  /** `fileNames`: the files' names joined by ", ". */
  function NameList(files: seq<FileDesc>): string
  {
    Join(Names(files), ", ")
  }

  /** The answer's template literal with its three holes filled: the file
      count as text, the list of names and the question. */
  function Reply(count: string, names: string, question: string): string
  {
    ReplyLead + count + ReplyCountTail + names + (ReplyQuestionLead + question + ReplyTail)
  }

  /** The simulated answer for a question about the given files. */
  function ReplyText(files: seq<FileDesc>, question: string): string
  {
    Reply(DecimalString(|files|), NameList(files), question)
  }

  /** The answer states the number of files right after its fixed opening,
      and what follows the number is exactly " PDF(s) (", the names, and the
      closing that quotes the question. */
  lemma ReplyStatesCount(files: seq<FileDesc>, question: string)
    ensures var r := ReplyText(files, question);
      |r| > |ReplyLead| && r[..|ReplyLead|] == ReplyLead
      && ReadNat(r[|ReplyLead|..])
         == (|files|, ReplyCountTail + NameList(files) + (ReplyQuestionLead + question + ReplyTail))
  {
    var names := NameList(files);
    var closing := ReplyQuestionLead + question + ReplyTail;
    HeadLayout(ReplyLead, DecimalString(|files|), ReplyCountTail, names, closing);
    assert ReplyCountTail[0] == ' ';
    ReadDecimal(|files|, ReplyCountTail + names + closing);
  }

  /** The answer lists the file names, joined by ", ", right after the
      count's " PDF(s) (" and right before the closing parenthesis that
      precedes the question. */
  lemma ReplyListsNames(files: seq<FileDesc>, question: string)
    ensures var r := ReplyText(files, question);
      var names := NameList(files);
      var at := |r| - |ReplyTail| - |question| - |ReplyQuestionLead| - |names|;
      |ReplyLead| + |ReplyCountTail| <= at && at + |names| + |ReplyQuestionLead| <= |r|
      && r[at - |ReplyCountTail|..at] == ReplyCountTail
      && r[at..at + |names|] == names
      && r[at + |names|..at + |names| + |ReplyQuestionLead|] == ReplyQuestionLead
  {
    NamesLayout(ReplyLead, DecimalString(|files|), ReplyCountTail, NameList(files),
                ReplyQuestionLead, question, ReplyTail);
  }

  /** The answer quotes the question verbatim, untrimmed, just before its
      fixed closing. */
  lemma ReplyQuotesQuestion(files: seq<FileDesc>, question: string)
    ensures var r := ReplyText(files, question);
      |r| >= |question| + |ReplyTail|
      && r[|r| - |ReplyTail| - |question|..|r| - |ReplyTail|] == question
      && r[|r| - |ReplyTail|..] == ReplyTail
  {
    var count, names := DecimalString(|files|), NameList(files);
    ClosingLayout(ReplyLead + count + ReplyCountTail + names, ReplyQuestionLead, question, ReplyTail);
  }

  /** Where the parts of "<lead><count><countTail><names><closing>" sit. */
  lemma HeadLayout(lead: string, count: string, countTail: string, names: string, closing: string)
    ensures var r := lead + count + countTail + names + closing;
      var at := |lead| + |count| + |countTail|;
      |r| == at + |names| + |closing|
      && r[..|lead|] == lead
      && r[|lead|..] == count + (countTail + names + closing)
      && r[at - |countTail|..at] == countTail
      && r[at..at + |names|] == names
  {
    var r := lead + count + countTail + names + closing;
    assert r == lead + (count + (countTail + names + closing)) + [];
    Pieces(lead, count + (countTail + names + closing), []);
    assert r == (lead + count) + countTail + (names + closing);
    Pieces(lead + count, countTail, names + closing);
    Pieces(lead + count + countTail, names, closing);
  }

  /** Where the names sit in "<lead><count><countTail><names><qlead><q><tail>":
      between countTail and qlead. */
  lemma NamesLayout(lead: string, count: string, countTail: string, names: string,
                    qlead: string, q: string, tail: string)
    ensures var r := lead + count + countTail + names + (qlead + q + tail);
      var at := |lead| + |count| + |countTail|;
      at + |names| + |qlead| <= |r|
      && r[at - |countTail|..at] == countTail
      && r[at..at + |names|] == names
      && r[at + |names|..at + |names| + |qlead|] == qlead
  {
    HeadLayout(lead, count, countTail, names, qlead + q + tail);
    ClosingLayout(lead + count + countTail + names, qlead, q, tail);
  }

  /** Where the parts of "<head><qlead><q><tail>" sit. */
  lemma ClosingLayout(head: string, qlead: string, q: string, tail: string)
    ensures var r := head + (qlead + q + tail);
      var p := |head| + |qlead|;
      |r| == p + |q| + |tail|
      && r[|head|..p] == qlead
      && r[p..p + |q|] == q
      && r[p + |q|..] == tail
  {
    var r := head + (qlead + q + tail);
    assert r == head + qlead + (q + tail);
    Pieces(head, qlead, q + tail);
    assert r == (head + qlead) + q + tail;
    Pieces(head + qlead, q, tail);
  }

  /** The slices of a three-part concatenation. */
  lemma Pieces(a: string, b: string, c: string)
    ensures (a + b + c)[..|a|] == a
    ensures (a + b + c)[|a|..] == b + c
    ensures (a + b + c)[|a|..|a| + |b|] == b
  {
  }

  /** The transcript grew by at most one message, at the end. */
  predicate AppendsAtMostOne(before: seq<Message>, after: seq<Message>)
  {
    after == before || (|after| == |before| + 1 && after[..|before|] == before)
  }
}
