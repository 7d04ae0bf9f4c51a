/** The chat page's session state and the handlers that change it: upload,
    delete, typing, send, the deferred simulated answer and the Enter key.
    The clock is a parameter (`now`, in milliseconds) and the 1500 ms timer
    is a queue of scheduled answers that `Complete` takes from. */
module Session {
  import opened Text
  import opened Registry
  import opened Transcript

  /** A scheduled simulated answer: the file list and the question as they
      were when Send ran, which is what the timer callback closes over. */
  datatype PendingReply = PendingReply(files: seq<FileDesc>, question: string)

  /** The send button's enabling rule: there is a question that is not blank,
      at least one file, and no answer is being awaited. */
  function SendEnabled(input: string, files: seq<FileDesc>, loading: bool): (r: bool)
    ensures r <==> |files| > 0 && !loading && exists k :: 0 <= k < |input| && !IsWhitespace(input[k])
  {
    !(IsBlank(input) || |files| == 0 || loading)
  }

  /** The text box's enabling rule: at least one file and no answer awaited. */
  function InputEnabled(files: seq<FileDesc>, loading: bool): (r: bool)
  {
    !(|files| == 0 || loading)
  }

  /** Whenever the send button is enabled the text box is too, so sending by
      Enter and sending by the button are open in the same states. */
  lemma SendEnabledByButtonOrEnter(input: string, files: seq<FileDesc>, loading: bool)
    ensures SendEnabled(input, files, loading)
        <==> InputEnabled(files, loading) && !IsBlank(input) && |files| > 0
  {
  }

  /** The things a user (or the timer) can do on the page. */
  datatype Event =
    | FilesChosen(selection: Selection, now: nat)
    | DeleteClicked(index: int)
    | InputChanged(text: string)
    | SendClicked(now: nat)
    | KeyPressed(key: string, shift: bool, now: nat)
    | TimerFired(now: nat)

  class Session {
    var files: seq<FileDesc>
    var messages: seq<Message>
    var input: string
    var loading: bool
    /** Answers scheduled by Send whose timer has not fired yet, oldest first. */
    var pending: seq<PendingReply>

    /** The turn invariant the page keeps: at most one answer is outstanding,
        and the loading flag is raised exactly while one is. */
    ghost predicate Settled()
      reads this
    {
      |pending| <= 1 && (loading <==> pending != [])
    }

    constructor ()
      ensures files == [] && messages == [] && input == "" && !loading && pending == []
      ensures Settled()
    {
      files, messages, input, loading, pending := [], [], "", false, [];
    }

    /** Upload's effect: the PDFs of the selection follow the files already
        there, in selection order, and, if there is at least one, a single
        confirmation carrying their count is posted under the clock's id.
        A null selection or one without PDFs changes nothing. */
    twostate predicate Uploaded(selection: Selection, now: nat)
      reads this
    {
      var accepted := if selection.FileList? then Pdfs(selection.candidates) else [];
      files == old(files) + accepted
      && messages == (if accepted == [] then old(messages)
                      else old(messages) + [Message(MessageId(now), Assistant, UploadNotice(|accepted|))])
      && input == old(input) && loading == old(loading) && pending == old(pending)
    }

    /** Delete's effect: only the file list changes, by removal at index. */
    twostate predicate Removed(index: int)
      reads this
    {
      files == RemoveAt(old(files), index)
      && messages == old(messages) && input == old(input)
      && loading == old(loading) && pending == old(pending)
    }

    /** Send's effect when its guard passes: the untrimmed input is posted as
        a user message under the clock's id, the text box is cleared, loading
        is raised and an answer over the current files and question is
        scheduled; the file list is kept. */
    twostate predicate Asked(now: nat)
      reads this
    {
      files == old(files)
      && messages == old(messages) + [Message(MessageId(now), User, old(input))]
      && input == "" && loading
      && pending == old(pending) + [PendingReply(old(files), old(input))]
    }

    /** The timer callback's effect: the oldest scheduled answer is posted,
        built from the files and question captured by Send (not the current
        ones) under the id of the clock plus one, loading is lowered and that
        answer leaves the queue. */
    twostate predicate Answered(now: nat)
      reads this
    {
      old(pending) != []
      && files == old(files) && input == old(input)
      && messages == old(messages) + [Message(MessageId(now + 1), Assistant,
                                              ReplyText(old(pending)[0].files, old(pending)[0].question))]
      && !loading && pending == old(pending)[1..]
    }

    /** The file input's change handler. */
    method Upload(selection: Selection, now: nat)
      modifies this`files, this`messages
      ensures Uploaded(selection, now)
    {
      if selection.FileList? {
        var pdfFiles := Pdfs(selection.candidates);
        if |pdfFiles| > 0 {
          files := files + pdfFiles;
          messages := messages + [Message(MessageId(now), Assistant, UploadNotice(|pdfFiles|))];
        }
      }
    }

    /** A file's delete button. A position that is not in the list changes
        nothing. */
    method Delete(index: int)
      modifies this`files
      ensures Removed(index)
    {
      files := RemoveAt(files, index);
    }

    /** The text box's change handler. */
    method SetInput(text: string)
      modifies this`input
      ensures input == text
    {
      input := text;
    }

    /** The send handler. With a blank input or no files nothing happens.
        The handler itself does not look at the loading flag; the page
        disables the button and the text box instead. */
    method Send(now: nat)
      modifies this`messages, this`input, this`loading, this`pending
      ensures IsBlank(old(input)) || |old(files)| == 0 ==> unchanged(this)
      ensures !(IsBlank(old(input)) || |old(files)| == 0) ==> Asked(now)
    {
      if IsBlank(input) || |files| == 0 {
        return;
      }
      var question := input;
      messages := messages + [Message(MessageId(now), User, question)];
      input := "";
      loading := true;
      pending := pending + [PendingReply(files, question)];
    }

    /** The timer callback of the oldest scheduled answer. */
    method Complete(now: nat)
      requires pending != []
      modifies this`messages, this`loading, this`pending
      ensures Answered(now)
    {
      var p := pending[0];
      messages := messages + [Message(MessageId(now + 1), Assistant, ReplyText(p.files, p.question))];
      loading := false;
      pending := pending[1..];
    }

    /** The text box's key handler: Enter without Shift runs the send
        handler; every other key changes nothing here. */
    method KeyPress(key: string, shift: bool, now: nat)
      modifies this`messages, this`input, this`loading, this`pending
      ensures key == "Enter" && !shift && !(IsBlank(old(input)) || |old(files)| == 0) ==> Asked(now)
      ensures !(key == "Enter" && !shift && !(IsBlank(old(input)) || |old(files)| == 0)) ==> unchanged(this)
    {
      if key == "Enter" && !shift {
        Send(now);
      }
    }

    /** One event as the page delivers it: the text box takes no input and
        no keys while it is disabled, the send button takes no clicks while
        it is disabled, and a timer fires only if one was scheduled. An event
        the page blocks changes nothing; every other one has the effect of
        its handler. Under these rules the turn invariant holds, the
        transcript only ever grows by at most one message at the end, a user
        message is posted exactly when an enabled send is requested, and no
        user message is posted while an answer is awaited. */
    method Dispatch(e: Event)
      requires Settled()
      modifies this
      ensures e.FilesChosen? ==> Uploaded(e.selection, e.now)
      ensures e.DeleteClicked? ==> Removed(e.index)
      ensures e.InputChanged? && InputEnabled(old(files), old(loading)) ==>
        input == e.text && files == old(files) && messages == old(messages)
        && loading == old(loading) && pending == old(pending)
      ensures e.InputChanged? && !InputEnabled(old(files), old(loading)) ==> unchanged(this)
      ensures e.SendClicked? && SendEnabled(old(input), old(files), old(loading)) ==> Asked(e.now)
      ensures e.SendClicked? && !SendEnabled(old(input), old(files), old(loading)) ==> unchanged(this)
      ensures e.KeyPressed? && e.key == "Enter" && !e.shift && SendEnabled(old(input), old(files), old(loading)) ==>
        Asked(e.now)
      ensures e.KeyPressed? && !(e.key == "Enter" && !e.shift && SendEnabled(old(input), old(files), old(loading))) ==>
        unchanged(this)
      ensures e.TimerFired? && old(pending) != [] ==> Answered(e.now)
      ensures e.TimerFired? && old(pending) == [] ==> unchanged(this)
      ensures Settled()
      ensures AppendsAtMostOne(old(messages), messages)
      ensures old(loading) ==> forall k :: |old(messages)| <= k < |messages| ==> messages[k].author == Assistant
      ensures (|messages| > |old(messages)| && messages[|messages| - 1].author == User)
        <==> (e.SendClicked? || (e.KeyPressed? && e.key == "Enter" && !e.shift))
             && SendEnabled(old(input), old(files), old(loading))
    {
      match e
      case FilesChosen(selection, now) =>
        Upload(selection, now);
      case DeleteClicked(index) =>
        Delete(index);
      case InputChanged(text) =>
        if InputEnabled(files, loading) {
          SetInput(text);
        }
      case SendClicked(now) =>
        if SendEnabled(input, files, loading) {
          Send(now);
        }
      case KeyPressed(key, shift, now) =>
        if InputEnabled(files, loading) {
          KeyPress(key, shift, now);
        }
      case TimerFired(now) =>
        if pending != [] {
          Complete(now);
        }
    }
  }

  /** Choosing a PDF together with a text file keeps the PDF only and posts
      one confirmation. */
  method UploadKeepsPdfsOnly(t: nat)
  {
    var s := new Session();
    var a := FileDesc("a.pdf", 1024, PdfMediaType);
    var b := FileDesc("b.txt", 10, "text/plain");
    s.Upload(FileList([a, b]), t);
    assert Pdfs([a, b]) == [a] by {
      assert [a, b][1..] == [b];
      assert !IsPdf(b);
    }
    assert s.files == [a];
    assert |s.messages| == 1 && s.messages[0].author == Assistant;
  }

  /** Upload one PDF and ask about it: the question is posted and an answer
      over that file is scheduled. */
  method AskAboutOnePdf(t: nat, a: FileDesc, question: string)
    requires IsPdf(a)
    requires question != [] && !IsWhitespace(question[0])
  {
    var s := new Session();
    s.Upload(FileList([a]), t);
    PdfsAllPdf([a]);
    assert s.files == [a];

    s.SetInput(question);
    s.Send(t + 10);
    assert s.loading && s.input == "";
    assert s.pending == [PendingReply([a], question)];
    assert |s.messages| == 2 && s.messages[1].author == User && s.messages[1].content == question;
  }

  /** From the state AskAboutOnePdf ends in, delete the only file while the
      answer is pending, then let the timer fire: the answer still speaks of
      the deleted file. */
  method AnswerOutlivesDelete(s: Session, a: FileDesc, question: string, t: nat)
    requires s.files == [a] && s.loading && s.pending == [PendingReply([a], question)]
    modifies s
  {
    s.Delete(0);
    assert s.files == [];
    s.Complete(t);
    assert !s.loading && s.pending == [];
    assert s.messages[|s.messages| - 1].content == ReplyText([a], question);
  }
}
