# PDF chat session state, modelled in Dafny

This project models the session state machine of the chat page of
AskMyPDF-AI, the `PDFRagApp` component. The page keeps four pieces of
state:

- the list of uploaded files;
- the message transcript;
- the text in the question box;
- a loading flag.

Four handlers change that state:

- **Upload** keeps only the chosen files whose media type is exactly
  `application/pdf`, appends them, and posts one confirmation.
- **Delete** removes a file by its position.
- **Send** posts the question as a user message, clears the box, raises the
  flag and schedules a simulated answer.
- **Timer callback** 1500 ms later posts the answer and lowers the flag.

The model has four modules:

- `Text` gives JavaScript's `trim`, the decimal rendering of integers and
  `join`, with their properties.
- `Registry` gives the file descriptor, the PDF filter and removal by
  position.
- `Transcript` gives messages, clock-based ids, and the texts of the upload
  confirmation and the simulated answer.
- `Session` gives a `Session` class with the four state cells. Its methods
  are the handlers. `Dispatch` delivers one page event under the page's
  enabling rules.

Two things that are not parameters in the page become parameters here. The
clock (`Date.now()`) is a `now: nat` argument. The 1500 ms timer is a queue
of scheduled answers (`pending`). `Send` pushes onto it and `Complete`, the
timer callback, pops from it. Each queued record holds the file list and the
question as they were when `Send` ran, because the callback closes over the
values of that render. A file deleted after sending therefore still appears
in the answer.

Where the code differs from a tidier design, the model follows the code:

- Deleting at a position outside the list does nothing. No error is raised.
- The upload confirmation always says "PDF(s)", even for one file.
- Message ids are the decimal text of the clock reading, and of the reading
  plus one for answers. They are not unique: two messages made in the same
  millisecond share an id. An answer made at t also clashes with an upload
  or question made at t + 1. `MessageIdsClashIffSameReading` states exactly
  when ids clash.
- The send handler checks only for a blank input and an empty file list. It
  does not check the loading flag. Only the disabled button and the disabled
  text box keep a second question out while an answer is pending.
  `Dispatch` models that gating and proves the turn invariant `Settled()`
  under it. `Send` called directly, without the gate, can schedule a second
  answer. That matches the handler's code.

## Model

| member | source | states |
|---|---|---|
| `Text.TrimStart` | client/components/rag-app-main.tsx:70 | The result is a suffix of the input that does not start with whitespace, and every dropped character is whitespace |
| `Text.TrimEnd` | client/components/rag-app-main.tsx:70 | The result is a prefix of the input that does not end with whitespace, and every dropped character is whitespace |
| `Text.Trim` | client/components/rag-app-main.tsx:70 | `trim()` yields the empty string exactly when every character is whitespace; otherwise the result neither starts nor ends with whitespace |
| `Text.TrimAround` | client/components/rag-app-main.tsx:70 | Trimming whitespace, then a core that has no whitespace at either end, then more whitespace yields exactly that core |
| `Text.IsBlank` | client/components/rag-app-main.tsx:70 | `!text.trim()` holds if and only if every character of the text is whitespace, so the empty text is blank |
| `Text.DecimalString` | client/components/rag-app-main.tsx:44 | `toString()` of a non-negative integer is a non-empty run of decimal digits, with a leading zero only for 0 |
| `Text.ReadDecimal` | client/components/rag-app-main.tsx:46 | Reading the leading number of a rendered integer followed by non-digit text gives back the integer and that text |
| `Text.DecimalStringInjective` | client/components/rag-app-main.tsx:44 | Two integers render to the same text if and only if they are equal |
| `Text.Join` | client/components/rag-app-main.tsx:84 | Defines `join(sep)`: nothing for no parts, the part itself for one, and the first part, the separator and the join of the rest otherwise. `JoinSnoc` and `JoinLength` state its properties |
| `Text.JoinSnoc` | client/components/rag-app-main.tsx:84 | `join(sep)` places exactly one separator between consecutive parts |
| `Text.JoinLength` | client/components/rag-app-main.tsx:84 | The joined text keeps every character of every part and adds one separator per pair of neighbouring parts |
| `Registry.IsPdf` | client/components/rag-app-main.tsx:39 | Defines the upload filter: a file is accepted if and only if its media type is exactly `application/pdf` |
| `Registry.Pdfs` | client/components/rag-app-main.tsx:39 | The filtered batch holds only PDFs, holds every PDF of the batch, and is no longer than the batch |
| `Registry.PdfsAppend` | client/components/rag-app-main.tsx:39-41 | Filtering a concatenation gives the filtered parts in order, so successive uploads append the PDFs of each batch in call order |
| `Registry.PdfsSnoc` | client/components/rag-app-main.tsx:39 | A candidate added at the end of a batch is accepted, at the end, if and only if its type is exactly `application/pdf` |
| `Registry.PdfsCount` | client/components/rag-app-main.tsx:39 | Each file is accepted exactly as often as it occurs in the batch if it is a PDF, and never otherwise |
| `Registry.PdfsAllPdf` | client/components/rag-app-main.tsx:39 | A batch made only of PDFs is accepted whole and in order |
| `Registry.KeepOthers` | client/components/rag-app-main.tsx:62 | Filtering out the element at index k drops exactly that element when k is a position of the list, and keeps the list otherwise |
| `Registry.RemoveAt` | client/components/rag-app-main.tsx:61-62 | Deleting a valid position gives a list one shorter, equal to `s[..k] + s[k+1..]`; any other position leaves the list unchanged |
| `Transcript.MessageId` | client/components/rag-app-main.tsx:44 | A message id is the non-empty decimal text of the clock reading |
| `Transcript.MessageIdsClashIffSameReading` | client/components/rag-app-main.tsx:72-76 | Two ids are equal exactly when their clock readings are equal, so ids are not unique |
| `Transcript.UploadNotice` | client/components/rag-app-main.tsx:46 | Defines the upload confirmation: the accepted count in decimal followed by the fixed " PDF(s) uploaded successfully! ..." text. `UploadNoticeCount` states its property |
| `Transcript.UploadNoticeCount` | client/components/rag-app-main.tsx:43-47 | The upload confirmation starts with the accepted count in decimal, followed by a fixed "PDF(s)" text that does not depend on the count |
| `Transcript.Names` | client/components/rag-app-main.tsx:84 | `map(f => f.name)` keeps one name per file, in file order |
| `Transcript.NameList` | client/components/rag-app-main.tsx:84 | Defines `fileNames`: the files' names, in file order, joined by ", " |
| `Transcript.Reply` | client/components/rag-app-main.tsx:88 | Defines the answer's template literal with its three holes (count, names, question) filled in |
| `Transcript.ReplyText` | client/components/rag-app-main.tsx:84-88 | Defines the simulated answer as the template filled with the file count in decimal, the joined names and the question. The three lemmas below state where each part sits |
| `Transcript.ReplyStatesCount` | client/components/rag-app-main.tsx:88 | The answer starts with `Based on your `. The number read right after it is the file count. The text after that number is exactly ` PDF(s) (`, the joined names, `), here's my response to your question: "`, the question and the fixed closing |
| `Transcript.ReplyListsNames` | client/components/rag-app-main.tsx:84-88 | The joined names sit in the answer directly after ` PDF(s) (` and directly before `), here's my response to your question: "` |
| `Transcript.ReplyQuotesQuestion` | client/components/rag-app-main.tsx:88 | The answer quotes the question verbatim and untrimmed, directly before its fixed closing text |
| `Session.SendEnabled` | client/components/rag-app-main.tsx:310 | Sending is enabled if and only if there is a file, no answer is awaited, and the input has a non-whitespace character |
| `Session.InputEnabled` | client/components/rag-app-main.tsx:305 | Defines the text box's enabling rule: at least one file and no answer awaited |
| `Session.SendEnabledByButtonOrEnter` | client/components/rag-app-main.tsx:305-310 | The send button is enabled exactly when the text box is enabled and the handler's own guard passes, so Enter and the button send in the same states |
| `Session.Session.constructor` | client/components/rag-app-main.tsx:20-23 | A session starts with no files, no messages, an empty input, loading off and no scheduled answer |
| `Session.Session.Upload` | client/components/rag-app-main.tsx:36-55 | Files become the old files followed by the PDFs of the selection. One confirmation with their count is appended if there is at least one PDF, and nothing changes for a null selection or one without PDFs |
| `Session.Session.Delete` | client/components/rag-app-main.tsx:61-67 | Only the file list changes, and it becomes `RemoveAt(old files, index)`. The transcript is untouched |
| `Session.Session.SetInput` | client/components/rag-app-main.tsx:298 | The text box holds the typed text |
| `Session.Session.Send` | client/components/rag-app-main.tsx:69-81 | With a blank input or no files nothing changes. Otherwise one user message with the untrimmed input is appended, the input becomes empty, loading turns on, and an answer over the current files and question is scheduled |
| `Session.Session.Complete` | client/components/rag-app-main.tsx:83-92 | Appends exactly one assistant message, built from the files and question captured at send time and given the id of clock plus one. Loading turns off and the oldest scheduled answer is consumed |
| `Session.Session.KeyPress` | client/components/rag-app-main.tsx:95-100 | Enter without Shift behaves exactly as Send; any other key changes nothing |
| `Session.Session.Dispatch` | client/components/rag-app-main.tsx:296-315 | Each event has its handler's effect when the page lets it through (upload, delete, typing into an enabled box, an enabled send by button or by Enter without Shift, a scheduled timer firing). A blocked event leaves all five state cells unchanged. Every event keeps the turn invariant (at most one pending answer, loading exactly while one is pending). The transcript grows by at most one message at its end. A user message is appended exactly when an enabled send is requested, and never while loading |

## Left out

- client/app/layout.tsx: the authentication provider, the signed-in and signed-out gate, font loading and page metadata. They are library wiring with no state of their own.
- Rendering: markup, styles, icons, and the placeholder text of the text box.
- Scrolling to the newest message, the file-picker click, and clearing the file input after an upload. These are browser side effects that do not touch the modelled state.
- The input element's `accept=".pdf"` attribute. It only narrows the browser's file picker. The handler's own media-type filter is modelled.
- The size shown in MB with two decimals. It is floating-point display only. The size is kept as a number of bytes.
- The real clock and timer. The clock reading is a parameter. The 1500 ms delay is the explicit `Complete` step, which the page can deliver only after a `Send` scheduled it.
- `Text.DecimalString`: renders every non-negative integer as plain digits. JavaScript switches to exponent notation from 10^21 on. Clock readings and file counts never get that large.
- Key events are decoded only as far as "Enter without Shift sends". The default action that is prevented is browser behaviour.
- React's scheduling. Each handler is modelled as running to completion on the state of the latest render. Updates are applied in the order the handler issues them.
- `Session.UploadKeepsPdfsOnly`, `Session.AskAboutOnePdf` and `Session.AnswerOutlivesDelete` are walk-throughs of concrete sessions. They show what the contracts above imply for one concrete session each and state no contract of their own.
