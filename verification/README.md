# kindlebot — verified model of the upload-to-Kindle pipeline

`kindlebot.py` is a Telegram bot. A user uploads an ebook. The bot checks the
file name against six supported formats and saves the upload as `./<name>`.
Unless the file is already EPUB, it converts it with `ebook-convert` into a
`.epub` next to it. It mails the result to a fixed list of Kindle addresses
over one SMTP session. When at least one send succeeds, it replies with a header
and one ✅/❌ line per address. It then removes the download, and removes the
converted file only after a successful send.

This project models that pipeline in Dafny as pure functions:

- `Text`: ASCII `str.lower`, `str.endswith`, the last-dot search behind `rsplit('.', 1)`,
  and `"\n".join` with its inverse `split("\n")`.
- `Classifier`: `is_supported_format` and the "already EPUB" test, checked against an
  independent definition based on the text after the last dot.
- `Converter`: the output-path rule and the failure behaviour of `convert_to_kindle_format`.
  The tool is a boolean oracle.
- `Delivery`: `send_to_kindle` as a fold over the recipients. The file, the SMTP session and
  every per-recipient send are inputs. It has a functional definition and a method
  that follows the source loop, and the two are proved equal.
- `Report`: the status message assembled after a successful send.
- `Orchestrator`: `handle_book` over an abstract set of paths on disk. Replies become a
  log of `Reply` values, and calls to the converter and the mailer a log of `Call` values.
  `Run` takes a cleanup policy. `HandleBook` is the code as written. `HandleBookWithCleanup`
  also removes the converted file when the send fails (see Findings).

Three behaviours of the code are easy to miss:

- When every recipient fails, `send_to_kindle` raises a plain exception. That exception carries
  no per-recipient outcomes, so the user sees only "Failed to process: Failed to send to all
  recipients" (`Orchestrator.AllFailedLosesOutcomes`).
- The converted file is removed only on the success path (`Orchestrator.ConvertedRemovedOnlyOnSuccess`).
- An unsupported name is answered before anything is downloaded, so no cleanup is needed on that path.

## Model

| member | source | states |
|---|---|---|
| `Classifier.SupportedIffKnownExtension` | kindlebot.py:127-129 | the case-insensitive six-suffix test accepts a name iff the lower-cased text after its last dot is one of epub, mobi, pdf, txt, doc, docx |
| `Classifier.EpubIffExtension` | kindlebot.py:92 | the "already EPUB" test holds iff the lower-cased text after the last dot is `epub` |
| `Classifier.EpubIsSupported` | kindlebot.py:92 | every name sent without conversion also passed the supported-format test |
| `Converter.Stem` | kindlebot.py:22 | `rsplit('.', 1)[0]`: a prefix of the path that equals it iff the path has no dot, and otherwise stops at a dot with no dot after it |
| `Classifier.Classify` | kindlebot.py:83-99 | the handler's three outcomes: send directly iff the extension is epub, convert iff it is one of the five others, reject otherwise |
| `Classifier.UpperCasePdfIsConverted` | kindlebot.py:127-129 | `BOOK.PDF` is accepted and goes through conversion |
| `Classifier.UpperCaseEpubIsNative` | kindlebot.py:92 | `Novel.EPUB` is sent without conversion |
| `Classifier.ZipRejected` | kindlebot.py:127-129 | `x.zip` is rejected |
| `Classifier.BareExtensionRejected` | kindlebot.py:127-129 | `pdf` with no dot is rejected |
| `Converter.OutputPath` | kindlebot.py:22 | the output ends in `.epub`; what precedes it is a prefix of the input; what was dropped is empty for a dotless input, else a dot followed by dot-free text |
| `Converter.OutputPathReplacesLastSuffix` | kindlebot.py:22 | `stem + "." + ext` with dot-free `ext` becomes `stem + ".epub"`, whatever dots `stem` holds |
| `Converter.OutputPathOfDotless` | kindlebot.py:22 | a path with no dot just gains `.epub` |
| `Converter.SupportedOutputKeepsStem` | kindlebot.py:22 | a supported name saved under any directory converts to the same directory and stem with `.epub` |
| `Converter.OutputPathDiffersUnlessEpub` | kindlebot.py:22 | only a path that passes the EPUB test can equal its own conversion output |
| `Converter.Convert` | kindlebot.py:21-27 | conversion yields a path iff the tool succeeds, and that path is the derived `.epub` path; otherwise it raises |
| `Delivery.OutcomeOf` | kindlebot.py:52-67 | a recipient's triple is `(e, True, None)` when its send returned and `(e, False, msg)` when it raised `msg` |
| `Delivery.RecordSends` | kindlebot.py:51-67 | exactly one triple per recipient, in list order, each reflecting only that recipient's send |
| `Delivery.SendToKindle` | kindlebot.py:29-76 | returns normally iff the file is readable, the session opens and some send succeeds; an unreadable file or failed connect/login raises before any recipient; otherwise all-failed raises; a returned list is the per-recipient record |
| `Delivery.SendToKindleLoop` | kindlebot.py:45-73 | the source's append-per-recipient loop computes exactly `SendToKindle` |
| `Delivery.RecipientsIndependent` | kindlebot.py:52-67 | changing one recipient's send result changes no other recipient's triple |
| `Delivery.MiddleFailureDoesNotAbort` | kindlebot.py:51-67 | `[A, B, C]` with B refused gives `[ok A, fail B, ok C]` and returns normally |
| `Delivery.NoRecipientsRaises` | kindlebot.py:70-73 | with no recipients nothing succeeds, so the call raises |
| `Delivery.ConnectFailureIgnoresRecipients` | kindlebot.py:45-48 | a failed connect or login raises `ConnectFailed` whatever the sends would have done |
| `Report.StatusLineShape` | kindlebot.py:110-114 | a status line starts with ✅ iff the send succeeded and names the recipient right after its fixed prefix |
| `Report.StatusLines` | kindlebot.py:109-114 | one status line per result, in result order |
| `Report.ReportLines` | kindlebot.py:116 | the header naming the file, then the status lines |
| `Report.StatusLineSingleLine` | kindlebot.py:110-114 | a status line has no newline unless its recipient or error text has one |
| `Report.ReportText` | kindlebot.py:116 | the message starts with the header naming the file, and is only the header when there are no outcomes |
| `Report.ReportLinesSingleLine` | kindlebot.py:109-116 | when neither the name nor any address or error text holds a newline, no line of the message does |
| `Report.ReportTextSplits` | kindlebot.py:116 | when no input contains a newline, splitting the joined message on newlines gives back the header and the status lines |
| `Report.ReportMarksEachRecipient` | kindlebot.py:109-116 | read back line by line, the message has one line per recipient after the header, ✅ exactly for successes |
| `Text.SplitJoin` | kindlebot.py:116 | `"\n".join` of newline-free lines splits back into the same lines |
| `Orchestrator.Run` | kindlebot.py:80-122 | an unsupported name gets one reply with no download and no file change; a supported name is downloaded first |
| `Orchestrator.HandleBook` | kindlebot.py:80-122 | the handler as written, where the converted file is removed only after a successful send: an unsupported name gets one reply and no download or change on disk; a supported one is downloaded first, and the download is gone afterwards |
| `Orchestrator.HandleBookWithCleanup` | kindlebot.py:80-122 | the handler with the converted file also removed on failure: the same reply and download rules, and the disk afterwards holds no more than it held before, minus the download |
| `Orchestrator.ConvertedDiffersFromSaved` | kindlebot.py:87-99 | the converted path can equal the saved original only for an EPUB name, which is never converted |
| `Orchestrator.OriginalAlwaysRemoved` | kindlebot.py:119-122 | for a supported name the saved original is absent after the job on every path, under either policy |
| `Orchestrator.OtherFilesUntouched` | kindlebot.py:87-122 | no path other than the saved original and the converted file changes |
| `Orchestrator.SendCalledIff` | kindlebot.py:91-102 | `send_to_kindle` is called iff the name is supported and either EPUB or successfully converted |
| `Orchestrator.ConversionFailureReported` | kindlebot.py:97-102 | a failed conversion yields the converting reply and a failure reply, no send, and only the original removed |
| `Orchestrator.SendDirectlyDelivered` | kindlebot.py:92-95 | in the EPUB branch the report comes iff the session opens and some send succeeds, and it lists every outcome |
| `Orchestrator.ConvertedSend` | kindlebot.py:96-102 | after a successful conversion the replies are converting, sending, then the outcome of sending the converted file |
| `Orchestrator.ConvertAndSendDelivered` | kindlebot.py:96-106 | in the conversion branch the report comes iff the tool, the session and some send succeed |
| `Orchestrator.ConvertAndSendReport` | kindlebot.py:96-116 | in the conversion branch a report lists every recipient's outcome in order |
| `Orchestrator.DeliveredIff` | kindlebot.py:108-116 | a job ends in the report iff the name is supported, EPUB or converted, the session opens and some send succeeds; the report is the header plus every recipient's line in order |
| `Orchestrator.RenamedInPlaceIsEpub` | kindlebot.py:87-99 | a saved path of the form stem plus `.epub` belongs to a name that passes the EPUB test |
| `Orchestrator.ConvertedKeptIffSendFailed` | kindlebot.py:97-106 | in the conversion branch as written, the converted file survives iff no report was sent |
| `Orchestrator.ConvertedRemovedOnlyOnSuccess` | kindlebot.py:104-106 | as written, the converted file is on disk after the job iff the job did not end in the report |
| `Orchestrator.ConvertedFileLeaks` | kindlebot.py:104-106 | `book.pdf` converted and then a failed SMTP connection: as written `./book.epub` remains; with cleanup on every path nothing remains |
| `Orchestrator.CleanupLeavesNoArtifact` | kindlebot.py:119-122 | with cleanup on every path, the disk after the job is a subset of the disk before it minus the original, and the converted file is gone |
| `Orchestrator.AllFailedLosesOutcomes` | kindlebot.py:69-73 | when every send fails the last reply is the generic all-failed error and no report with per-recipient lines is sent |
| `Orchestrator.BookPdfIsConverted` | kindlebot.py:83-99 | `book.pdf` is supported and takes the conversion branch |
| `Orchestrator.BookPdfConverted` | kindlebot.py:22 | `book.pdf`, saved as `./book.pdf`, converts to `./book.epub` |
| `Orchestrator.BookPdfDeliveredToBoth` | kindlebot.py:80-122 | `book.pdf` sent to two Kindles that both accept: converting, sending, a report with two successes in order, and no file left |
| `Orchestrator.NotesTxtIsConverted` | kindlebot.py:83-99 | `notes.txt` is supported, takes the conversion branch and is saved as `./notes.txt` |
| `Orchestrator.NotesTxtConversionFails` | kindlebot.py:97-102 | `notes.txt` whose conversion fails: failure reported, nothing sent, `./notes.txt` removed |

## Left out

- Telegram: `reply_text`, `get_file` and `download_to_drive` are not modelled. Replies are a log of `Reply` values. A reply's exact wording is modelled only for the report.
- Download failure: the download is assumed to succeed. In the source it runs before the `try`, so a failure there would skip the `finally` cleanup. That path is not modelled.
- `handle_document` (kindlebot.py:132-141): the outer dispatcher repeats the same supported-format test and the same rejection reply before calling `handle_book`. It is not modelled separately.
- SMTP and MIME: `starttls`, `login`, `send_message` and message construction become oracle inputs. They are a connect flag and one `Option<string>` per recipient. Building each message copy and sending it sit in the same per-recipient `try`, so a failure of either is one `Some(msg)`.
- Closing the SMTP session: leaving the `with` block sends `QUIT`, and an error raised there is not modelled.
- Exception texts: the library's message for a failed connect or unreadable file, and the tool's message inside "Conversion failed: …", are abstracted into `SendError` and `JobError` constructors.
- `ebook-convert`: a boolean oracle. When it fails, no partial output is modelled. When it succeeds, it is assumed to have written the output file.
- Filesystem: an abstract set of paths. `os.path.exists` guards and removal errors are not modelled. Removing an absent path is a no-op, as the guard makes it.
- `str.lower` beyond ASCII: only `A`–`Z` are folded. Python's full Unicode lower-casing, which can change a string's length, is not modelled.
- Configuration constants, bot bootstrap, polling and `print` logging (kindlebot.py:12-19, 125, 143-148).
- Concurrency between jobs and collisions between uploads with the same name: the model is one sequential job.

## Findings

| source | as written | input that shows it | evidently intended | confidence | as-written member | corrected member |
|---|---|---|---|---|---|---|
| kindlebot.py:104-106 | the converted `.epub` is removed inside the `try`, after `send_to_kindle` returns, and the `finally` removes only the original | `book.pdf` converts, then the SMTP connection fails: `./book.epub` stays on disk | the temporary converted file is removed on every path, like the original | medium, not executed | `Orchestrator.ConvertedFileLeaks` | `Orchestrator.CleanupLeavesNoArtifact` |
