/** `handle_book`: classify the upload, download it, convert it unless it is
    already EPUB, send it, report, and clean up, over an abstract set of paths
    on disk. Telegram replies become a log of `Reply` values and the calls into
    the converter and the mailer a log of `Call` values. */
module Orchestrator {
  import opened Wrappers
  import opened Text
  import opened Classifier
  import opened Converter
  import opened Delivery
  import opened Report

  /** What the outside world does during one job: the conversion tool's exit status,
      whether the SMTP connection and login succeed, and each recipient's send. */
  datatype Oracle = Oracle(convertOk: bool, connectOk: bool, sends: seq<Option<string>>)

  /** The steps of a job that touch the outside world, in the order they happen. */
  datatype Call =
    | Download(path: string)
    | RunConverter(path: string)
    | Send(path: string)

  /** What reaches the `except` clause of `handle_book`. */
  datatype JobError = ConversionError | DeliveryError(cause: SendError)

  /** The texts `handle_book` replies with. */
  datatype Reply =
    | UnsupportedFormat               // "❌ Unsupported file format. ..."
    | Converting                      // "📚 Converting your book to EPUB format..."
    | Sending                         // "📧 Sending to your Kindles..."
    | Report(text: string)            // the joined status message
    | ProcessFailed(error: JobError)  // "❌ Failed to process: {e}"

  /** When the converted file is removed: only after a successful send (the code as written),
      or on every path, as the `finally` clause does for the original. */
  datatype Cleanup = AsWritten | EveryPath

  /** The state after a job: the paths on disk, the replies sent, the external calls made. */
  datatype Job = Job(files: set<string>, replies: seq<Reply>, calls: seq<Call>)

  /** `f"./{doc.file_name}"`. */
  function SavedPath(fileName: string): string {
    "./" + fileName
  }

  /** The reply that ends the `try` block once `send_to_kindle` has returned or raised. */
  function Conclude(fileName: string, sent: Result<seq<Outcome>, SendError>): Reply {
    match sent
    case Success(results) => Report(ReportText(fileName, results))
    case Failure(e) => ProcessFailed(DeliveryError(e))
  }

  /** One run of `handle_book` under a cleanup policy. */
  function Run(cleanup: Cleanup, recipients: seq<string>, fileName: string, files: set<string>,
               oracle: Oracle): (job: Job)
    requires |oracle.sends| == |recipients|
    ensures !IsSupportedFormat(fileName) ==> job.files == files && job.calls == [] && job.replies == [UnsupportedFormat]
    ensures IsSupportedFormat(fileName) ==> |job.calls| > 0 && job.calls[0] == Download(SavedPath(fileName))
  {
    match Classify(fileName)
    case Unsupported => Job(files, [UnsupportedFormat], [])
    case Native => SendDirectly(recipients, fileName, files, oracle)
    case Convertible => ConvertAndSend(cleanup, recipients, fileName, files, oracle)
  }

  /** The EPUB branch: download, send the original, report, remove the original. */
  function SendDirectly(recipients: seq<string>, fileName: string, files: set<string>, oracle: Oracle): Job
    requires |oracle.sends| == |recipients|
  {
    var path := SavedPath(fileName);
    var downloaded := files + {path};
    var sent := SendToKindle(downloaded, path, recipients, oracle.connectOk, oracle.sends);
    Job(downloaded - {path}, [Sending, Conclude(fileName, sent)], [Download(path), Send(path)])
  }

  /** The conversion branch: download, convert, send the converted file, report, and remove
      the converted file (when the policy says so) and the original. */
  function ConvertAndSend(cleanup: Cleanup, recipients: seq<string>, fileName: string, files: set<string>,
                          oracle: Oracle): Job
    requires |oracle.sends| == |recipients|
  {
    var path := SavedPath(fileName);
    var downloaded := files + {path};
    match Convert(path, oracle.convertOk)
    case Failure(_) =>
      Job(downloaded - {path}, [Converting, ProcessFailed(ConversionError)], [Download(path), RunConverter(path)])
    case Success(out) =>
      var converted := downloaded + {out};
      var sent := SendToKindle(converted, out, recipients, oracle.connectOk, oracle.sends);
      var kept := if sent.Success? || cleanup == EveryPath then converted - {out} else converted;
      Job(kept - {path}, [Converting, Sending, Conclude(fileName, sent)], [Download(path), RunConverter(path), Send(out)])
  }

  /** `handle_book` as written: the converted file is removed only after a successful send. */
  function HandleBook(recipients: seq<string>, fileName: string, files: set<string>, oracle: Oracle): (job: Job)
    requires |oracle.sends| == |recipients|
    ensures !IsSupportedFormat(fileName) ==> job.files == files && job.calls == [] && job.replies == [UnsupportedFormat]
    ensures IsSupportedFormat(fileName) ==> |job.calls| > 0 && job.calls[0] == Download(SavedPath(fileName))
    ensures IsSupportedFormat(fileName) ==> SavedPath(fileName) !in job.files
  {
    Run(AsWritten, recipients, fileName, files, oracle)
  }

  /** `handle_book` with the converted file removed in the `finally` clause too. */
  function HandleBookWithCleanup(recipients: seq<string>, fileName: string, files: set<string>, oracle: Oracle): (job: Job)
    requires |oracle.sends| == |recipients|
    ensures !IsSupportedFormat(fileName) ==> job.files == files && job.calls == [] && job.replies == [UnsupportedFormat]
    ensures IsSupportedFormat(fileName) ==> |job.calls| > 0 && job.calls[0] == Download(SavedPath(fileName))
    ensures IsSupportedFormat(fileName) ==> job.files <= files - {SavedPath(fileName)}
  {
    Run(EveryPath, recipients, fileName, files, oracle)
  }

  /** The job ended with the per-recipient report. */
  predicate Delivered(job: Job) {
    |job.replies| > 0 && job.replies[|job.replies| - 1].Report?
  }

  /** `send_to_kindle` was called during the job. */
  predicate SendCalled(job: Job) {
    exists i :: 0 <= i < |job.calls| && job.calls[i].Send?
  }

  /** The path the converter writes for this upload. */
  function ConvertedPath(fileName: string): string {
    OutputPath(SavedPath(fileName))
  }

  /** Only an EPUB upload could be its own conversion output, so a converted file never lands on
      the downloaded original. */
  lemma ConvertedDiffersFromSaved(fileName: string)
    requires IsSupportedFormat(fileName)
    ensures ConvertedPath(fileName) == SavedPath(fileName) ==> IsEpub(fileName)
  {
    SupportedOutputKeepsStem("./", fileName);
    if ConvertedPath(fileName) == SavedPath(fileName) {
      RenamedInPlaceIsEpub(fileName, fileName[..|fileName| - |Extension(fileName).value| - 1]);
    }
  }

  /** A saved name that equals some stem plus `.epub` passes the EPUB test. */
  lemma RenamedInPlaceIsEpub(fileName: string, stem: string)
    requires SavedPath(fileName) == "./" + stem + TargetSuffix
    ensures IsEpub(fileName)
  {
    assert "./" + stem + TargetSuffix == "./" + (stem + TargetSuffix);
    AppendCancel("./", fileName, stem + TargetSuffix);
    EndsWithAppended(stem, TargetSuffix);
    EpubSuffixIsEpub(fileName);
  }

  /** For a supported name the original download is gone after the job, on every path. */
  lemma OriginalAlwaysRemoved(cleanup: Cleanup, recipients: seq<string>, fileName: string, files: set<string>,
                              oracle: Oracle)
    requires |oracle.sends| == |recipients|
    requires IsSupportedFormat(fileName)
    ensures SavedPath(fileName) !in Run(cleanup, recipients, fileName, files, oracle).files
  {
  }

  /** The job touches no path other than the original and the converted file. */
  lemma OtherFilesUntouched(cleanup: Cleanup, recipients: seq<string>, fileName: string, files: set<string>,
                            oracle: Oracle, p: string)
    requires |oracle.sends| == |recipients|
    requires p != SavedPath(fileName) && p != ConvertedPath(fileName)
    ensures p in Run(cleanup, recipients, fileName, files, oracle).files <==> p in files
  {
  }

  /** `send_to_kindle` runs exactly when the name is supported and is EPUB or converted successfully;
      in particular a failed conversion never reaches it. */
  lemma SendCalledIff(cleanup: Cleanup, recipients: seq<string>, fileName: string, files: set<string>,
                      oracle: Oracle)
    requires |oracle.sends| == |recipients|
    ensures SendCalled(Run(cleanup, recipients, fileName, files, oracle)) <==>
      IsSupportedFormat(fileName) && (IsEpub(fileName) || oracle.convertOk)
  {
    var job := Run(cleanup, recipients, fileName, files, oracle);
    if IsSupportedFormat(fileName) && (IsEpub(fileName) || oracle.convertOk) {
      assert job.calls[|job.calls| - 1].Send?;
    } else {
      assert forall i :: 0 <= i < |job.calls| ==> !job.calls[i].Send?;
    }
  }

  /** A failed conversion is reported as such, with the original removed and nothing sent. */
  lemma ConversionFailureReported(cleanup: Cleanup, recipients: seq<string>, fileName: string, files: set<string>,
                                  oracle: Oracle)
    requires |oracle.sends| == |recipients|
    requires IsSupportedFormat(fileName) && !IsEpub(fileName) && !oracle.convertOk
    ensures var job := Run(cleanup, recipients, fileName, files, oracle);
      && job.replies == [Converting, ProcessFailed(ConversionError)]
      && !SendCalled(job)
      && job.files == files - {SavedPath(fileName)}
  {
    SendCalledIff(cleanup, recipients, fileName, files, oracle);
  }

  /** In the EPUB branch the report comes exactly when some send went through. */
  lemma SendDirectlyDelivered(recipients: seq<string>, fileName: string, files: set<string>, oracle: Oracle)
    requires |oracle.sends| == |recipients|
    ensures var job := SendDirectly(recipients, fileName, files, oracle);
      && (Delivered(job) <==> oracle.connectOk && SomeSendSucceeds(oracle.sends))
      && (Delivered(job) ==>
            job.replies[|job.replies| - 1] == Report(ReportText(fileName, RecordSends(recipients, oracle.sends))))
  {
    var path := SavedPath(fileName);
    var sent := SendToKindle(files + {path}, path, recipients, oracle.connectOk, oracle.sends);
    assert sent.Success? <==> oracle.connectOk && SomeSendSucceeds(oracle.sends);
  }

  /** In the conversion branch the report comes exactly when the tool and some send succeeded. */
  lemma ConvertAndSendDelivered(cleanup: Cleanup, recipients: seq<string>, fileName: string, files: set<string>,
                                oracle: Oracle)
    requires |oracle.sends| == |recipients|
    ensures Delivered(ConvertAndSend(cleanup, recipients, fileName, files, oracle)) <==>
      oracle.convertOk && oracle.connectOk && SomeSendSucceeds(oracle.sends)
  {
    if oracle.convertOk {
      ConvertedSend(cleanup, recipients, fileName, files, oracle);
    }
  }

  /** After a successful conversion the job ends with what `send_to_kindle` gave for the converted file. */
  lemma ConvertedSend(cleanup: Cleanup, recipients: seq<string>, fileName: string, files: set<string>,
                      oracle: Oracle)
    requires |oracle.sends| == |recipients|
    requires oracle.convertOk
    ensures var job := ConvertAndSend(cleanup, recipients, fileName, files, oracle);
      var out := ConvertedPath(fileName);
      var sent := SendToKindle(files + {SavedPath(fileName)} + {out}, out, recipients, oracle.connectOk, oracle.sends);
      && sent.Success? == (oracle.connectOk && SomeSendSucceeds(oracle.sends))
      && job.replies == [Converting, Sending, Conclude(fileName, sent)]
  {
  }

  /** In the conversion branch a report, when there is one, lists every recipient's outcome in order. */
  lemma ConvertAndSendReport(cleanup: Cleanup, recipients: seq<string>, fileName: string, files: set<string>,
                             oracle: Oracle)
    requires |oracle.sends| == |recipients|
    ensures var job := ConvertAndSend(cleanup, recipients, fileName, files, oracle);
      Delivered(job) ==>
        job.replies[|job.replies| - 1] == Report(ReportText(fileName, RecordSends(recipients, oracle.sends)))
  {
    if oracle.convertOk {
      ConvertedSend(cleanup, recipients, fileName, files, oracle);
    }
  }

  /** The job ends in the report exactly when some send went through, and the report lists
      every recipient's outcome in order. */
  lemma DeliveredIff(cleanup: Cleanup, recipients: seq<string>, fileName: string, files: set<string>,
                     oracle: Oracle)
    requires |oracle.sends| == |recipients|
    ensures var job := Run(cleanup, recipients, fileName, files, oracle);
      Delivered(job) <==>
        IsSupportedFormat(fileName) && (IsEpub(fileName) || oracle.convertOk) && oracle.connectOk
        && SomeSendSucceeds(oracle.sends)
    ensures var job := Run(cleanup, recipients, fileName, files, oracle);
      Delivered(job) ==>
        job.replies[|job.replies| - 1] == Report(ReportText(fileName, RecordSends(recipients, oracle.sends)))
  {
    if IsSupportedFormat(fileName) {
      if IsEpub(fileName) {
        SendDirectlyDelivered(recipients, fileName, files, oracle);
      } else {
        ConvertAndSendDelivered(cleanup, recipients, fileName, files, oracle);
        ConvertAndSendReport(cleanup, recipients, fileName, files, oracle);
      }
    }
  }

  /** As written, the converted file is removed exactly when the send succeeded. */
  lemma ConvertedRemovedOnlyOnSuccess(recipients: seq<string>, fileName: string, files: set<string>, oracle: Oracle)
    requires |oracle.sends| == |recipients|
    requires IsSupportedFormat(fileName) && !IsEpub(fileName) && oracle.convertOk
    ensures var job := HandleBook(recipients, fileName, files, oracle);
      ConvertedPath(fileName) in job.files <==> !Delivered(job)
  {
    ConvertedDiffersFromSaved(fileName);
    assert HandleBook(recipients, fileName, files, oracle) == ConvertAndSend(AsWritten, recipients, fileName, files, oracle);
    ConvertedKeptIffSendFailed(recipients, fileName, files, oracle);
  }

  /** In the conversion branch as written, the converted file survives exactly when no report was sent. */
  lemma ConvertedKeptIffSendFailed(recipients: seq<string>, fileName: string, files: set<string>, oracle: Oracle)
    requires |oracle.sends| == |recipients|
    requires oracle.convertOk && ConvertedPath(fileName) != SavedPath(fileName)
    ensures var job := ConvertAndSend(AsWritten, recipients, fileName, files, oracle);
      ConvertedPath(fileName) in job.files <==> !Delivered(job)
  {
    ConvertedSend(AsWritten, recipients, fileName, files, oracle);
  }

  /** With cleanup on every path, no file the job created survives it and nothing is added. */
  lemma CleanupLeavesNoArtifact(recipients: seq<string>, fileName: string, files: set<string>, oracle: Oracle)
    requires |oracle.sends| == |recipients|
    requires IsSupportedFormat(fileName)
    ensures var job := HandleBookWithCleanup(recipients, fileName, files, oracle);
      && job.files <= files - {SavedPath(fileName)}
      && (!IsEpub(fileName) && oracle.convertOk ==> ConvertedPath(fileName) !in job.files)
  {
  }

  /** `book.pdf` is supported and converted. */
  lemma BookPdfIsConverted()
    ensures IsSupportedFormat("book.pdf") && !IsEpub("book.pdf")
  {
    assert Lower("book.pdf") == "book.pdf";
    assert EndsWith(Lower("book.pdf"), SupportedFormats[2]);
  }

  /** `book.pdf` is saved as `./book.pdf`. */
  lemma BookPdfSaved()
    ensures SavedPath("book.pdf") == "./book.pdf"
  {
  }

  /** `./book.pdf` is converted to `./book.epub`. */
  lemma BookPdfConverted()
    ensures ConvertedPath("book.pdf") == "./book.epub"
  {
    BookPdfSaved();
    assert "./book.pdf" == "./book" + "." + "pdf";
    OutputPathReplacesLastSuffix("./book", "pdf");
  }

  /** As written, a connection failure after a successful conversion leaves `book.epub` behind;
      with cleanup on every path nothing is left. */
  lemma ConvertedFileLeaks()
    ensures HandleBook(["kindle@example.com"], "book.pdf", {}, Oracle(true, false, [None])).files == {"./book.epub"}
    ensures HandleBookWithCleanup(["kindle@example.com"], "book.pdf", {}, Oracle(true, false, [None])).files == {}
  {
    BookPdfIsConverted();
    BookPdfSaved();
    BookPdfConverted();
    var sent := SendToKindle({"./book.pdf", "./book.epub"}, "./book.epub", ["kindle@example.com"], false, [None]);
    assert sent == Failure(ConnectFailed);
    assert {"./book.pdf", "./book.epub"} - {"./book.pdf"} == {"./book.epub"};
  }

  /** When every recipient refuses, the user gets only the generic failure, not the per-recipient outcomes. */
  lemma AllFailedLosesOutcomes(cleanup: Cleanup, recipients: seq<string>, fileName: string, files: set<string>,
                               oracle: Oracle)
    requires |oracle.sends| == |recipients|
    requires IsSupportedFormat(fileName) && (IsEpub(fileName) || oracle.convertOk) && oracle.connectOk
    requires !SomeSendSucceeds(oracle.sends)
    ensures var job := Run(cleanup, recipients, fileName, files, oracle);
      && job.replies[|job.replies| - 1] == ProcessFailed(DeliveryError(AllRecipientsFailed))
      && forall i :: 0 <= i < |job.replies| ==> !job.replies[i].Report?
  {
  }

  /** `book.pdf` converted and accepted by both Kindles: a report with one tick per recipient,
      in order, and neither `./book.pdf` nor `./book.epub` left on disk. */
  lemma BookPdfDeliveredToBoth()
    ensures var job := HandleBook(["k1@example.com", "k2@example.com"], "book.pdf", {}, Oracle(true, true, [None, None]));
      && job.files == {}
      && Delivered(job)
      && job.replies == [Converting, Sending, Report(ReportText("book.pdf",
           [Outcome("k1@example.com", true, None), Outcome("k2@example.com", true, None)]))]
  {
    var recipients := ["k1@example.com", "k2@example.com"];
    var sends: seq<Option<string>> := [None, None];
    var oracle := Oracle(true, true, sends);
    BookPdfIsConverted();
    BookPdfSaved();
    BookPdfConverted();
    assert sends[0].None?;
    DeliveredIff(AsWritten, recipients, "book.pdf", {}, oracle);
    var expected := [Outcome("k1@example.com", true, None), Outcome("k2@example.com", true, None)];
    assert RecordSends(recipients, sends) == expected by {
      var rs := RecordSends(recipients, sends);
      assert rs[0] == expected[0] && rs[1] == expected[1];
    }
    ConvertedSend(AsWritten, recipients, "book.pdf", {}, oracle);
  }

  /** `notes.txt` is supported and converted, from `./notes.txt`. */
  lemma NotesTxtIsConverted()
    ensures IsSupportedFormat("notes.txt") && !IsEpub("notes.txt")
    ensures SavedPath("notes.txt") == "./notes.txt"
  {
    assert Lower("notes.txt") == "notes.txt";
    assert EndsWith(Lower("notes.txt"), SupportedFormats[3]);
  }

  /** `notes.txt` whose conversion fails: the failure is reported, nothing is sent, and the
      downloaded `./notes.txt` is removed. */
  lemma NotesTxtConversionFails(recipients: seq<string>, sends: seq<Option<string>>, files: set<string>)
    requires |sends| == |recipients|
    ensures var job := HandleBook(recipients, "notes.txt", files, Oracle(false, true, sends));
      && job.replies == [Converting, ProcessFailed(ConversionError)]
      && !SendCalled(job)
      && "./notes.txt" !in job.files
  {
    NotesTxtIsConverted();
    ConversionFailureReported(AsWritten, recipients, "notes.txt", files, Oracle(false, true, sends));
  }
}
