/** The status message `handle_book` sends back after a successful delivery:
    a header naming the file, then one line per recipient, joined by newlines. */
module Report {
  import opened Wrappers
  import opened Text
  import opened Delivery

  const SentPrefix: string := "✅ Sent to "
  const FailedPrefix: string := "❌ Failed to send to "
  const Newline: char := '\n'

  /** `f"📚 '{doc.file_name}'"`. */
  function Header(fileName: string): string {
    "📚 '" + fileName + "'"
  }

  /** `f"{error}"`: Python renders a missing error as `None`. */
  function ErrorText(error: Option<string>): string {
    match error
    case None => "None"
    case Some(msg) => msg
  }

  /** The line for one `(email, success, error)` triple. */
  function StatusLine(o: Outcome): string {
    if o.success then SentPrefix + o.email
    else FailedPrefix + o.email + ": " + ErrorText(o.error)
  }

  /** A line starts with the tick exactly for a success, and names the recipient right after its prefix. */
  lemma StatusLineShape(o: Outcome)
    ensures |StatusLine(o)| > 0
    ensures StatusLine(o)[0] == '✅' <==> o.success
    ensures o.success ==> StatusLine(o)[|SentPrefix|..] == o.email
    ensures !o.success ==> StatusLine(o)[|FailedPrefix|..|FailedPrefix| + |o.email|] == o.email
  {
    if !o.success {
      var line := StatusLine(o);
      assert line == FailedPrefix + (o.email + ": " + ErrorText(o.error));
    }
  }

  /** `status_messages`: one line per result, in result order. */
  function StatusLines(results: seq<Outcome>): (lines: seq<string>)
    ensures |lines| == |results|
    ensures forall i :: 0 <= i < |results| ==> lines[i] == StatusLine(results[i])
    decreases |results|
  {
    if |results| == 0 then []
    else
      var n := |results| - 1;
      StatusLines(results[..n]) + [StatusLine(results[n])]
  }

  /** `[header] + status_messages`. */
  function ReportLines(fileName: string, results: seq<Outcome>): (lines: seq<string>)
    ensures |lines| == |results| + 1
    ensures lines[0] == Header(fileName)
    ensures forall i :: 0 <= i < |results| ==> lines[i + 1] == StatusLine(results[i])
  {
    var rest := StatusLines(results);
    var lines := [Header(fileName)] + rest;
    assert forall i :: 0 <= i < |results| ==> lines[i + 1] == rest[i];
    lines
  }

  /** `"\n".join([header] + status_messages)`. */
  function ReportText(fileName: string, results: seq<Outcome>): (text: string)
    ensures Header(fileName) <= text
    ensures |results| == 0 ==> text == Header(fileName)
  {
    Join(ReportLines(fileName, results), Newline)
  }

  /** No newline in the file name or in any recipient or error text. */
  predicate SingleLineInputs(fileName: string, results: seq<Outcome>) {
    && Newline !in fileName
    && forall i :: 0 <= i < |results| ==> Newline !in results[i].email && Newline !in ErrorText(results[i].error)
  }

  /** When no input holds a newline, the report reads back, line by line, as the header followed by
      one status line per result in order. */
  lemma ReportTextSplits(fileName: string, results: seq<Outcome>)
    requires SingleLineInputs(fileName, results)
    ensures Split(ReportText(fileName, results), Newline) == ReportLines(fileName, results)
    ensures |Split(ReportText(fileName, results), Newline)| == |results| + 1
  {
    ReportLinesSingleLine(fileName, results);
    SplitJoin(ReportLines(fileName, results), Newline);
  }

  /** With single-line inputs, no line of the report holds a newline. */
  lemma ReportLinesSingleLine(fileName: string, results: seq<Outcome>)
    requires SingleLineInputs(fileName, results)
    ensures forall i :: 0 <= i < |results| + 1 ==> Newline !in ReportLines(fileName, results)[i]
  {
    var lines := ReportLines(fileName, results);
    forall i | 0 <= i < |lines|
      ensures Newline !in lines[i]
    {
      if i > 0 {
        StatusLineSingleLine(results[i - 1]);
      }
    }
  }

  /** A status line holds a newline only if its recipient or error text does. */
  lemma StatusLineSingleLine(o: Outcome)
    requires Newline !in o.email && Newline !in ErrorText(o.error)
    ensures Newline !in StatusLine(o)
  {
  }

  /** Read back line by line, the report names the file first and then marks each recipient,
      in order, with a tick exactly when its send succeeded. */
  lemma ReportMarksEachRecipient(fileName: string, results: seq<Outcome>)
    requires SingleLineInputs(fileName, results)
    ensures var lines := Split(ReportText(fileName, results), Newline);
      && |lines| == |results| + 1
      && lines[0] == Header(fileName)
      && forall i :: 0 <= i < |results| ==> |lines[i + 1]| > 0 && (lines[i + 1][0] == '✅' <==> results[i].success)
  {
    ReportTextSplits(fileName, results);
    forall i | 0 <= i < |results|
      ensures |StatusLine(results[i])| > 0 && (StatusLine(results[i])[0] == '✅' <==> results[i].success)
    {
      StatusLineShape(results[i]);
    }
  }
}
