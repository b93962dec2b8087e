/** `send_to_kindle`: one SMTP session, one send per recipient in list order,
    per-recipient failures recorded and never fatal, success iff some send went through.
    The session and each send are oracle inputs. */
module Delivery {
  import opened Wrappers

  /** One `(email, ok, err)` triple of the results list. */
  datatype Outcome = Outcome(email: string, success: bool, error: Option<string>)

  /** Why `send_to_kindle` raises instead of returning its list. */
  datatype SendError =
    | FileUnreadable       // `open(file_path, 'rb')` failed before any connection
    | ConnectFailed        // `smtplib.SMTP`, `starttls` or `login` raised
    | AllRecipientsFailed  // "Failed to send to all recipients"

  /** The triple recorded for one recipient, given what its send did:
      `None` when `send_message` returned, `Some(msg)` when building or sending raised `msg`. */
  function OutcomeOf(email: string, attempt: Option<string>): (o: Outcome)
    ensures o.email == email
    ensures o.success <==> attempt.None?
    ensures !o.success ==> o.error == attempt
    ensures o.success ==> o.error == None
  {
    match attempt
    case None => Outcome(email, true, None)
    case Some(msg) => Outcome(email, false, Some(msg))
  }

  /** The `results` list after the loop has run over `recipients`: one triple appended per recipient. */
  function RecordSends(recipients: seq<string>, attempts: seq<Option<string>>): (rs: seq<Outcome>)
    requires |attempts| == |recipients|
    ensures |rs| == |recipients|
    ensures forall i :: 0 <= i < |rs| ==>
      rs[i].email == recipients[i] && (rs[i].success <==> attempts[i].None?) && rs[i].error == attempts[i]
    decreases |recipients|
  {
    if |recipients| == 0 then []
    else
      var n := |recipients| - 1;
      RecordSends(recipients[..n], attempts[..n]) + [OutcomeOf(recipients[n], attempts[n])]
  }

  /** `any(success for _, success, _ in results)`. */
  predicate AnySucceeded(rs: seq<Outcome>) {
    exists i :: 0 <= i < |rs| && rs[i].success
  }

  /** Some oracle send went through. */
  predicate SomeSendSucceeds(attempts: seq<Option<string>>) {
    exists i :: 0 <= i < |attempts| && attempts[i].None?
  }

  /** `send_to_kindle(file_path, kindle_emails)` over a file set, a session oracle and per-recipient send oracles. */
  function SendToKindle(files: set<string>, filePath: string, recipients: seq<string>,
                        connectOk: bool, attempts: seq<Option<string>>): (r: Result<seq<Outcome>, SendError>)
    requires |attempts| == |recipients|
    ensures r.Success? <==> filePath in files && connectOk && SomeSendSucceeds(attempts)
    ensures filePath !in files ==> r == Failure(FileUnreadable)
    ensures filePath in files && !connectOk ==> r == Failure(ConnectFailed)
    ensures filePath in files && connectOk && !SomeSendSucceeds(attempts) ==> r == Failure(AllRecipientsFailed)
    ensures r.Success? ==> r.value == RecordSends(recipients, attempts) && AnySucceeded(r.value)
    ensures r.Success? ==> forall i :: 0 <= i < |recipients| ==>
      r.value[i] == Outcome(recipients[i], attempts[i].None?, attempts[i])
  {
    if filePath !in files then Failure(FileUnreadable)
    else if !connectOk then Failure(ConnectFailed)
    else
      var results := RecordSends(recipients, attempts);
      assert AnySucceeded(results) <==> SomeSendSucceeds(attempts) by {
        if SomeSendSucceeds(attempts) {
          var i :| 0 <= i < |attempts| && attempts[i].None?;
          assert results[i].success;
        }
      }
      if AnySucceeded(results) then Success(results)
      else Failure(AllRecipientsFailed)
  }

  /** The loop of `send_to_kindle` as written: a `for` over the recipients appending one triple each. */
  method SendToKindleLoop(files: set<string>, filePath: string, recipients: seq<string>,
                          connectOk: bool, attempts: seq<Option<string>>) returns (r: Result<seq<Outcome>, SendError>)
    requires |attempts| == |recipients|
    ensures r == SendToKindle(files, filePath, recipients, connectOk, attempts)
  {
    if filePath !in files {
      return Failure(FileUnreadable);
    }
    if !connectOk {
      return Failure(ConnectFailed);
    }
    var results: seq<Outcome> := [];
    var anySent := false;
    var i := 0;
    while i < |recipients|
      invariant 0 <= i <= |recipients|
      invariant results == RecordSends(recipients[..i], attempts[..i])
      invariant anySent <==> AnySucceeded(results)
    {
      var outcome := OutcomeOf(recipients[i], attempts[i]);
      results := results + [outcome];
      anySent := anySent || outcome.success;
      assert recipients[..i + 1][..i] == recipients[..i];
      assert attempts[..i + 1][..i] == attempts[..i];
      i := i + 1;
    }
    assert recipients[..i] == recipients && attempts[..i] == attempts;
    if anySent {
      r := Success(results);
    } else {
      r := Failure(AllRecipientsFailed);
    }
  }

  /** What one recipient's send does never changes another recipient's triple. */
  lemma {:induction false} RecipientsIndependent(recipients: seq<string>, attempts: seq<Option<string>>,
                                                 j: nat, other: Option<string>)
    requires |attempts| == |recipients| && j < |recipients|
    ensures var before := RecordSends(recipients, attempts);
      var after := RecordSends(recipients, attempts[j := other]);
      forall i :: 0 <= i < |recipients| && i != j ==> after[i] == before[i]
  {
  }

  /** A failure in the middle does not stop the loop: `[A, B, C]` with B refused gives `[ok A, fail B, ok C]`. */
  lemma MiddleFailureDoesNotAbort(files: set<string>, path: string)
    requires path in files
    ensures SendToKindle(files, path, ["A", "B", "C"], true, [None, Some("refused"), None])
      == Success([Outcome("A", true, None), Outcome("B", false, Some("refused")), Outcome("C", true, None)])
  {
    var attempts: seq<Option<string>> := [None, Some("refused"), None];
    assert attempts[0].None?;
    var r := SendToKindle(files, path, ["A", "B", "C"], true, attempts);
    var expected := [Outcome("A", true, None), Outcome("B", false, Some("refused")), Outcome("C", true, None)];
    assert |r.value| == |expected|;
    assert SomeSendSucceeds(attempts);
    assert r.Success?;
    assert forall i :: 0 <= i < 3 ==> r.value[i] == expected[i];
    assert r.value == expected;
    assert r == Success(expected);
  }

  /** With no recipients nothing can succeed, so the call raises. */
  lemma NoRecipientsRaises(files: set<string>, path: string, connectOk: bool)
    ensures SendToKindle(files, path, [], connectOk, []).Failure?
  {
  }

  /** A failed connection raises before any recipient is recorded, whatever the sends would have done. */
  lemma ConnectFailureIgnoresRecipients(files: set<string>, path: string, recipients: seq<string>,
                                        attempts: seq<Option<string>>, attempts': seq<Option<string>>)
    requires |attempts| == |recipients| && |attempts'| == |recipients|
    requires path in files
    ensures SendToKindle(files, path, recipients, false, attempts)
         == SendToKindle(files, path, recipients, false, attempts')
         == Failure(ConnectFailed)
  {
  }
}
