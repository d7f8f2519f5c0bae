/** The POST /api/send-emails handler: one mail per complete pending row, a new
    history column marking each attempt, and the whole table written back.
    The SMTP transport is a `Mailer` oracle, the clock supplies the date and
    time that name the history column, and the file system is a read result
    going in and the written text coming out. */
module SendEmails {
  import opened Common
  import opened Rows
  import opened Csv

  /** Marks written into the history column. */
  const Tick: string := "\U{2713}"
  const Cross: string := "\U{2717}"

  /** What is handed to the transport (the fixed letter body, which only interpolates
      the company, is represented by the addressee). */
  datatype Message = Message(from: string, to: string, subject: string, addressee: string)

  /** What the transport answers: accepted, or an error carrying its message. */
  datatype Delivery = Accepted | Rejected(message: string)

  /** The transport: its answer to the send made while visiting the j-th pending row may
      depend on j (the moment, the network) and on the message. Only complete rows consult it. */
  type Mailer = (nat, Message) -> Delivery

  /** What happened to one pending row: skipped for a missing field (with the three trimmed
      values as read), sent, or refused by the transport (with the address and its message). */
  datatype RowOutcome =
    | Skipped(company: Option<string>, email: Option<string>, role: Option<string>)
    | Sent
    | SendFailed(to: string, reason: string)

  /** `Sent ${dateStr} ${timeStr}`, from the clock's date and time texts. */
  function HistoryColumn(date: string, time: string): (column: string)
    ensures column != "Status" && column !in Originals
    ensures |column| >= 5 && column[..5] == "Sent "
  {
    assert ("Sent " + date + " " + time)[1] == 'e';
    "Sent " + date + " " + time
  }

  /** `row.K?.trim()`: undefined when the column is missing. */
  function Field(row: Row, key: string): Option<string> {
    if key in row then Some(Trim(row[key])) else None
  }

  /** The trimmed text of a cell, empty when the column is missing. */
  function Text(row: Row, key: string): string {
    if key in row then Trim(row[key]) else ""
  }

  /** The cell exists and holds something other than whitespace. */
  predicate HasText(row: Row, key: string) {
    key in row && !AllWhitespace(row[key])
  }

  /** A field passes the source's truthiness test exactly when the cell has text. */
  lemma HasTextIffTruthy(row: Row, key: string)
    ensures HasText(row, key) <==> Truthy(Field(row, key))
    ensures Truthy(Field(row, key)) ==> Field(row, key).value == Text(row, key)
  {
    if key in row {
      TrimEmptyIffBlank(row[key]);
    }
  }

  /** Company, contact e-mail and target role all have text. */
  predicate Complete(row: Row) {
    HasText(row, "Company") && HasText(row, "Contact Email") && HasText(row, "Target Role")
  }

  /** `!company || !to_email || !target_role` is exactly the incomplete case. */
  lemma CompleteIffFieldsTruthy(row: Row)
    ensures Complete(row) <==>
      Truthy(Field(row, "Company")) && Truthy(Field(row, "Contact Email")) && Truthy(Field(row, "Target Role"))
  {
    HasTextIffTruthy(row, "Company");
    HasTextIffTruthy(row, "Contact Email");
    HasTextIffTruthy(row, "Target Role");
  }

  /** The message for a row: from the configured sender, to its trimmed e-mail, subject naming
      its trimmed role. */
  function MessageFor(row: Row, from: string): (m: Message)
    ensures Complete(row) ==>
      && m.from == from
      && Some(m.to) == Field(row, "Contact Email") && m.to != ""
      && Some(m.addressee) == Field(row, "Company")
      && m.subject == "Application for " + Field(row, "Target Role").value
  {
    HasTextIffTruthy(row, "Contact Email");
    HasTextIffTruthy(row, "Company");
    HasTextIffTruthy(row, "Target Role");
    Message(from, Text(row, "Contact Email"), "Application for " + Text(row, "Target Role"), Text(row, "Company"))
  }

  /** The message builder for one sender. */
  function Letter(from: string): Row -> Message {
    row => MessageFor(row, from)
  }

  /** The error pushed for a skipped or refused row; a missing column shows as "undefined". */
  function ErrorText(o: RowOutcome): (e: string)
    requires !o.Sent?
    ensures o.Skipped? ==> "Skipping row - missing fields (Company: " <= e
    ensures o.SendFailed? ==> "Failed to send to " + o.to + ": " <= e
    ensures o.SendFailed? ==> |e| >= |o.reason| && e[|e| - |o.reason|..] == o.reason
  {
    match o
    case Skipped(company, email, role) =>
      "Skipping row - missing fields (Company: " + Show(company) + ", Email: " + Show(email)
        + ", Role: " + Show(role) + ")"
    case SendFailed(to, reason) => "Failed to send to " + to + ": " + reason
  }

  /** One iteration of the send loop for the j-th pending row. */
  function Attempt(row: Row, from: string, mailer: Mailer, j: nat): (o: RowOutcome)
    ensures o.Skipped? <==> !Complete(row)
    ensures o.Sent? <==> Complete(row) && mailer(j, MessageFor(row, from)).Accepted?
    ensures o.SendFailed? ==>
      Some(o.to) == Field(row, "Contact Email") && mailer(j, MessageFor(row, from)) == Rejected(o.reason)
  {
    if !Complete(row) then Skipped(Field(row, "Company"), Field(row, "Contact Email"), Field(row, "Target Role"))
    else
      match mailer(j, MessageFor(row, from))
      case Accepted => Sent
      case Rejected(msg) => SendFailed(Text(row, "Contact Email"), msg)
  }

  /** What one row hands to the transport: its message when it is complete, nothing otherwise. */
  function Handed(row: Row, from: string): seq<Message> {
    if Complete(row) then [MessageFor(row, from)] else []
  }

  /** The messages handed to the transport for the given pending rows: one per complete row,
      in row order; incomplete rows never reach it. */
  function Outbox(pending: seq<Row>, from: string): seq<Message> {
    MapSeq(Filter(pending, Complete), Letter(from))
  }

  /** The outcome of every pending row, visited in order. */
  function Outcomes(pending: seq<Row>, from: string, mailer: Mailer): (outs: seq<RowOutcome>)
    ensures |outs| == |pending|
  {
    if pending == [] then []
    else
      var n := |pending| - 1;
      Outcomes(pending[..n], from, mailer) + [Attempt(pending[n], from, mailer, n)]
  }

  /** Row j's outcome is its own attempt, made as the j-th visit. */
  lemma {:induction false} OutcomeAt(pending: seq<Row>, from: string, mailer: Mailer, j: nat)
    requires j < |pending|
    ensures Outcomes(pending, from, mailer)[j] == Attempt(pending[j], from, mailer, j)
    decreases |pending|
  {
    var n := |pending| - 1;
    if j < n {
      OutcomeAt(pending[..n], from, mailer, j);
    }
  }

  /** `results.sent`. */
  function SentCount(outs: seq<RowOutcome>): nat {
    if outs == [] then 0
    else SentCount(outs[..|outs| - 1]) + (if outs[|outs| - 1].Sent? then 1 else 0)
  }

  /** `results.failed`: skipped rows and refused sends alike. */
  function FailedCount(outs: seq<RowOutcome>): nat {
    if outs == [] then 0
    else FailedCount(outs[..|outs| - 1]) + (if outs[|outs| - 1].Sent? then 0 else 1)
  }

  /** `results.errors`, in the order the rows were visited. */
  function Errors(outs: seq<RowOutcome>): seq<string> {
    if outs == [] then []
    else Errors(outs[..|outs| - 1]) + (if outs[|outs| - 1].Sent? then [] else [ErrorText(outs[|outs| - 1])])
  }

  /** The history cell an outcome leaves: a tick, a cross, or the preset empty string. */
  function Mark(o: RowOutcome): (m: string)
    ensures m == "" <==> o.Skipped?
  {
    match o
    case Skipped(_, _, _) => ""
    case Sent => Tick
    case SendFailed(_, _) => Cross
  }

  /** Every row visited is counted once, as sent or as failed, and each failure leaves one error. */
  lemma {:induction false} BatchTotals(outs: seq<RowOutcome>)
    ensures SentCount(outs) + FailedCount(outs) == |outs|
    ensures |Errors(outs)| == FailedCount(outs)
  {
    if outs != [] {
      BatchTotals(outs[..|outs| - 1]);
    }
  }

  /** The messages handed over for a prefix of the rows are a prefix of those for all rows. */
  lemma OutboxPrefix(pending: seq<Row>, from: string, m: nat)
    requires m <= |pending|
    ensures var p := Outbox(pending[..m], from);
      |p| <= |Outbox(pending, from)| && Outbox(pending, from)[..|p|] == p
  {
    assert pending == pending[..m] + pending[m..];
    FilterAppend(pending[..m], pending[m..], Complete);
    MapSeqAppend(Filter(pending[..m], Complete), Filter(pending[m..], Complete), Letter(from));
  }

  /** A complete row's message is handed over after those of the complete rows before it:
      the transport sees the messages in row order. */
  lemma HandedInRowOrder(pending: seq<Row>, from: string, j: nat)
    requires j < |pending| && Complete(pending[j])
    ensures var k := |Outbox(pending[..j], from)|;
      k < |Outbox(pending, from)| && Outbox(pending, from)[k] == MessageFor(pending[j], from)
  {
    OutboxNext(pending, from, j);
    OutboxPrefix(pending, from, j + 1);
    var before := Outbox(pending[..j], from);
    var upto := Outbox(pending[..j + 1], from);
    assert upto == before + [MessageFor(pending[j], from)];
    assert Outbox(pending, from)[..|upto|] == upto;
    assert upto[|before|] == MessageFor(pending[j], from);
  }

  /** Visiting row j appends its message, if any, to those handed over before it. */
  lemma OutboxNext(pending: seq<Row>, from: string, j: nat)
    requires j < |pending|
    ensures Outbox(pending[..j + 1], from) == Outbox(pending[..j], from) + Handed(pending[j], from)
  {
    assert pending[..j + 1] == pending[..j] + [pending[j]];
    FilterSnoc(pending[..j], pending[j], Complete);
    if Complete(pending[j]) {
      MapSeqAppend(Filter(pending[..j], Complete), [pending[j]], Letter(from));
      assert MapSeq([pending[j]], Letter(from)) == [MessageFor(pending[j], from)];
    } else {
      assert Filter(pending[..j + 1], Complete) == Filter(pending[..j], Complete);
    }
  }

  /** How one more outcome moves the counters and the error list. */
  lemma TallyStep(done: seq<RowOutcome>, o: RowOutcome)
    ensures SentCount(done + [o]) == SentCount(done) + (if o.Sent? then 1 else 0)
    ensures FailedCount(done + [o]) == FailedCount(done) + (if o.Sent? then 0 else 1)
    ensures Errors(done + [o]) == Errors(done) + (if o.Sent? then [] else [ErrorText(o)])
  {
    assert (done + [o])[..|done|] == done;
  }

  /** The send loop's counters after visiting the first j rows of outcomes `outs`. */
  ghost predicate Tallied(outs: seq<RowOutcome>, j: nat, sent: nat, failed: nat, errors: seq<string>) {
    j <= |outs| && sent == SentCount(outs[..j]) && failed == FailedCount(outs[..j]) && errors == Errors(outs[..j])
  }

  /** Counting outcome j moves the counters on by that outcome. */
  lemma TallyNext(outs: seq<RowOutcome>, j: nat, sent: nat, failed: nat, errors: seq<string>, error: string)
    requires j < |outs| && Tallied(outs, j, sent, failed, errors)
    requires !outs[j].Sent? ==> error == ErrorText(outs[j])
    ensures outs[j].Sent? ==> Tallied(outs, j + 1, sent + 1, failed, errors)
    ensures !outs[j].Sent? ==> Tallied(outs, j + 1, sent, failed + 1, errors + [error])
  {
    assert outs[..j + 1] == outs[..j] + [outs[j]];
    TallyStep(outs[..j], outs[j]);
  }

  /** The row as the loop leaves it: marked unless it was skipped. */
  function MarkRow(row: Row, column: string, o: RowOutcome): Row
  {
    if o.Skipped? then row else row[column := Mark(o)]
  }

  /** The body of the send loop for one row: validate the three fields, then hand the
      message to the transport and mark the row by its answer. */
  method Visit(row: Row, column: string, from: string, mailer: Mailer, j: nat)
    returns (o: RowOutcome, marked: Row, message: Option<Message>, error: string)
    ensures o == Attempt(row, from, mailer, j)
    ensures !o.Sent? ==> error == ErrorText(o)
    ensures marked == MarkRow(row, column, o)
    ensures (if message.Some? then [message.value] else []) == Handed(row, from)
  {
    var company := Field(row, "Company");
    var email := Field(row, "Contact Email");
    var role := Field(row, "Target Role");
    CompleteIffFieldsTruthy(row);
    if !Truthy(company) || !Truthy(email) || !Truthy(role) {
      o := Skipped(company, email, role);
      return o, MarkRow(row, column, o), None, ErrorText(o);
    }
    HasTextIffTruthy(row, "Contact Email");
    var m := MessageFor(row, from);
    message := Some(m);
    match mailer(j, m) {
      case Accepted =>
        o, error := Sent, "";
      case Rejected(msg) =>
        o := SendFailed(email.value, msg);
        error := ErrorText(o);
    }
    marked := MarkRow(row, column, o);
  }

  /** Part way through writing `final[t]` at positions `pending[t]`: the first j are written,
      the rest of those positions and every other position still hold their original value. */
  ghost predicate WrittenUpTo<R>(cur: seq<R>, orig: seq<R>, pending: seq<nat>, final: seq<R>, j: nat)
    requires |final| == |pending| && j <= |pending|
    requires forall t :: 0 <= t < |pending| ==> pending[t] < |orig|
  {
    && |cur| == |orig|
    && (forall t :: 0 <= t < j ==> cur[pending[t]] == final[t])
    && (forall t :: j <= t < |pending| ==> cur[pending[t]] == orig[pending[t]])
    && (forall i :: 0 <= i < |cur| && i !in pending ==> cur[i] == orig[i])
  }

  /** Writing the next value keeps the picture: one more position is written. */
  lemma WriteNext<R>(cur: seq<R>, orig: seq<R>, pending: seq<nat>, final: seq<R>, j: nat)
    requires |final| == |pending| && j < |pending|
    requires forall t :: 0 <= t < |pending| ==> pending[t] < |orig|
    requires forall t, u :: 0 <= t < u < |pending| ==> pending[t] < pending[u]
    requires WrittenUpTo(cur, orig, pending, final, j)
    ensures WrittenUpTo(cur[pending[j] := final[j]], orig, pending, final, j + 1)
  {
    assert forall t :: 0 <= t < |pending| && t != j ==> pending[t] != pending[j];
  }

  /** A position whose final value is its original one needs no write. */
  lemma SkipNext<R>(cur: seq<R>, orig: seq<R>, pending: seq<nat>, final: seq<R>, j: nat)
    requires |final| == |pending| && j < |pending|
    requires forall t :: 0 <= t < |pending| ==> pending[t] < |orig|
    requires WrittenUpTo(cur, orig, pending, final, j) && final[j] == orig[pending[j]]
    ensures WrittenUpTo(cur, orig, pending, final, j + 1)
  {
  }

  /** The state of the send loop after visiting the first j pending rows: those rows are
      marked, every other row is as it was, and the counters, the errors and the messages
      handed over are those of the first j outcomes. */
  ghost predicate SendProgress(cur: seq<Row>, orig: seq<Row>, pending: seq<nat>, column: string, from: string, mailer: Mailer,
                         j: nat, sent: nat, failed: nat, errors: seq<string>, outbox: seq<Message>)
    requires forall t :: 0 <= t < |pending| ==> pending[t] < |orig|
  {
    var p := Select(orig, pending);
    var outs := Outcomes(p, from, mailer);
    && j <= |pending|
    && WrittenUpTo(cur, orig, pending, seq(|p|, t requires 0 <= t < |p| => MarkRow(p[t], column, outs[t])), j)
    && Tallied(outs, j, sent, failed, errors)
    && outbox == Outbox(p[..j], from)
  }

  /** One turn of the send loop: visit pending row j, count its outcome and mark it in place
      (a skipped row keeps its preset empty cell, so it is not written). */
  method SendRow(rows: array<Row>, pending: seq<nat>, column: string, from: string, mailer: Mailer, ghost orig: seq<Row>,
                 j: nat, sent: nat, failed: nat, errors: seq<string>, outbox: seq<Message>)
    returns (sent': nat, failed': nat, errors': seq<string>, outbox': seq<Message>)
    requires forall t :: 0 <= t < |pending| ==> pending[t] < |orig|
    requires forall t, u :: 0 <= t < u < |pending| ==> pending[t] < pending[u]
    requires j < |pending|
    requires SendProgress(rows[..], orig, pending, column, from, mailer, j, sent, failed, errors, outbox)
    modifies rows
    ensures SendProgress(rows[..], orig, pending, column, from, mailer, j + 1, sent', failed', errors', outbox')
  {
    ghost var p := Select(orig, pending);
    ghost var outs := Outcomes(p, from, mailer);
    ghost var final := seq(|p|, t requires 0 <= t < |p| => MarkRow(p[t], column, outs[t]));
    var i := pending[j];
    var row := rows[i];
    assert row == p[j];
    var o, marked, message, error := Visit(row, column, from, mailer, j);
    OutcomeAt(p, from, mailer, j);
    assert o == outs[j] && marked == final[j];
    TallyNext(outs, j, sent, failed, errors, error);
    OutboxNext(p, from, j);
    outbox' := outbox;
    if message.Some? {
      outbox' := outbox + [message.value];
    } else {
      assert outbox == outbox + [];
    }
    sent', failed', errors' := sent, failed, errors;
    if o.Sent? {
      sent' := sent + 1;
    } else {
      failed' := failed + 1;
      errors' := errors + [error];
    }
    ghost var before := rows[..];
    if !o.Skipped? {
      rows[i] := marked;
      assert rows[..] == before[i := final[j]];
      WriteNext(before, orig, pending, final, j);
    } else {
      SkipNext(before, orig, pending, final, j);
    }
  }

  /** The rows after the send loop over positions `pending` of `orig`: the row at the j-th
      of them marked by the j-th outcome, every other row as it was. */
  ghost predicate MarkedAt(cur: seq<Row>, orig: seq<Row>, pending: seq<nat>, column: string, from: string, mailer: Mailer)
    requires forall t :: 0 <= t < |pending| ==> pending[t] < |orig|
  {
    var p := Select(orig, pending);
    var outs := Outcomes(p, from, mailer);
    && |cur| == |orig|
    && (forall j :: 0 <= j < |pending| ==> cur[pending[j]] == MarkRow(p[j], column, outs[j]))
    && (forall i :: 0 <= i < |cur| && i !in pending ==> cur[i] == orig[i])
  }

  /** Once every outcome is counted, the counters are the batch's. */
  lemma TalliedAll(outs: seq<RowOutcome>, sent: nat, failed: nat, errors: seq<string>)
    requires Tallied(outs, |outs|, sent, failed, errors)
    ensures sent == SentCount(outs) && failed == FailedCount(outs) && errors == Errors(outs)
  {
    assert outs[..|outs|] == outs;
  }

  /** Once every position is written, each holds its final value and the rest are untouched. */
  lemma WrittenAll<R>(cur: seq<R>, orig: seq<R>, pending: seq<nat>, final: seq<R>)
    requires |final| == |pending|
    requires forall t :: 0 <= t < |pending| ==> pending[t] < |orig|
    requires WrittenUpTo(cur, orig, pending, final, |pending|)
    ensures |cur| == |orig|
    ensures forall t :: 0 <= t < |pending| ==> cur[pending[t]] == final[t]
    ensures forall i :: 0 <= i < |cur| && i !in pending ==> cur[i] == orig[i]
  {
  }

  /** After the last pending row, the loop state is the batch's outcome. */
  lemma SendProgressDone(cur: seq<Row>, orig: seq<Row>, pending: seq<nat>, column: string, from: string, mailer: Mailer,
                 sent: nat, failed: nat, errors: seq<string>, outbox: seq<Message>)
    requires forall t :: 0 <= t < |pending| ==> pending[t] < |orig|
    requires SendProgress(cur, orig, pending, column, from, mailer, |pending|, sent, failed, errors, outbox)
    ensures var p := Select(orig, pending);
      var outs := Outcomes(p, from, mailer);
      && sent == SentCount(outs) && failed == FailedCount(outs) && errors == Errors(outs)
      && outbox == Outbox(p, from)
      && MarkedAt(cur, orig, pending, column, from, mailer)
  {
    var p := Select(orig, pending);
    var outs := Outcomes(p, from, mailer);
    var final := seq(|p|, t requires 0 <= t < |p| => MarkRow(p[t], column, outs[t]));
    TalliedAll(outs, sent, failed, errors);
    WrittenAll(cur, orig, pending, final);
    assert p[..|pending|] == p;
  }

  /** The send loop over the pending rows, which are positions `pending` of the shared rows
      `rows`: each complete row is handed to the transport and its history cell marked, and
      nothing else in `rows` changes. */
  method SendAll(rows: array<Row>, pending: seq<nat>, column: string, from: string, mailer: Mailer)
    returns (sent: nat, failed: nat, errors: seq<string>, outbox: seq<Message>)
    requires forall j :: 0 <= j < |pending| ==> pending[j] < rows.Length
    requires forall j, k :: 0 <= j < k < |pending| ==> pending[j] < pending[k]
    modifies rows
    ensures var p := Select(old(rows[..]), pending);
      var outs := Outcomes(p, from, mailer);
      && sent == SentCount(outs) && failed == FailedCount(outs) && errors == Errors(outs)
      && outbox == Outbox(p, from)
      && MarkedAt(rows[..], old(rows[..]), pending, column, from, mailer)
  {
    ghost var orig := rows[..];
    sent, failed, errors, outbox := 0, 0, [], [];
    ghost var p := Select(orig, pending);
    ghost var outs := Outcomes(p, from, mailer);
    assert outs[..0] == [] && p[..0] == [];
    var j := 0;
    while j < |pending|
      invariant 0 <= j <= |pending|
      invariant SendProgress(rows[..], orig, pending, column, from, mailer, j, sent, failed, errors, outbox)
    {
      sent, failed, errors, outbox := SendRow(rows, pending, column, from, mailer, orig, j, sent, failed, errors, outbox);
      j := j + 1;
    }
    SendProgressDone(rows[..], orig, pending, column, from, mailer, sent, failed, errors, outbox);
  }

  /** `validRows.forEach(row => { row[newColumnName] = '' })`: every valid row gains the
      empty history cell. */
  function Preset(valid: seq<Row>, column: string): (p: seq<Row>)
    ensures |p| == |valid|
    ensures forall i :: 0 <= i < |p| ==> Blanked(p[i], valid[i], column)
  {
    seq(|valid|, i requires 0 <= i < |valid| => valid[i][column := ""])
  }

  /** The preset loop, in place on the shared row objects. */
  method PresetColumn(rows: array<Row>, column: string)
    modifies rows
    ensures rows[..] == Preset(old(rows[..]), column)
  {
    for i := 0 to rows.Length
      invariant rows[..i] == Preset(old(rows[..i]), column)
      invariant rows[i..] == old(rows[i..])
    {
      assert rows[i..][0] == rows[i];
      rows[i] := rows[i][column := ""];
    }
  }

  /** The preset touches only the history column, never Status, so the same rows are pending. */
  lemma PresetKeepsPending(valid: seq<Row>, column: string)
    requires column != "Status"
    ensures PendingIndices(Preset(valid, column)) == PendingIndices(valid)
  {
    var preset := Preset(valid, column);
    forall i | 0 <= i < |valid|
      ensures IsPending(preset[i]) == IsPending(valid[i])
    {
      assert preset[i] == valid[i][column := ""];
    }
    PositionsAgree(preset, IsPending, valid, IsPending);
  }

  /** `pendingRows.length` counts the rows of the file whose Status is Pending. */
  lemma PendingCount(rows: seq<Row>, column: string)
    requires column != "Status"
    ensures |PendingIndices(Preset(ValidRows(rows), column))| == |Filter(rows, IsPending)|
  {
    var valid := ValidRows(rows);
    PresetKeepsPending(valid, column);
    PendingOfValid(rows);
    assert |Select(valid, PendingIndices(valid))| == |PendingIndices(valid)|;
  }

  /** The table after the send loop: each pending row of the preset table marked by its
      outcome, every other row as preset. */
  ghost predicate Recorded(table: seq<Row>, preset: seq<Row>, column: string, from: string, mailer: Mailer) {
    MarkedAt(table, preset, PendingIndices(preset), column, from, mailer)
  }

  /** `after` has the history cell and otherwise exactly the cells of `before`. */
  ghost predicate RowKept(after: Row, before: Row, column: string) {
    && column in after
    && forall key :: key != column ==>
         (key in after <==> key in before) && (key in before ==> after[key] == before[key])
  }

  /** `after` is `before` with an empty history cell added or overwritten. */
  ghost predicate Blanked(after: Row, before: Row, column: string) {
    RowKept(after, before, column) && after[column] == ""
  }

  /** Marking a preset row writes the outcome's mark into the history cell and nothing else. */
  lemma MarkPresetRow(row: Row, column: string, o: RowOutcome)
    ensures var m := MarkRow(row[column := ""], column, o);
      RowKept(m, row, column) && m[column] == Mark(o)
  {
  }

  /** Row i after the send loop keeps the cells it had before the preset; its history cell is
      still the preset empty string unless it was one of the pending positions. */
  lemma MarkedRowKept(cur: seq<Row>, orig: seq<Row>, pending: seq<nat>, column: string, from: string, mailer: Mailer,
                      i: nat, before: Row)
    requires forall t :: 0 <= t < |pending| ==> pending[t] < |orig|
    requires MarkedAt(cur, orig, pending, column, from, mailer)
    requires i < |orig| && orig[i] == before[column := ""]
    ensures RowKept(cur[i], before, column)
    ensures i !in pending ==> cur[i][column] == ""
  {
    if i in pending {
      var p := Select(orig, pending);
      var outs := Outcomes(p, from, mailer);
      var k :| 0 <= k < |pending| && pending[k] == i;
      MarkPresetRow(before, column, outs[k]);
    } else {
      MarkPresetRow(before, column, Skipped(None, None, None));
    }
  }

  /** Every row after the send loop keeps its cells from before the preset; the history cell is
      the mark of the j-th outcome at the j-th pending position and empty everywhere else. */
  lemma MarkedCells(cur: seq<Row>, orig: seq<Row>, pending: seq<nat>, column: string, from: string, mailer: Mailer,
                    before: seq<Row>)
    requires forall t :: 0 <= t < |pending| ==> pending[t] < |orig|
    requires MarkedAt(cur, orig, pending, column, from, mailer)
    requires |before| == |orig| && forall i :: 0 <= i < |orig| ==> orig[i] == before[i][column := ""]
    ensures forall i :: 0 <= i < |cur| ==> RowKept(cur[i], before[i], column)
    ensures forall i :: 0 <= i < |cur| && i !in pending ==> Cell(cur[i], column) == ""
    ensures var outs := Outcomes(Select(orig, pending), from, mailer);
      forall j :: 0 <= j < |pending| ==> Cell(cur[pending[j]], column) == Mark(outs[j])
  {
    var outs := Outcomes(Select(orig, pending), from, mailer);
    forall i | 0 <= i < |cur|
      ensures RowKept(cur[i], before[i], column)
      ensures i !in pending ==> Cell(cur[i], column) == ""
    {
      MarkedRowKept(cur, orig, pending, column, from, mailer, i, before[i]);
    }
    forall j | 0 <= j < |pending|
      ensures Cell(cur[pending[j]], column) == Mark(outs[j])
    {
      MarkPresetRow(before[pending[j]], column, outs[j]);
    }
  }

  /** What the history run leaves in each row: the same cells as read (Status included), plus
      the history cell, which is empty for a row that is not pending and holds the mark of its
      outcome for the j-th pending row. */
  lemma RecordedCells(table: seq<Row>, valid: seq<Row>, column: string, from: string, mailer: Mailer)
    requires column != "Status"
    requires Recorded(table, Preset(valid, column), column, from, mailer)
    ensures |table| == |valid|
    ensures forall i :: 0 <= i < |table| ==> RowKept(table[i], valid[i], column)
    ensures forall i :: 0 <= i < |table| && !IsPending(valid[i]) ==> Cell(table[i], column) == ""
    ensures var ix := PendingIndices(valid);
      var outs := Outcomes(Select(Preset(valid, column), ix), from, mailer);
      forall j :: 0 <= j < |ix| ==> Cell(table[ix[j]], column) == Mark(outs[j])
  {
    var preset := Preset(valid, column);
    PresetKeepsPending(valid, column);
    var ix := PendingIndices(valid);
    assert forall i :: 0 <= i < |preset| ==> preset[i] == valid[i][column := ""];
    MarkedCells(table, preset, ix, column, from, mailer, valid);
  }

  /** The handler's JSON answer. */
  datatype SendResponse =
    /** 500, `Email credentials not configured`. */
    | CredentialsMissing
    /** 500, `{ success: false, error }`: reading or parsing the file failed. */
    | Crashed(error: string)
    /** `{ success: false, message: 'No rows with "Pending" status found', sent: 0, failed: 0 }`. */
    | NothingPending
    /** `{ success: true, message: "Processed <pending> pending emails", sent, failed, errors }`. */
    | Processed(pending: nat, sent: nat, failed: nat, errors: seq<string>)

  /** Both credentials are set and non-empty. */
  predicate HasCredentials(env: Env) {
    Truthy(Lookup(env, "EMAIL_ADDRESS")) && Truthy(Lookup(env, "EMAIL_APP_PASSWORD"))
  }

  /** The handler once the rows are read: preset the history column, send to the pending rows,
      write the table back. Nothing is sent or written when no row is pending. */
  method RunBatch(valid: seq<Row>, column: string, from: string, mailer: Mailer)
    returns (response: SendResponse, written: Option<string>, outbox: seq<Message>, ghost table: seq<Row>)
    ensures var preset := Preset(valid, column);
      var pending := PendingRows(preset);
      var outs := Outcomes(pending, from, mailer);
      if pending == [] then
        response == NothingPending && written == None && outbox == []
      else
        && response == Processed(|pending|, SentCount(outs), FailedCount(outs), Errors(outs))
        && outbox == Outbox(pending, from)
        && Recorded(table, preset, column, from, mailer)
        && written == Some(SerializeAsWritten(Header(KeysOf(table) + {column}), table))
        && (PlainNames(KeysOf(table) + {column}) ==>
              ReadDocument(StripBom(written.value)) == Table(Header(KeysOf(table) + {column}), table))
  {
    table := [];
    var rows := new Row[|valid|](i requires 0 <= i < |valid| => valid[i]);
    assert rows[..] == valid;
    PresetColumn(rows, column);
    var pending := PendingIndices(rows[..]);
    if |pending| == 0 {
      return NothingPending, None, [], [];
    }
    var sent, failed, errors;
    sent, failed, errors, outbox := SendAll(rows, pending, column, from, mailer);
    var final := rows[..];
    table := final;
    var text := WriteTable(final, {column});
    written := Some(text);
    response := Processed(|pending|, sent, failed, errors);
  }

  /** POST /api/send-emails. The file is the result of reading `public/data.csv`, `parse` the
      CSV parser, `date` and `time` the clock's texts naming the history column, `mailer` the
      transport. Returns the answer, the text written back (if any), the messages handed to the
      transport in order, and (ghost) the table that was written. */
  method Post(env: Env, file: Result<string, string>, parse: Parser, date: string, time: string, mailer: Mailer)
    returns (response: SendResponse, written: Option<string>, outbox: seq<Message>, ghost table: seq<Row>)
    ensures response == CredentialsMissing <==> !HasCredentials(env)
    ensures !HasCredentials(env) ==> written == None && outbox == []
    ensures HasCredentials(env) && LoadRows(file, parse).Failure? ==>
      response == Crashed(LoadRows(file, parse).error) && written == None && outbox == []
    ensures HasCredentials(env) && LoadRows(file, parse).Ok? ==>
      var from := env["EMAIL_ADDRESS"];
      var column := HistoryColumn(date, time);
      var preset := Preset(ValidRows(LoadRows(file, parse).value), column);
      var pending := PendingRows(preset);
      var outs := Outcomes(pending, from, mailer);
      if pending == [] then
        response == NothingPending && written == None && outbox == []
      else
        && response == Processed(|pending|, SentCount(outs), FailedCount(outs), Errors(outs))
        && outbox == Outbox(pending, from)
        && Recorded(table, preset, column, from, mailer)
        && written == Some(SerializeAsWritten(Header(KeysOf(table) + {column}), table))
        && (PlainNames(KeysOf(table) + {column}) ==>
              ReadDocument(StripBom(written.value)) == Table(Header(KeysOf(table) + {column}), table))
  {
    table := [];
    var address := Lookup(env, "EMAIL_ADDRESS");
    var password := Lookup(env, "EMAIL_APP_PASSWORD");
    if !Truthy(address) || !Truthy(password) {
      return CredentialsMissing, None, [], [];
    }
    var loaded := LoadRows(file, parse);
    if loaded.Failure? {
      return Crashed(loaded.error), None, [], [];
    }
    var valid := ValidRows(loaded.value);
    var column := HistoryColumn(date, time);
    response, written, outbox, table := RunBatch(valid, column, address.value, mailer);
  }
}
