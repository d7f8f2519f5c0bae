/** The POST /api/update-status handler: set the Status of one non-blank row, picked by its
    position among the non-blank rows, and write the table back. The request body and the file
    are read results going in; the written text comes out. */
module UpdateStatus {
  import opened Common
  import opened Rows
  import opened Csv

  /** The JSON body: `rowIndex` may be absent, `newStatus` absent or a string. */
  datatype Request = Request(rowIndex: Option<int>, newStatus: Option<string>)

  /** The handler's JSON answer. */
  datatype UpdateResponse =
    /** 400 with the given error. */
    | BadRequest(error: string)
    /** 500, `{ success: false, error }`: the body, the file or the parse failed. */
    | Crashed(error: string)
    /** `{ success: true, message: 'Status updated successfully' }`. */
    | Updated

  const MissingFields: string := "Missing rowIndex or newStatus"
  const InvalidIndex: string := "Invalid row index"

  /** `rowIndex === undefined || !newStatus`: a request that passes carries an index and a
      non-empty status. */
  predicate Missing(req: Request)
    ensures !Missing(req) ==> req.rowIndex.Some? && req.newStatus.Some? && req.newStatus.value != ""
    ensures req.newStatus == Some("") ==> Missing(req)
  {
    req.rowIndex.None? || !Truthy(req.newStatus)
  }

  /** The table with the Status of row i set: in the source, the shared row object is updated.
      Exactly one cell changes: row i's Status, created if the row had none; every other row
      and every other cell of row i keep their values, and the row is pending exactly when the
      new status trims to `Pending`. */
  function WithStatus(valid: seq<Row>, i: nat, status: string): (t: seq<Row>)
    requires i < |valid|
    ensures |t| == |valid|
    ensures forall j :: 0 <= j < |t| && j != i ==> t[j] == valid[j]
    ensures "Status" in t[i] && t[i]["Status"] == status
    ensures forall key :: key != "Status" ==>
      (key in t[i] <==> key in valid[i]) && (key in valid[i] ==> t[i][key] == valid[i][key])
    ensures IsPending(t[i]) <==> Trim(status) == "Pending"
  {
    valid[i := valid[i]["Status" := status]]
  }

  /** `validRows[rowIndex].Status = newStatus`, in place. */
  method SetStatus(rows: array<Row>, i: nat, status: string)
    requires i < rows.Length
    modifies rows
    ensures rows[..] == WithStatus(old(rows[..]), i, status)
  {
    rows[i] := rows[i]["Status" := status];
  }

  /** The updated table names at least the Status column, so its header is never empty. */
  lemma UpdatedHasColumns(valid: seq<Row>, i: nat, status: string)
    requires i < |valid|
    ensures "Status" in KeysOf(WithStatus(valid, i, status))
  {
    var t := WithStatus(valid, i, status);
    KeysOfHasEveryColumn(t);
    assert "Status" in t[i];
  }

  /** The handler once the rows are read: check the index against the non-blank rows, set the
      status and write the table back. */
  method Apply(valid: seq<Row>, index: int, status: string)
    returns (response: UpdateResponse, written: Option<string>, ghost table: seq<Row>)
    ensures written.Some? <==> response == Updated
    ensures index < 0 || index >= |valid| ==> response == BadRequest(InvalidIndex)
    ensures 0 <= index < |valid| ==>
      && response == Updated
      && table == WithStatus(valid, index, status)
      && written == Some(SerializeAsWritten(Header(KeysOf(table)), table))
      && (PlainNames(KeysOf(table)) ==>
            ReadDocument(StripBom(written.value)) == Table(Header(KeysOf(table)), table))
  {
    table := [];
    if index < 0 || index >= |valid| {
      return BadRequest(InvalidIndex), None, [];
    }
    var rows := new Row[|valid|](i requires 0 <= i < |valid| => valid[i]);
    assert rows[..] == valid;
    SetStatus(rows, index, status);
    var updated := rows[..];
    table := updated;
    UpdatedHasColumns(valid, index, status);
    assert KeysOf(updated) + {} == KeysOf(updated);
    var text := WriteTable(updated, {});
    written := Some(text);
    response := Updated;
  }

  /** POST /api/update-status. `request` is the parsed JSON body, `file` the result of reading
      `public/data.csv`, `parse` the CSV parser. Returns the answer, the text written back (if
      any) and (ghost) the table that was written. */
  method Post(request: Result<Request, string>, file: Result<string, string>, parse: Parser)
    returns (response: UpdateResponse, written: Option<string>, ghost table: seq<Row>)
    ensures written.Some? <==> response == Updated
    ensures request.Failure? ==> response == Crashed(request.error)
    ensures request.Ok? && Missing(request.value) ==> response == BadRequest(MissingFields)
    ensures request.Ok? && !Missing(request.value) && LoadRows(file, parse).Failure? ==>
      response == Crashed(LoadRows(file, parse).error)
    ensures request.Ok? && !Missing(request.value) && LoadRows(file, parse).Ok? ==>
      var valid := ValidRows(LoadRows(file, parse).value);
      var index := request.value.rowIndex.value;
      if index < 0 || index >= |valid| then
        response == BadRequest(InvalidIndex)
      else
        && response == Updated
        && table == WithStatus(valid, index, request.value.newStatus.value)
        && written == Some(SerializeAsWritten(Header(KeysOf(table)), table))
        && (PlainNames(KeysOf(table)) ==>
              ReadDocument(StripBom(written.value)) == Table(Header(KeysOf(table)), table))
  {
    table := [];
    if request.Failure? {
      return Crashed(request.error), None, [];
    }
    var req := request.value;
    if req.rowIndex.None? || !Truthy(req.newStatus) {
      return BadRequest(MissingFields), None, [];
    }
    var loaded := LoadRows(file, parse);
    if loaded.Failure? {
      return Crashed(loaded.error), None, [];
    }
    var valid := ValidRows(loaded.value);
    response, written, table := Apply(valid, req.rowIndex.value, req.newStatus.value);
  }
}
