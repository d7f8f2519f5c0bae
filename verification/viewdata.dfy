/** The GET /api/view-data handler: the non-blank rows with their total and pending counts. */
module ViewData {
  import opened Common
  import opened Rows
  import SendEmails

  /** `{ success: true, data, totalRows, pendingCount }`. */
  datatype Listing = Listing(data: seq<Row>, totalRows: nat, pendingCount: nat)

  /** The handler's JSON answer: the listing, or 500 with the read or parse error. */
  datatype ViewResponse = Listed(listing: Listing) | Crashed(error: string)

  /** GET /api/view-data over the result of reading `public/data.csv` and the CSV parser. */
  function Get(file: Result<string, string>, parse: Parser): (r: ViewResponse)
    ensures LoadRows(file, parse).Failure? ==> r == Crashed(LoadRows(file, parse).error)
    ensures LoadRows(file, parse).Ok? ==>
      var rows := LoadRows(file, parse).value;
      && r.Listed?
      && (forall row :: row in r.listing.data <==> row in rows && NonBlank(row))
      && r.listing.totalRows == |r.listing.data|
      && r.listing.pendingCount == |Filter(rows, IsPending)|
      && r.listing.pendingCount <= r.listing.totalRows
  {
    match LoadRows(file, parse)
    case Failure(e) => Crashed(e)
    case Ok(rows) =>
      var valid := ValidRows(rows);
      PendingOfValid(rows);
      FilterMembers(valid, IsPending);
      Listed(Listing(valid, |valid|, |PendingRows(valid)|))
  }

  /** The listing keeps file order: its rows are the very rows found at the non-blank
      positions of the file, and those positions strictly increase. */
  lemma {:induction false} ListingKeepsFileOrder(file: Result<string, string>, parse: Parser)
    requires LoadRows(file, parse).Ok?
    ensures var rows := LoadRows(file, parse).value;
      var ix := Positions(rows, NonBlank);
      && Get(file, parse).listing.data == Select(rows, ix)
      && (forall j, k :: 0 <= j < k < |ix| ==> ix[j] < ix[k])
      && (forall j :: 0 <= j < |ix| ==> ix[j] < |rows| && NonBlank(rows[ix[j]]))
  {
    SelectPositions(LoadRows(file, parse).value, NonBlank);
  }

  /** The pending count shown is the number of rows the next batch visits, whatever the name of
      that batch's history column. */
  lemma PendingCountIsBatchSize(file: Result<string, string>, parse: Parser, date: string, time: string)
    requires LoadRows(file, parse).Ok?
    ensures var column := SendEmails.HistoryColumn(date, time);
      var preset := SendEmails.Preset(ValidRows(LoadRows(file, parse).value), column);
      Get(file, parse).listing.pendingCount == |PendingRows(preset)|
  {
    var rows := LoadRows(file, parse).value;
    var column := SendEmails.HistoryColumn(date, time);
    var preset := SendEmails.Preset(ValidRows(rows), column);
    SendEmails.PendingCount(rows, column);
    assert |Select(preset, PendingIndices(preset))| == |PendingIndices(preset)|;
  }
}
