/** Writing the row table back as CSV text: the column order, the cell
    quoting of RFC 4180 (section 2, rules 6 and 7), the line join and the
    byte-order mark. A reference reader for the same format states what the
    written text means: reading it gives back the table. */
module Csv {
  import opened Rows

  /** The columns that always come first, in this order, when present. */
  const Originals: seq<string> := ["Company", "Contact Email", "Target Role", "Status"]

  // ---------------------------------------------------------------------
  // Column order
  // ---------------------------------------------------------------------

  /** JavaScript's default string order (`Array.prototype.sort()` with no comparator), strict. */
  predicate Before(a: string, b: string) {
    |b| > 0 && (|a| == 0 || a[0] < b[0] || (a[0] == b[0] && Before(a[1..], b[1..])))
  }

  lemma {:induction false} BeforeIrreflexive(a: string)
    ensures !Before(a, a)
  {
    if |a| > 0 {
      BeforeIrreflexive(a[1..]);
    }
  }

  lemma {:induction false} BeforeTransitive(a: string, b: string, c: string)
    requires Before(a, b) && Before(b, c)
    ensures Before(a, c)
  {
    if |a| > 0 && a[0] == b[0] && b[0] == c[0] {
      BeforeTransitive(a[1..], b[1..], c[1..]);
    }
  }

  lemma {:induction false} BeforeTotal(a: string, b: string)
    ensures a == b || Before(a, b) || Before(b, a)
  {
    if |a| > 0 && |b| > 0 && a[0] == b[0] {
      BeforeTotal(a[1..], b[1..]);
      if a[1..] == b[1..] {
        assert a == [a[0]] + a[1..] && b == [b[0]] + b[1..];
      }
    }
  }

  lemma BeforeAsymmetric(a: string, b: string)
    requires Before(a, b)
    ensures !Before(b, a)
  {
    if Before(b, a) {
      BeforeTransitive(a, b, a);
      BeforeIrreflexive(a);
    }
  }

  predicate IsLeast(m: string, names: set<string>) {
    m in names && forall y :: y in names ==> y == m || Before(m, y)
  }

  lemma {:induction false} LeastExists(names: set<string>)
    requires names != {}
    ensures exists m :: IsLeast(m, names)
    decreases names
  {
    var x :| x in names;
    if names != {x} {
      LeastExists(names - {x});
      var m :| IsLeast(m, names - {x});
      BeforeTotal(x, m);
      if Before(x, m) {
        forall y | y in names
          ensures y == x || Before(x, y)
        {
          if y != x && y != m {
            BeforeTransitive(x, m, y);
          }
        }
        assert IsLeast(x, names);
      } else {
        assert IsLeast(m, names);
      }
    } else {
      assert IsLeast(x, names);
    }
  }

  lemma LeastUnique(names: set<string>)
    ensures forall m, n :: IsLeast(m, names) && IsLeast(n, names) ==> m == n
  {
    forall m, n | IsLeast(m, names) && IsLeast(n, names)
      ensures m == n
    {
      if m != n {
        BeforeAsymmetric(m, n);
      }
    }
  }

  predicate StrictlySorted(s: seq<string>) {
    forall i, j :: 0 <= i < j < |s| ==> Before(s[i], s[j])
  }

  /** `Array.from(names).sort()`: every name once, in ascending order. */
  function SortNames(names: set<string>): (r: seq<string>)
    ensures StrictlySorted(r)
    ensures forall x :: x in r <==> x in names
    ensures |r| == |names|
    decreases names
  {
    if names == {} then []
    else
      LeastExists(names);
      LeastUnique(names);
      var m :| IsLeast(m, names);
      var rest := SortNames(names - {m});
      assert forall j :: 0 <= j < |rest| ==> Before(m, rest[j]);
      [m] + rest
  }

  /** Position of an original column in the fixed order. */
  function Rank(c: string): int {
    if c == "Company" then 0
    else if c == "Contact Email" then 1
    else if c == "Target Role" then 2
    else 3
  }

  predicate Distinct(s: seq<string>) {
    forall i, j :: 0 <= i < j < |s| ==> s[i] != s[j]
  }

  /** The fixed order ranks the originals strictly. */
  lemma OriginalsRanked()
    ensures Ascending(Originals, Rank)
  {
    assert Rank(Originals[0]) == 0 && Rank(Originals[1]) == 1 && Rank(Originals[2]) == 2 && Rank(Originals[3]) == 3;
  }

  /** `originalColumns.filter(col => allFieldnames.has(col))`: the originals present, in the fixed order. */
  function PresentOriginals(names: set<string>): (r: seq<string>)
    ensures forall x :: x in r <==> x in names && x in Originals
    ensures Ascending(r, Rank)
  {
    OriginalsRanked();
    FilterKeepsOrder(Originals, c => c in names, Rank);
    FilterMembers(Originals, c => c in names);
    Filter(Originals, c => c in names)
  }

  /** The written header: the originals present, in their fixed order, then every other
      column name in ascending order (send-emails and update-status build it alike). */
  function Header(names: set<string>): (r: seq<string>)
    ensures forall x :: x in r <==> x in names
    ensures Distinct(r)
    ensures forall i, j :: 0 <= i < j < |r| && r[j] in Originals ==>
              r[i] in Originals && Rank(r[i]) < Rank(r[j])
    ensures forall i, j :: 0 <= i < j < |r| && r[i] !in Originals ==>
              r[j] !in Originals && Before(r[i], r[j])
  {
    var present := PresentOriginals(names);
    var others := SortNames(set c | c in names && c !in Originals);
    HeaderFacts(present, others);
    present + others
  }

  lemma HeaderFacts(present: seq<string>, others: seq<string>)
    requires Ascending(present, Rank)
    requires forall x :: x in present ==> x in Originals
    requires forall x :: x in others ==> x !in Originals
    requires StrictlySorted(others)
    ensures var r := present + others;
      && Distinct(r)
      && (forall i, j :: 0 <= i < j < |r| && r[j] in Originals ==> r[i] in Originals && Rank(r[i]) < Rank(r[j]))
      && (forall i, j :: 0 <= i < j < |r| && r[i] !in Originals ==> r[j] !in Originals && Before(r[i], r[j]))
  {
    var r := present + others;
    forall i, j | 0 <= i < j < |r| ensures r[i] != r[j] {
      if j < |present| {
      } else if i < |present| {
        assert r[i] in present && r[j] in others;
      } else {
        BeforeIrreflexive(r[i]);
      }
    }
    forall i, j | 0 <= i < j < |r| && r[j] in Originals
      ensures r[i] in Originals && Rank(r[i]) < Rank(r[j])
    {
      assert r[j] !in others;
      assert j < |present| && r[i] == present[i] && r[j] == present[j];
    }
    forall i, j | 0 <= i < j < |r| && r[i] !in Originals
      ensures r[j] !in Originals && Before(r[i], r[j])
    {
      assert i >= |present|;
      assert r[i] == others[i - |present|] && r[j] == others[j - |present|];
    }
  }

  /** Every column name some row has. */
  function KeysOf(rows: seq<Row>): set<string> {
    if rows == [] then {} else KeysOf(rows[..|rows| - 1]) + rows[|rows| - 1].Keys
  }

  /** A name is collected exactly when some row has it as a column. */
  lemma {:induction false} KeysOfHasEveryColumn(rows: seq<Row>)
    ensures forall k :: k in KeysOf(rows) <==> exists i :: 0 <= i < |rows| && k in rows[i]
  {
    if rows != [] {
      var n := |rows| - 1;
      KeysOfHasEveryColumn(rows[..n]);
      assert forall i :: 0 <= i < n ==> rows[..n][i] == rows[i];
    }
  }

  /** Collecting one more row adds its columns. */
  lemma KeysOfNext(rows: seq<Row>, i: nat)
    requires i < |rows|
    ensures KeysOf(rows[..i + 1]) == KeysOf(rows[..i]) + rows[i].Keys
  {
    assert rows[..i + 1][..i] == rows[..i];
  }

  /** `items.forEach(x => acc.add(x))`: adds the items one at a time. */
  method AddEach<T>(acc: set<T>, items: set<T>) returns (r: set<T>)
    ensures r == acc + items
  {
    r := acc;
    var todo := items;
    while todo != {}
      invariant todo <= items && r == acc + (items - todo)
      decreases |todo|
    {
      var x :| x in todo;
      r := r + {x};
      todo := todo - {x};
    }
  }

  /** `allFieldnames`: the set the write-back fills with every key of every row. */
  method CollectFieldNames(rows: seq<Row>) returns (names: set<string>)
    ensures names == KeysOf(rows)
  {
    names := {};
    for i := 0 to |rows|
      invariant names == KeysOf(rows[..i])
    {
      KeysOfNext(rows, i);
      names := AddEach(names, rows[i].Keys);
    }
    assert rows[..|rows|] == rows;
  }



  // ---------------------------------------------------------------------
  // Cells and lines
  // ---------------------------------------------------------------------

  /** `row[field] || ''`: a missing cell is written as the empty string. */
  function Cell(row: Row, field: string): string {
    if field in row then row[field] else ""
  }

  predicate NeedsQuotes(v: string) {
    ',' in v || '"' in v || '\n' in v
  }

  /** `value.replace(/"/g, '""')`. */
  function DoubleQuotes(v: string): (r: string)
    ensures ',' in r <==> ',' in v
    ensures '\n' in r <==> '\n' in v
  {
    if v == [] then [] else (if v[0] == '"' then "\"\"" else [v[0]]) + DoubleQuotes(v[1..])
  }

  /** The cell-escaping map: quote the value, doubling its quotes, when it holds a comma,
      a quote or a line feed; otherwise write it as it is. */
  function Escape(v: string): (r: string)
    ensures !NeedsQuotes(v) ==> r == v
    ensures NeedsQuotes(v) ==> |r| >= 2 && r[0] == '"' && r[|r| - 1] == '"'
  {
    if NeedsQuotes(v) then "\"" + DoubleQuotes(v) + "\"" else v
  }

  /** `parts.join(sep)`. */
  function Join(parts: seq<string>, sep: char): string {
    if |parts| == 0 then ""
    else if |parts| == 1 then parts[0]
    else parts[0] + [sep] + Join(parts[1..], sep)
  }

  /** One escaped line: `cells.map(escape).join(',')`. */
  function FormatRecord(cells: seq<string>): string {
    Join(seq(|cells|, i requires 0 <= i < |cells| => Escape(cells[i])), ',')
  }

  /** The cells a row contributes, one per header column. */
  function RowCells(row: Row, fieldnames: seq<string>): (r: seq<string>)
    ensures |r| == |fieldnames|
    ensures forall j :: 0 <= j < |r| ==> r[j] == Cell(row, fieldnames[j])
  {
    seq(|fieldnames|, j requires 0 <= j < |fieldnames| => Cell(row, fieldnames[j]))
  }

  /** The table the file is meant to hold: the header, then one line of cells per row. */
  function Table(fieldnames: seq<string>, rows: seq<Row>): (t: seq<seq<string>>)
    ensures |t| == |rows| + 1 && t[0] == fieldnames
    ensures forall i :: 0 <= i < |rows| ==> t[i + 1] == RowCells(rows[i], fieldnames)
  {
    [fieldnames] + seq(|rows|, i requires 0 <= i < |rows| => RowCells(rows[i], fieldnames))
  }

  /** No name needs quoting, so a header joined raw is the same as one escaped. */
  predicate PlainNames(names: set<string>) {
    forall c :: c in names ==> !NeedsQuotes(c)
  }

  /** A line of cells none of which needs quotes is the cells joined with commas. */
  lemma PlainRecord(cells: seq<string>)
    requires forall j :: 0 <= j < |cells| ==> !NeedsQuotes(cells[j])
    ensures FormatRecord(cells) == Join(cells, ',')
  {
    assert seq(|cells|, i requires 0 <= i < |cells| => Escape(cells[i])) == cells;
  }

  /** With no header name needing quotes, the lines as the source builds them are the lines of
      the escaped table. */
  lemma PlainHeaderLines(fieldnames: seq<string>, rows: seq<Row>)
    requires forall j :: 0 <= j < |fieldnames| ==> !NeedsQuotes(fieldnames[j])
    ensures var t := Table(fieldnames, rows);
      [Join(fieldnames, ',')] + seq(|rows|, i requires 0 <= i < |rows| => FormatRecord(RowCells(rows[i], fieldnames)))
      == seq(|t|, i requires 0 <= i < |t| => FormatRecord(t[i]))
  {
    PlainRecord(fieldnames);
  }

  /** The text written back, as the source builds it: the header joined with commas and NOT
      escaped, then one escaped line per row, joined with line feeds, after one BOM. When no
      header name needs quotes, it is the escaped serialisation. */
  function SerializeAsWritten(fieldnames: seq<string>, rows: seq<Row>): (text: string)
    ensures (forall j :: 0 <= j < |fieldnames| ==> !NeedsQuotes(fieldnames[j])) ==>
      text == Serialize(fieldnames, rows)
  {
    var lines := [Join(fieldnames, ',')]
      + seq(|rows|, i requires 0 <= i < |rows| => FormatRecord(RowCells(rows[i], fieldnames)));
    if forall j :: 0 <= j < |fieldnames| ==> !NeedsQuotes(fieldnames[j]) then
      PlainHeaderLines(fieldnames, rows);
      [Bom] + Join(lines, '\n')
    else
      [Bom] + Join(lines, '\n')
  }

  /** The text written back with the header escaped like every other line: whenever the header
      names a column, the text without its BOM reads back as the header and every row's cells. */
  function Serialize(fieldnames: seq<string>, rows: seq<Row>): (text: string)
    ensures |fieldnames| >= 1 ==> ReadDocument(StripBom(text)) == Table(fieldnames, rows)
  {
    if |fieldnames| >= 1 then
      TableReadsBack(fieldnames, rows);
      [Bom] + TableText(Table(fieldnames, rows))
    else
      [Bom] + TableText(Table(fieldnames, rows))
  }

  /** Every line of a table escaped and the lines joined with line feeds. */
  function TableText(t: seq<seq<string>>): string {
    Join(seq(|t|, i requires 0 <= i < |t| => FormatRecord(t[i])), '\n')
  }

  // ---------------------------------------------------------------------
  // A reference reader for the written format (RFC 4180, section 2)
  // ---------------------------------------------------------------------

  predicate EndsField(s: string) {
    s == [] || s[0] == ',' || s[0] == '\n'
  }

  /** Text of an unquoted field: everything up to the next comma or line feed. */
  function TakeUnquoted(s: string): (r: (string, string))
    ensures r.0 + r.1 == s && EndsField(r.1)
  {
    if EndsField(s) then ([], s)
    else
      var p := TakeUnquoted(s[1..]);
      ([s[0]] + p.0, p.1)
  }

  /** Text of a quoted field after its opening quote: `""` stands for `"`, a lone `"` closes it. */
  function TakeQuoted(s: string): (r: (string, string))
    ensures |r.1| <= |s|
  {
    if s == [] then ([], [])
    else if s[0] == '"' then
      if |s| > 1 && s[1] == '"' then
        var p := TakeQuoted(s[2..]);
        (['"'] + p.0, p.1)
      else ([], s[1..])
    else
      var p := TakeQuoted(s[1..]);
      ([s[0]] + p.0, p.1)
  }

  /** One field and the text after it, which is empty or starts with a comma or a line feed. */
  function ReadField(s: string): (r: (string, string))
    ensures |r.1| <= |s| && EndsField(r.1)
  {
    if |s| > 0 && s[0] == '"' then
      var q := TakeQuoted(s[1..]);
      var u := TakeUnquoted(q.1);
      (q.0 + u.0, u.1)
    else
      TakeUnquoted(s)
  }

  /** One record and the text after it, which is empty or starts with a line feed. */
  function ReadRecord(s: string): (r: (seq<string>, string))
    ensures |r.0| >= 1 && |r.1| <= |s|
    ensures r.1 == [] || r.1[0] == '\n'
    decreases |s|
  {
    var f := ReadField(s);
    if f.1 != [] && f.1[0] == ',' then
      var rest := ReadRecord(f.1[1..]);
      ([f.0] + rest.0, rest.1)
    else
      ([f.0], f.1)
  }

  /** Every record of a document. */
  function ReadDocument(s: string): (t: seq<seq<string>>)
    ensures |t| >= 1
    decreases |s|
  {
    var r := ReadRecord(s);
    if r.1 == [] then [r.0] else [r.0] + ReadDocument(r.1[1..])
  }

  // ---------------------------------------------------------------------
  // What the escaping guarantees
  // ---------------------------------------------------------------------

  lemma {:induction false} UnquotedRoundTrip(v: string, tail: string)
    requires ',' !in v && '\n' !in v && EndsField(tail)
    ensures TakeUnquoted(v + tail) == (v, tail)
  {
    if v != [] {
      assert v[0] in v;
      assert (v + tail)[0] == v[0] && (v + tail)[1..] == v[1..] + tail;
      UnquotedRoundTrip(v[1..], tail);
      assert [v[0]] + v[1..] == v;
    } else {
      assert v + tail == tail;
    }
  }

  lemma {:induction false} QuotedRoundTrip(v: string, tail: string)
    requires EndsField(tail)
    ensures TakeQuoted(DoubleQuotes(v) + "\"" + tail) == (v, tail)
  {
    var s := DoubleQuotes(v) + "\"" + tail;
    if v == [] {
      assert s == "\"" + tail;
      assert s[1..] == tail;
    } else if v[0] == '"' {
      assert s == "\"\"" + (DoubleQuotes(v[1..]) + "\"" + tail);
      QuotedRoundTrip(v[1..], tail);
      assert v == ['"'] + v[1..];
    } else {
      assert s == [v[0]] + (DoubleQuotes(v[1..]) + "\"" + tail);
      QuotedRoundTrip(v[1..], tail);
      assert v == [v[0]] + v[1..];
    }
  }

  /** Reading an escaped cell gives back the value and stops right where the cell ends. */
  lemma FieldRoundTrip(v: string, tail: string)
    requires EndsField(tail)
    ensures ReadField(Escape(v) + tail) == (v, tail)
  {
    if NeedsQuotes(v) {
      QuotedFieldRoundTrip(v, tail);
    } else {
      UnquotedRoundTrip(v, tail);
      if v != [] {
        assert v[0] in v;
        assert (v + tail)[0] == v[0];
      } else {
        assert v + tail == tail;
      }
    }
  }

  lemma QuotedFieldRoundTrip(v: string, tail: string)
    requires EndsField(tail) && NeedsQuotes(v)
    ensures ReadField(Escape(v) + tail) == (v, tail)
  {
    var inner := DoubleQuotes(v) + "\"" + tail;
    assert Escape(v) + tail == ['"'] + inner;
    QuotedRoundTrip(v, tail);
    ReadQuotedField(inner, v, tail);
  }

  lemma ReadQuotedField(inner: string, v: string, tail: string)
    requires EndsField(tail) && TakeQuoted(inner) == (v, tail)
    ensures ReadField(['"'] + inner) == (v, tail)
  {
    var s := ['"'] + inner;
    assert s[1..] == inner;
    assert TakeUnquoted(tail) == ([], tail);
    assert v + [] == v;
  }

  /** A line of two or more cells is the first escaped cell, a comma and the rest of the line. */
  lemma FormatRecordCons(cells: seq<string>)
    requires |cells| >= 2
    ensures FormatRecord(cells) == Escape(cells[0]) + [','] + FormatRecord(cells[1..])
  {
    var escaped := seq(|cells|, i requires 0 <= i < |cells| => Escape(cells[i]));
    var rest := cells[1..];
    assert escaped[1..] == seq(|rest|, i requires 0 <= i < |rest| => Escape(rest[i]));
  }

  /** A field followed by a comma continues the record with the text after the comma. */
  lemma ReadRecordCons(s: string, v: string, after: string)
    requires ReadField(s) == (v, [','] + after)
    ensures ReadRecord(s) == ([v] + ReadRecord(after).0, ReadRecord(after).1)
  {
    assert ([','] + after)[1..] == after;
  }

  /** A one-cell line reads back as that cell. */
  lemma RecordSingle(cells: seq<string>, tail: string)
    requires |cells| == 1
    requires tail == [] || tail[0] == '\n'
    ensures ReadRecord(FormatRecord(cells) + tail) == (cells, tail)
  {
    var escaped := seq(|cells|, i requires 0 <= i < |cells| => Escape(cells[i]));
    assert FormatRecord(cells) == Escape(cells[0]);
    FieldRoundTrip(cells[0], tail);
    assert cells == [cells[0]];
  }

  /** Reading a line of two or more cells reads the first cell, then the rest of the line. */
  lemma RecordStep(cells: seq<string>, tail: string)
    requires |cells| >= 2
    ensures var after := FormatRecord(cells[1..]) + tail;
      ReadRecord(FormatRecord(cells) + tail) == ([cells[0]] + ReadRecord(after).0, ReadRecord(after).1)
  {
    var after := FormatRecord(cells[1..]) + tail;
    FormatRecordCons(cells);
    assert FormatRecord(cells) + tail == Escape(cells[0]) + ([','] + after);
    FieldRoundTrip(cells[0], [','] + after);
    ReadRecordCons(FormatRecord(cells) + tail, cells[0], after);
  }

  /** Reading a formatted line gives back its cells: no comma or line feed inside a value splits it. */
  lemma {:induction false} RecordRoundTrip(cells: seq<string>, tail: string)
    requires |cells| >= 1
    requires tail == [] || tail[0] == '\n'
    ensures ReadRecord(FormatRecord(cells) + tail) == (cells, tail)
  {
    if |cells| == 1 {
      RecordSingle(cells, tail);
    } else {
      RecordStep(cells, tail);
      RecordRoundTrip(cells[1..], tail);
      assert cells == [cells[0]] + cells[1..];
    }
  }

  /** Two or more lines joined by line feeds are the first line, a line feed and the rest. */
  lemma JoinLinesCons(t: seq<seq<string>>)
    requires |t| >= 2
    ensures var lines := seq(|t|, i requires 0 <= i < |t| => FormatRecord(t[i]));
      var rest := t[1..];
      Join(lines, '\n') ==
        FormatRecord(t[0]) + ['\n'] + Join(seq(|rest|, i requires 0 <= i < |rest| => FormatRecord(rest[i])), '\n')
  {
    var lines := seq(|t|, i requires 0 <= i < |t| => FormatRecord(t[i]));
    var rest := t[1..];
    assert lines[1..] == seq(|rest|, i requires 0 <= i < |rest| => FormatRecord(rest[i]));
  }

  /** A record followed by a line feed continues the document with the text after it. */
  lemma ReadDocumentCons(s: string, cells: seq<string>, after: string)
    requires ReadRecord(s) == (cells, ['\n'] + after)
    ensures ReadDocument(s) == [cells] + ReadDocument(after)
  {
    assert (['\n'] + after)[1..] == after;
  }

  /** Reading lines joined with line feeds gives back every line's cells. */
  lemma {:induction false} DocumentRoundTrip(t: seq<seq<string>>)
    requires |t| >= 1
    requires forall i :: 0 <= i < |t| ==> |t[i]| >= 1
    ensures ReadDocument(Join(seq(|t|, i requires 0 <= i < |t| => FormatRecord(t[i])), '\n')) == t
  {
    var lines := seq(|t|, i requires 0 <= i < |t| => FormatRecord(t[i]));
    if |t| == 1 {
      assert Join(lines, '\n') == FormatRecord(t[0]) + [];
      RecordRoundTrip(t[0], []);
    } else {
      var rest := t[1..];
      var after := Join(seq(|rest|, i requires 0 <= i < |rest| => FormatRecord(rest[i])), '\n');
      JoinLinesCons(t);
      assert Join(lines, '\n') == FormatRecord(t[0]) + (['\n'] + after);
      RecordRoundTrip(t[0], ['\n'] + after);
      ReadDocumentCons(Join(lines, '\n'), t[0], after);
      DocumentRoundTrip(rest);
      assert t == [t[0]] + rest;
    }
  }

  /** The escaped table after one BOM, once the BOM is stripped, reads back as the header and
      every row's cells. */
  lemma TableReadsBack(fieldnames: seq<string>, rows: seq<Row>)
    requires |fieldnames| >= 1
    ensures ReadDocument(StripBom([Bom] + TableText(Table(fieldnames, rows)))) == Table(fieldnames, rows)
  {
    var t := Table(fieldnames, rows);
    StripPrependedBom(TableText(t));
    DocumentRoundTrip(t);
  }

  /** The write-back both updating routes share: collect every column name any row has, add
      `extra`, order them as the header, and serialise the rows under it with the header joined
      raw. Whenever some column is named and no name needs quotes, the written file reads back
      as the table of those rows under that header. */
  method WriteTable(rows: seq<Row>, extra: set<string>) returns (text: string)
    ensures text == SerializeAsWritten(Header(KeysOf(rows) + extra), rows)
    ensures KeysOf(rows) + extra != {} && PlainNames(KeysOf(rows) + extra) ==>
      ReadDocument(StripBom(text)) == Table(Header(KeysOf(rows) + extra), rows)
  {
    var names := CollectFieldNames(rows);
    names := names + extra;
    var header := Header(names);
    text := SerializeAsWritten(header, rows);
    if names != {} && PlainNames(names) {
      PlainHeader(names);
      assert text == Serialize(header, rows);
    }
  }

  /** The header of a non-empty set of plain names names a column and needs no quotes. */
  lemma PlainHeader(names: set<string>)
    requires names != {} && PlainNames(names)
    ensures |Header(names)| >= 1
    ensures forall j :: 0 <= j < |Header(names)| ==> !NeedsQuotes(Header(names)[j])
  {
    var name :| name in names;
    assert name in Header(names);
  }

  /** A line of two plain fields separated by one comma reads as those two fields. */
  lemma {:induction false} TwoPlainFields(a: string, b: string)
    requires ',' !in a && '\n' !in a && ',' !in b && '\n' !in b
    requires a != [] && a[0] != '"' && (b == [] || b[0] != '"')
    ensures ReadDocument(a + [','] + b) == [[a, b]]
  {
    var s := a + [','] + b;
    assert s == a + ([','] + b);
    UnquotedRoundTrip(a, [','] + b);
    assert s[0] == a[0];
    assert ReadField(s) == (a, [','] + b);
    assert ([','] + b)[1..] == b;
    UnquotedRoundTrip(b, []);
    assert b + [] == b;
    if b != [] {
      assert ReadField(b) == (b, []);
    }
    assert ReadRecord(b) == ([b], []);
    var f := ReadField(s);
    assert f.1 != [] && f.1[0] == ',' && f.1[1..] == b;
    assert ReadRecord(s) == ([a] + [b], []);
    assert [a] + [b] == [a, b];
    assert ReadDocument(s) == [[a, b]];
  }

  /** As written, a column name holding a comma reads back as two columns. */
  lemma HeaderCommaSplits()
    ensures ReadDocument(StripBom(SerializeAsWritten(["Notes, extra"], []))) == [["Notes", " extra"]]
  {
    var text := "Notes" + [','] + " extra";
    assert text == "Notes, extra";
    assert Join(["Notes, extra"], ',') == text;
    var noRows := seq(0, i requires 0 <= i < 0 => FormatRecord(RowCells(map[], ["Notes, extra"])));
    assert [Join(["Notes, extra"], ',')] + noRows == [text];
    assert SerializeAsWritten(["Notes, extra"], []) == [Bom] + text;
    StripPrependedBom(text);
    TwoPlainFields("Notes", " extra");
  }
}
