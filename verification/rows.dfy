/** Parsed CSV rows as the three file-backed routes see them: the BOM strip
    before parsing, JavaScript's `trim`, the filter that drops blank rows and
    the "Pending" test on the Status column. */
module Rows {
  import opened Common

  /** One parsed record: column name to cell text (csv-parse with `columns: true`). */
  type Row = map<string, string>

  /** The CSV parser, which is not part of this model: text in, rows or an error message out. */
  type Parser = string -> Result<seq<Row>, string>

  const Bom: char := '\U{FEFF}'

  /** The characters JavaScript's String.prototype.trim removes: WhiteSpace and LineTerminator. */
  predicate IsWhitespace(c: char) {
    c in {'\t', '\n', '\U{000B}', '\U{000C}', '\r', ' ', '\U{00A0}', '\U{1680}',
          '\U{2000}', '\U{2001}', '\U{2002}', '\U{2003}', '\U{2004}', '\U{2005}',
          '\U{2006}', '\U{2007}', '\U{2008}', '\U{2009}', '\U{200A}',
          '\U{2028}', '\U{2029}', '\U{202F}', '\U{205F}', '\U{3000}', '\U{FEFF}'}
  }

  predicate AllWhitespace(s: string) {
    forall i :: 0 <= i < |s| ==> IsWhitespace(s[i])
  }

  /** Drops leading whitespace. */
  function TrimStart(s: string): string {
    if |s| > 0 && IsWhitespace(s[0]) then TrimStart(s[1..]) else s
  }

  /** Drops trailing whitespace. */
  function TrimEnd(s: string): string {
    if |s| > 0 && IsWhitespace(s[|s| - 1]) then TrimEnd(s[..|s| - 1]) else s
  }

  /** `s.trim()`. */
  function Trim(s: string): (r: string)
    ensures |r| <= |s|
    ensures r == [] || (!IsWhitespace(r[0]) && !IsWhitespace(r[|r| - 1]))
  {
    TrimStartShape(s);
    TrimEndShape(TrimStart(s));
    TrimEnd(TrimStart(s))
  }

  /** What `TrimStart` drops is whitespace, and what it keeps is a suffix that starts with none. */
  lemma {:induction false} TrimStartShape(s: string)
    ensures var r := TrimStart(s);
      |r| <= |s| && r == s[|s| - |r|..] && AllWhitespace(s[..|s| - |r|]) && (r == [] || !IsWhitespace(r[0]))
  {
    if |s| > 0 && IsWhitespace(s[0]) {
      TrimStartShape(s[1..]);
      var r := TrimStart(s[1..]);
      assert s[1..][|s| - 1 - |r|..] == s[|s| - |r|..];
      assert s[..|s| - |r|] == [s[0]] + s[1..][..|s| - 1 - |r|];
    } else {
      assert s[..0] == [];
    }
  }

  /** What `TrimEnd` drops is whitespace, and what it keeps is a prefix that ends with none. */
  lemma {:induction false} TrimEndShape(s: string)
    ensures var r := TrimEnd(s);
      |r| <= |s| && r == s[..|r|] && AllWhitespace(s[|r|..]) && (r == [] || !IsWhitespace(r[|r| - 1]))
  {
    if |s| > 0 && IsWhitespace(s[|s| - 1]) {
      var n := |s| - 1;
      TrimEndShape(s[..n]);
      var r := TrimEnd(s[..n]);
      assert s[..n][..|r|] == s[..|r|];
      assert s[|r|..] == s[..n][|r|..] + [s[n]];
    }
  }

  /** `trim` empties exactly the all-whitespace strings. */
  lemma TrimEmptyIffBlank(s: string)
    ensures Trim(s) == [] <==> AllWhitespace(s)
  {
    TrimStartShape(s);
    var t := TrimStart(s);
    TrimEndShape(t);
    if Trim(s) == [] {
      assert AllWhitespace(t[0..]);
      assert t == [];
      assert s[..|s| - |t|] == s;
    }
  }

  /** Keeps the elements `keep` accepts, in order (Array.prototype.filter). */
  function Filter<T>(s: seq<T>, keep: T -> bool): seq<T> {
    if s == [] then [] else (if keep(s[0]) then [s[0]] else []) + Filter(s[1..], keep)
  }

  /** Filtering keeps exactly the accepted elements and never lengthens. */
  lemma {:induction false} FilterMembers<T(!new)>(s: seq<T>, keep: T -> bool)
    ensures |Filter(s, keep)| <= |s|
    ensures forall x :: x in Filter(s, keep) <==> x in s && keep(x)
  {
    if s != [] {
      FilterMembers(s[1..], keep);
      assert s == [s[0]] + s[1..];
    }
  }

  /** Filtering distributes over concatenation: the kept elements stay in their original order. */
  lemma {:induction false} FilterAppend<T>(a: seq<T>, b: seq<T>, keep: T -> bool)
    ensures Filter(a + b, keep) == Filter(a, keep) + Filter(b, keep)
  {
    if a == [] {
      assert a + b == b;
    } else {
      var head := if keep(a[0]) then [a[0]] else [];
      assert (a + b)[0] == a[0] && (a + b)[1..] == a[1..] + b;
      assert Filter(a + b, keep) == head + Filter(a[1..] + b, keep);
      assert Filter(a, keep) == head + Filter(a[1..], keep);
      FilterAppend(a[1..], b, keep);
    }
  }

  /** `rank` strictly increases along `s`. */
  predicate Ascending<T>(s: seq<T>, rank: T -> int) {
    forall i, j :: 0 <= i < j < |s| ==> rank(s[i]) < rank(s[j])
  }

  /** In an ascending sequence the head ranks below every later element. */
  lemma HeadBelow<T(!new)>(s: seq<T>, rank: T -> int)
    requires s != [] && Ascending(s, rank)
    ensures forall x :: x in s[1..] ==> rank(s[0]) < rank(x)
  {
    forall x | x in s[1..] ensures rank(s[0]) < rank(x) {
      var k :| 0 <= k < |s[1..]| && s[1..][k] == x;
      assert s[k + 1] == x;
    }
  }

  /** An element ranked below every element of an ascending sequence can lead it. */
  lemma ConsAscending<T>(h: T, rest: seq<T>, rank: T -> int)
    requires Ascending(rest, rank)
    requires forall x :: x in rest ==> rank(h) < rank(x)
    ensures Ascending([h] + rest, rank)
  {
    var r := [h] + rest;
    forall i, j | 0 <= i < j < |r| ensures rank(r[i]) < rank(r[j]) {
      assert r[j] == rest[j - 1] && rest[j - 1] in rest;
      if i > 0 {
        assert r[i] == rest[i - 1];
      }
    }
  }

  /** Filtering keeps the relative order of the kept elements: a measure that strictly
      increases along the input strictly increases along the output. */
  lemma {:induction false} FilterKeepsOrder<T(!new)>(s: seq<T>, keep: T -> bool, rank: T -> int)
    requires Ascending(s, rank)
    ensures Ascending(Filter(s, keep), rank)
  {
    if s != [] {
      var rest := Filter(s[1..], keep);
      assert Ascending(s[1..], rank);
      FilterKeepsOrder(s[1..], keep, rank);
      if keep(s[0]) {
        FilterMembers(s[1..], keep);
        HeadBelow(s, rank);
        ConsAscending(s[0], rest, rank);
        assert Filter(s, keep) == [s[0]] + rest;
      } else {
        assert Filter(s, keep) == rest;
      }
    }
  }

  /** Filtering a sequence extended by one element. */
  lemma FilterSnoc<T>(s: seq<T>, x: T, keep: T -> bool)
    ensures Filter(s + [x], keep) == Filter(s, keep) + (if keep(x) then [x] else [])
  {
    FilterAppend(s, [x], keep);
    assert [x][1..] == [];
  }

  /** Applies `f` to every element, in order (Array.prototype.map). */
  function MapSeq<T, U>(s: seq<T>, f: T -> U): seq<U> {
    seq(|s|, i requires 0 <= i < |s| => f(s[i]))
  }

  /** Mapping distributes over concatenation. */
  lemma MapSeqAppend<T, U>(a: seq<T>, b: seq<T>, f: T -> U)
    ensures MapSeq(a + b, f) == MapSeq(a, f) + MapSeq(b, f)
  {
  }

  /** Filtering with a stronger test after a weaker one is filtering with the stronger one. */
  lemma {:induction false} FilterNarrows<T>(s: seq<T>, weak: T -> bool, strong: T -> bool)
    requires forall x :: strong(x) ==> weak(x)
    ensures Filter(Filter(s, weak), strong) == Filter(s, strong)
  {
    if s != [] {
      FilterNarrows(s[1..], weak, strong);
      var head := if weak(s[0]) then [s[0]] else [];
      assert Filter(s, weak) == head + Filter(s[1..], weak);
      FilterAppend(head, Filter(s[1..], weak), strong);
      if weak(s[0]) {
        assert Filter(head, strong) == (if strong(s[0]) then [s[0]] else []) + Filter([], strong);
      }
    }
  }

  /** A row survives the blank-row filter when some cell is non-empty after trimming. */
  predicate NonBlank(row: Row) {
    exists k :: k in row && Trim(row[k]) != []
  }

  /** `row.Status?.trim() === 'Pending'`: a missing Status never matches. */
  predicate IsPending(row: Row) {
    "Status" in row && Trim(row["Status"]) == "Pending"
  }

  /** A pending row is never blank, so the blank filter never hides one. */
  lemma PendingIsNonBlank(row: Row)
    ensures IsPending(row) ==> NonBlank(row)
  {
    if IsPending(row) {
      assert Trim(row["Status"]) != [];
    }
  }

  /** `rows.filter(row => Object.values(row).some(val => val && val.toString().trim()))`. */
  function ValidRows(rows: seq<Row>): (r: seq<Row>)
    ensures forall row :: row in r <==> row in rows && NonBlank(row)
  {
    FilterMembers(rows, NonBlank);
    Filter(rows, NonBlank)
  }

  /** `validRows.filter(row => row.Status?.trim() === 'Pending')`. */
  function PendingRows(valid: seq<Row>): (r: seq<Row>)
    ensures forall row :: row in r <==> row in valid && IsPending(row)
  {
    FilterMembers(valid, IsPending);
    Filter(valid, IsPending)
  }

  /** Counting pending rows after the blank filter is counting them in the raw rows. */
  lemma PendingOfValid(rows: seq<Row>)
    ensures PendingRows(ValidRows(rows)) == Filter(rows, IsPending)
  {
    forall row ensures IsPending(row) ==> NonBlank(row) {
      PendingIsNonBlank(row);
    }
    FilterNarrows(rows, NonBlank, IsPending);
  }

  /** Positions of the elements `keep` accepts, in increasing order. */
  function Positions<T>(s: seq<T>, keep: T -> bool): (ix: seq<nat>)
    ensures forall j :: 0 <= j < |ix| ==> ix[j] < |s| && keep(s[ix[j]])
    ensures forall j, k :: 0 <= j < k < |ix| ==> ix[j] < ix[k]
    ensures forall i :: 0 <= i < |s| && keep(s[i]) ==> i in ix
  {
    if s == [] then []
    else
      var n := |s| - 1;
      assert forall i :: 0 <= i < n ==> s[..n][i] == s[i];
      Positions(s[..n], keep) + (if keep(s[n]) then [n] else [])
  }

  /** The elements at the given positions. */
  function Select<T>(s: seq<T>, ix: seq<nat>): seq<T>
    requires forall j :: 0 <= j < |ix| ==> ix[j] < |s|
  {
    seq(|ix|, j requires 0 <= j < |ix| => s[ix[j]])
  }

  /** Selecting at concatenated positions concatenates the selections. */
  lemma SelectAppend<T>(s: seq<T>, a: seq<nat>, b: seq<nat>)
    requires forall j :: 0 <= j < |a| ==> a[j] < |s|
    requires forall j :: 0 <= j < |b| ==> b[j] < |s|
    ensures Select(s, a + b) == Select(s, a) + Select(s, b)
  {
  }

  /** Positions inside a prefix select the same elements from the prefix. */
  lemma SelectInPrefix<T>(s: seq<T>, n: nat, ix: seq<nat>)
    requires n <= |s|
    requires forall j :: 0 <= j < |ix| ==> ix[j] < n
    ensures Select(s, ix) == Select(s[..n], ix)
  {
  }

  /** The elements at the accepted positions are exactly the filtered elements, in order. */
  lemma {:induction false} SelectPositions<T>(s: seq<T>, keep: T -> bool)
    ensures Select(s, Positions(s, keep)) == Filter(s, keep)
  {
    if s != [] {
      var n := |s| - 1;
      assert s == s[..n] + [s[n]];
      FilterSnoc(s[..n], s[n], keep);
      var prefix := Positions(s[..n], keep);
      var tail: seq<nat> := if keep(s[n]) then [n] else [];
      SelectPositions(s[..n], keep);
      SelectInPrefix(s, n, prefix);
      SelectAppend(s, prefix, tail);
      assert Select(s, tail) == (if keep(s[n]) then [s[n]] else []);
    }
  }

  /** The positions found in a prefix are a prefix of the positions found in the whole. */
  lemma {:induction false} PositionsPrefix<T>(s: seq<T>, keep: T -> bool, m: nat)
    requires m <= |s|
    ensures var p := Positions(s[..m], keep);
      |p| <= |Positions(s, keep)| && Positions(s, keep)[..|p|] == p
    decreases |s|
  {
    if m < |s| {
      var n := |s| - 1;
      PositionsPrefix(s[..n], keep, m);
      assert s[..n][..m] == s[..m];
    } else {
      assert s[..m] == s;
    }
  }

  /** An accepted element at position i is the k-th accepted one, k counting those before it. */
  lemma PositionRank<T>(s: seq<T>, keep: T -> bool, i: nat)
    requires i < |s| && keep(s[i])
    ensures var k := |Positions(s[..i], keep)|;
      k < |Positions(s, keep)| && Positions(s, keep)[k] == i
  {
    assert s[..i + 1][..i] == s[..i];
    PositionsPrefix(s, keep, i + 1);
  }

  /** Two sequences accepted at the same positions have the same positions. */
  lemma {:induction false} PositionsAgree<T, U>(s: seq<T>, keepS: T -> bool, t: seq<U>, keepT: U -> bool)
    requires |s| == |t|
    requires forall i :: 0 <= i < |s| ==> keepS(s[i]) == keepT(t[i])
    ensures Positions(s, keepS) == Positions(t, keepT)
  {
    if s != [] {
      var n := |s| - 1;
      assert forall i :: 0 <= i < n ==> s[..n][i] == s[i] && t[..n][i] == t[i];
      PositionsAgree(s[..n], keepS, t[..n], keepT);
    }
  }

  /** Positions of the pending rows: the row objects `pendingRows` shares with `validRows`. */
  function PendingIndices(rows: seq<Row>): (ix: seq<nat>)
    ensures forall j :: 0 <= j < |ix| ==> ix[j] < |rows| && IsPending(rows[ix[j]])
    ensures forall j, k :: 0 <= j < k < |ix| ==> ix[j] < ix[k]
    ensures Select(rows, ix) == PendingRows(rows)
  {
    SelectPositions(rows, IsPending);
    Positions(rows, IsPending)
  }

  /** `csvContent.charCodeAt(0) === 0xfeff ? csvContent.slice(1) : csvContent`. */
  function StripBom(s: string): (r: string)
    ensures r == s || s == [Bom] + r
    ensures r == s ==> s == [] || s[0] != Bom
  {
    if |s| > 0 && s[0] == Bom then s[1..] else s
  }

  /** Exactly one BOM is removed: text written with one BOM in front reads back as itself. */
  lemma StripPrependedBom(s: string)
    ensures StripBom([Bom] + s) == s
  {
  }

  /** Read the file, strip one BOM, parse: either failure surfaces as its message. The parser
      sees the file's text less one leading BOM, or the whole text when it starts with none. */
  function LoadRows(file: Result<string, string>, parse: Parser): (r: Result<seq<Row>, string>)
    ensures file.Failure? ==> r == Failure(file.error)
    ensures file.Ok? ==> exists text ::
      && r == parse(text)
      && (file.value == [Bom] + text || (text == file.value && (text == [] || text[0] != Bom)))
  {
    match file
    case Failure(e) => Failure(e)
    case Ok(text) => parse(StripBom(text))
  }
}
