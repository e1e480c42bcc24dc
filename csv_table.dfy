/** The table builder, CsvParser.ConvertCsv: the first CR LF-separated line gives the headers, every
    further line one row mapping each kept header to its trimmed cell. */
module CsvTable {
  import opened Errors
  import opened Text
  import opened CsvLine

  /** One data line: column name to trimmed cell text. */
  type Row = map<string, string>

  /** A header starting with the ignore-column marker "$" is left out of every row. */
  predicate Kept(header: string) {
    !StartsWith(header, "$")
  }

  /** The keys of every row built under these headers. */
  function Columns(headers: seq<string>): set<string> {
    set j | 0 <= j < |headers| && Kept(headers[j]) :: headers[j]
  }

  /** No two kept headers coincide; otherwise Dictionary.Add throws on the second one. */
  predicate DistinctColumns(headers: seq<string>) {
    forall i, j :: 0 <= i < j < |headers| && Kept(headers[i]) && Kept(headers[j]) ==> headers[i] != headers[j]
  }

  /** The cell of column `j`: the trimmed token, or "" when the line ran short. */
  function CellAt(values: seq<string>, j: nat): string {
    if j < |values| then Trim(values[j]) else ""
  }

  /** The row a line's tokens make under the headers, filled column by column from the left. */
  function RowOf(headers: seq<string>, values: seq<string>): Row
    decreases |headers|
  {
    if headers == [] then map[]
    else
      var j := |headers| - 1;
      var row := RowOf(headers[..j], values);
      if Kept(headers[j]) then row[headers[j] := CellAt(values, j)] else row
  }

  lemma DistinctPrefix(headers: seq<string>, n: nat)
    requires n <= |headers| && DistinctColumns(headers)
    ensures DistinctColumns(headers[..n])
  {
    var p := headers[..n];
    forall a, b | 0 <= a < b < |p| && Kept(p[a]) && Kept(p[b]) ensures p[a] != p[b] {
      assert p[a] == headers[a] && p[b] == headers[b];
    }
  }

  lemma ColumnsLast(headers: seq<string>)
    requires headers != []
    ensures Columns(headers) == Columns(headers[..|headers| - 1]) +
      (if Kept(headers[|headers| - 1]) then {headers[|headers| - 1]} else {})
  {
    var n := |headers| - 1;
    var short := headers[..n];
    forall h | h in Columns(headers) ensures h in Columns(short) || (Kept(headers[n]) && h == headers[n]) {
      var k :| 0 <= k < |headers| && Kept(headers[k]) && headers[k] == h;
      if k < n { assert short[k] == h; }
    }
    forall h | h in Columns(short) ensures h in Columns(headers) {
      var k :| 0 <= k < n && Kept(short[k]) && short[k] == h;
      assert headers[k] == h;
    }
  }

  /** The keys of a row are the kept headers. */
  lemma {:induction false} RowOfKeys(headers: seq<string>, values: seq<string>)
    ensures RowOf(headers, values).Keys == Columns(headers)
    decreases |headers|
  {
    if headers != [] {
      RowOfKeys(headers[..|headers| - 1], values);
      ColumnsLast(headers);
    }
  }

  /** Under distinct kept headers, column j holds its trimmed token, or "" past the line's end. */
  lemma {:induction false} RowOfCells(headers: seq<string>, values: seq<string>)
    requires DistinctColumns(headers)
    ensures forall j :: 0 <= j < |headers| && Kept(headers[j]) ==>
      headers[j] in RowOf(headers, values) &&
      RowOf(headers, values)[headers[j]] == (if j < |values| then Trim(values[j]) else "")
    decreases |headers|
  {
    if headers != [] {
      var n := |headers| - 1;
      var short := headers[..n];
      DistinctPrefix(headers, n);
      RowOfCells(short, values);
      var row := RowOf(headers, values);
      forall j | 0 <= j < |headers| && Kept(headers[j]) ensures headers[j] in row && row[headers[j]] == CellAt(values, j) {
        if j < n {
          assert short[j] == headers[j];
          if Kept(headers[n]) { assert headers[j] != headers[n]; }
        }
      }
    }
  }

  /** The rows of the data lines. */
  function RowsOf(headers: seq<string>, dataLines: seq<string>): (rows: seq<Row>)
    requires DistinctColumns(headers) || dataLines == []
    ensures |rows| == |dataLines|
  {
    seq(|dataLines|, i requires 0 <= i < |dataLines| => RowOf(headers, Tokenize(dataLines[i])))
  }

  /** What ConvertCsv computes: a failure when there is a data line and two kept headers coincide,
      otherwise one row per line after the first. */
  function Table(csv: string): Result<seq<Row>> {
    var lines := SplitLines(csv);
    var headers := Tokenize(lines[0]);
    if |lines| > 1 && !DistinctColumns(headers) then Failure(DuplicateKey)
    else Success(RowsOf(headers, lines[1..]))
  }

  /** The header line of the text. */
  function Headers(csv: string): seq<string> {
    Tokenize(SplitLines(csv)[0])
  }

  /** One row more per CR LF: text without a CR LF pair (a header alone, or lines separated by a bare
      LF) gives no rows at all, and the only failure is a duplicate kept header. */
  lemma TableRowCount(csv: string)
    ensures Table(csv).Failure? <==> (exists i :: CrLfAt(csv, i)) && !DistinctColumns(Headers(csv))
    ensures Table(csv).Failure? ==> Table(csv).error == DuplicateKey
    ensures Table(csv).Success? ==> |Table(csv).value| == |SplitLines(csv)| - 1
    ensures Table(csv).Success? ==> (Table(csv).value == [] <==> !exists i :: CrLfAt(csv, i))
  {
    SplitLinesSingle(csv);
  }

  /** Every row has exactly the kept headers as keys; a column the line does not reach maps to "",
      the others to their trimmed token. */
  lemma TableRow(csv: string, i: nat)
    requires Table(csv).Success? && i < |Table(csv).value|
    ensures DistinctColumns(Headers(csv))
    ensures Table(csv).value[i].Keys == Columns(Headers(csv))
    ensures forall j :: 0 <= j < |Headers(csv)| && Kept(Headers(csv)[j]) ==>
      var values := Tokenize(SplitLines(csv)[i + 1]);
      Table(csv).value[i][Headers(csv)[j]] == (if j < |values| then Trim(values[j]) else "")
  {
    var lines := SplitLines(csv);
    var headers := Headers(csv);
    assert |lines| > 1;
    assert Table(csv).value == RowsOf(headers, lines[1..]);
    assert lines[1..][i] == lines[i + 1];
    RowOfKeys(headers, Tokenize(lines[i + 1]));
    RowOfCells(headers, Tokenize(lines[i + 1]));
  }

  /** Adding the next header keeps the kept headers distinct unless it is already a key of the
      partial row, in which case two kept headers coincide. */
  lemma ExtendDistinct(headers: seq<string>, values: seq<string>, j: nat)
    requires j < |headers| && DistinctColumns(headers[..j])
    ensures Kept(headers[j]) && headers[j] in RowOf(headers[..j], values) ==> !DistinctColumns(headers)
    ensures !(Kept(headers[j]) && headers[j] in RowOf(headers[..j], values)) ==> DistinctColumns(headers[..j + 1])
  {
    var short, long := headers[..j], headers[..j + 1];
    RowOfKeys(short, values);
    var row := RowOf(short, values);
    if Kept(headers[j]) && headers[j] in row {
      var k :| 0 <= k < j && Kept(short[k]) && short[k] == headers[j];
      assert headers[k] == headers[j];
    } else {
      forall a, b | 0 <= a < b < j + 1 && Kept(long[a]) && Kept(long[b]) ensures long[a] != long[b] {
        if b == j {
          assert short[a] == long[a];
          assert short[a] in Columns(short);
        } else {
          assert short[a] == long[a] && short[b] == long[b];
        }
      }
    }
  }

  lemma RowsOfSnoc(headers: seq<string>, lines: seq<string>, i: nat)
    requires 1 <= i < |lines| && DistinctColumns(headers)
    ensures RowsOf(headers, lines[1..i + 1]) == RowsOf(headers, lines[1..i]) + [RowOf(headers, Tokenize(lines[i]))]
  {
    var long, short := lines[1..i + 1], lines[1..i];
    assert forall k :: 0 <= k < i - 1 ==> long[k] == short[k];
    assert long[i - 1] == lines[i];
  }

  /** The inner loop of ConvertCsv: fills the dictionary of one line header by header, and fails at
      the first kept header that is already a key. */
  method FillRow(headlines: seq<string>, values: seq<string>) returns (r: Result<Row>)
    ensures r == if DistinctColumns(headlines) then Success(RowOf(headlines, values)) else Failure(DuplicateKey)
  {
    var dictionary: Row := map[];
    var j := 0;
    assert headlines[..0] == [];
    while j < |headlines|
      invariant 0 <= j <= |headlines|
      invariant DistinctColumns(headlines[..j])
      invariant dictionary == RowOf(headlines[..j], values)
    {
      ExtendDistinct(headlines, values, j);
      if Kept(headlines[j]) {
        if headlines[j] in dictionary {
          return Failure(DuplicateKey);
        }
        dictionary := dictionary[headlines[j] := CellAt(values, j)];
      }
      assert headlines[..j + 1][..j] == headlines[..j];
      j := j + 1;
    }
    assert headlines[..j] == headlines;
    r := Success(dictionary);
  }

  /** CsvParser.ConvertCsv, filling one dictionary per line in nested loops. */
  method ConvertCsv(csv: string) returns (r: Result<seq<Row>>)
    ensures r == Table(csv)
    ensures r.Success? ==> |r.value| == |SplitLines(csv)| - 1
  {
    var lines := SplitLines(csv);
    var headlines := Tokenize(lines[0]);
    var list: seq<Row> := [];
    var i := 1;
    while i < |lines|
      invariant 1 <= i <= |lines|
      invariant i > 1 ==> DistinctColumns(headlines)
      invariant list == RowsOf(headlines, lines[1..i])
    {
      var values := Tokenize(lines[i]);
      var row := FillRow(headlines, values);
      if row.Failure? {
        return row.PropagateFailure();
      }
      RowsOfSnoc(headlines, lines, i);
      list := list + [row.value];
      i := i + 1;
    }
    assert lines[1..i] == lines[1..];
    r := Success(list);
  }
}
