/**
  The rows the `csv` module hands to the tracking-code handlers. Files are given already
  split into rows of fields (`csv.reader`); `csv.DictReader` pairs every later non-empty
  row with the first row's column names.
 */
module CsvRows {

  type Row = seq<string>

  /** The rows of one file as `csv.reader` yields them, header first. */
  type Table = seq<Row>

  type DictRow = map<string, string>

  /** `dict(zip(fieldnames, row))`: fields pair up by position; a later repeated column name wins. */
  function ZipRow(header: Row, row: Row): (d: DictRow)
    ensures forall i :: 0 <= i < |header| && i < |row| ==> header[i] in d
    ensures forall k :: k in d ==> k in header
  {
    if header == [] || row == [] then map[]
    else
      var rest := ZipRow(header[1..], row[1..]);
      if header[0] in rest then rest else rest[header[0] := row[0]]
  }

  /** The field under a column name is the one in the last position carrying that name. */
  lemma {:induction false} ZipRowValue(header: Row, row: Row, i: nat)
    requires i < |header| && i < |row|
    requires forall j :: i < j < |header| && j < |row| ==> header[j] != header[i]
    ensures ZipRow(header, row)[header[i]] == row[i]
  {
    if i > 0 {
      ZipRowValue(header[1..], row[1..], i - 1);
      assert header[1..][i - 1] == header[i];
    } else if header[0] in ZipRow(header[1..], row[1..]) {
      ZipRowKeys(header[1..], row[1..], header[0]);
      assert false;
    }
  }

  /** Only names at positions that carry a field become keys. */
  lemma {:induction false} ZipRowKeys(header: Row, row: Row, k: string)
    requires k in ZipRow(header, row)
    ensures exists j :: 0 <= j < |header| && j < |row| && header[j] == k
  {
    if header != [] && row != [] {
      if k == header[0] {
        assert header[0] == k;
      } else {
        ZipRowKeys(header[1..], row[1..], k);
        var j :| 0 <= j < |header[1..]| && j < |row[1..]| && header[1..][j] == k;
        assert header[j + 1] == k;
      }
    }
  }

  /** The data rows read under `header`; `csv.DictReader` skips rows without any field. */
  function DictRowsUnder(header: Row, rows: seq<Row>): (r: seq<DictRow>)
    ensures |r| <= |rows|
  {
    if rows == [] then []
    else (if rows[0] == [] then [] else [ZipRow(header, rows[0])]) + DictRowsUnder(header, rows[1..])
  }

  /** Rows that all carry fields are read one for one, each zipped with the header. */
  lemma {:induction false} DictRowsUnderAllFields(header: Row, rows: seq<Row>)
    requires forall i :: 0 <= i < |rows| ==> rows[i] != []
    ensures |DictRowsUnder(header, rows)| == |rows|
    ensures forall i :: 0 <= i < |rows| ==> DictRowsUnder(header, rows)[i] == ZipRow(header, rows[i])
  {
    if rows != [] {
      DictRowsUnderAllFields(header, rows[1..]);
      var r := DictRowsUnder(header, rows);
      assert r == [ZipRow(header, rows[0])] + DictRowsUnder(header, rows[1..]);
      forall i | 0 <= i < |rows| ensures r[i] == ZipRow(header, rows[i]) {
        if i > 0 {
          assert r[i] == DictRowsUnder(header, rows[1..])[i - 1];
          assert rows[1..][i - 1] == rows[i];
        }
      }
    }
  }

  /** `csv.DictReader` over a whole file: the first row names the columns. */
  function DictRows(t: Table): seq<DictRow>
  {
    if t == [] then [] else DictRowsUnder(t[0], t[1..])
  }

  /** Reading consecutive stretches of rows under one header reads them one after the other. */
  lemma {:induction false} DictRowsUnderConcat(header: Row, a: seq<Row>, b: seq<Row>)
    ensures DictRowsUnder(header, a + b) == DictRowsUnder(header, a) + DictRowsUnder(header, b)
  {
    if a == [] {
      assert a + b == b;
    } else {
      assert (a + b)[0] == a[0];
      assert (a + b)[1..] == a[1..] + b;
      DictRowsUnderConcat(header, a[1..], b);
      var first: seq<DictRow> := if a[0] == [] then [] else [ZipRow(header, a[0])];
      assert first + (DictRowsUnder(header, a[1..]) + DictRowsUnder(header, b))
             == (first + DictRowsUnder(header, a[1..])) + DictRowsUnder(header, b);
    }
  }

  /** A row without any field, wherever it stands, is skipped: it yields no dictionary. */
  lemma SkipsEmptyRow(header: Row, a: seq<Row>, b: seq<Row>)
    ensures DictRowsUnder(header, a + [[]] + b) == DictRowsUnder(header, a + b)
  {
    DictRowsUnderConcat(header, a, [[]] + b);
    DictRowsUnderConcat(header, a, b);
    assert ([[]] + b)[0] == [] && ([[]] + b)[1..] == b;
    assert DictRowsUnder(header, [[]] + b) == DictRowsUnder(header, b);
    assert a + [[]] + b == a + ([[]] + b);
  }

  /** The first row only names the columns: every later row is read under it. */
  lemma HeaderIsFirstRow(header: Row, rows: seq<Row>)
    ensures DictRows([header] + rows) == DictRowsUnder(header, rows)
  {
    assert ([header] + rows)[0] == header && ([header] + rows)[1..] == rows;
  }
}
