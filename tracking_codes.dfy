/**
  The tracking-event code tables served by app/main.py: CSV files of events (milestone,
  code, sub-code, explanation) turned into JSON records, grouped for the events page, or
  combined with the international and exception events into one CSV download.

  The file system is a parameter: a map from path to the file's rows. Opening a path
  that is not in it fails like `open` does; `next` on a file without rows fails like the
  StopIteration it raises; looking up a column a row lacks fails like the KeyError it raises.
 */
module TrackingCodes {
  import opened Wrappers
  import opened CsvRows

  datatype CsvError =
    | FileMissing(path: string)    // open() of a path that does not exist
    | EmptyFile                    // next() on a reader with no rows left
    | MissingColumn(name: string)  // row[name] for a column the row lacks

  type FileSystem = map<string, Table>

  function OpenFile(fs: FileSystem, path: string): (r: Result<Table, CsvError>)
    ensures r.Ok? <==> path in fs
    ensures r.Ok? ==> r.value == fs[path]
    ensures r.Err? ==> r.error == FileMissing(path)
  {
    if path in fs then Ok(fs[path]) else Err(FileMissing(path))
  }

  // ---------------------------------------------------------------------------
  // Rows to event records
  // ---------------------------------------------------------------------------

  const NoSubEvent: string := "No Sub Event"

  /** The columns each row is read through, in the order the source reads them. */
  const Columns: seq<string> := ["milestone", "code", "sub_code", "detailed_explanation"]

  /** One JSON record: `milestone`, `code`, `sub_code` and `description`. */
  datatype EventRecord = EventRecord(milestone: string, code: string, subCode: string, description: string)

  predicate HasColumns(row: DictRow)
  {
    "milestone" in row && "code" in row && "sub_code" in row && "detailed_explanation" in row
  }

  /** The record for one row. An empty `sub_code` reads as "No Sub Event" (`row['sub_code'] or "No Sub Event"`). */
  function RecordOf(row: DictRow): (r: Result<EventRecord, CsvError>)
    ensures r.Ok? <==> HasColumns(row)
    ensures r.Ok? ==> && r.value.milestone == row["milestone"]
                      && r.value.code == row["code"]
                      && r.value.description == row["detailed_explanation"]
                      && (row["sub_code"] == "" ==> r.value.subCode == NoSubEvent)
                      && (row["sub_code"] != "" ==> r.value.subCode == row["sub_code"])
    ensures r.Err? ==> exists k :: 0 <= k < |Columns| && r.error == MissingColumn(Columns[k])
                                   && Columns[k] !in row && forall j :: 0 <= j < k ==> Columns[j] in row
  {
    assert Columns[0] == "milestone" && Columns[1] == "code";
    assert Columns[2] == "sub_code" && Columns[3] == "detailed_explanation";
    if "milestone" !in row then Err(MissingColumn("milestone"))
    else if "code" !in row then Err(MissingColumn("code"))
    else if "sub_code" !in row then Err(MissingColumn("sub_code"))
    else if "detailed_explanation" !in row then Err(MissingColumn("detailed_explanation"))
    else
      var subCode := if row["sub_code"] == "" then NoSubEvent else row["sub_code"];
      Ok(EventRecord(row["milestone"], row["code"], subCode, row["detailed_explanation"]))
  }

  /** Puts `done` in front of the records of the rest, or passes the error on. */
  function Prefixed(done: seq<EventRecord>, rest: Result<seq<EventRecord>, CsvError>): Result<seq<EventRecord>, CsvError>
  {
    match rest
    case Ok(recs) => Ok(done + recs)
    case Err(e) => Err(e)
  }

  /** The records of all rows in order, or the error of the first row that fails. */
  function EventRecords(rows: seq<DictRow>): (r: Result<seq<EventRecord>, CsvError>)
    ensures r.Ok? <==> forall i :: 0 <= i < |rows| ==> RecordOf(rows[i]).Ok?
    ensures r.Ok? ==> |r.value| == |rows| && forall i :: 0 <= i < |rows| ==> RecordOf(rows[i]) == Ok(r.value[i])
    ensures r.Err? ==> exists i :: 0 <= i < |rows| && RecordOf(rows[i]) == Err(r.error)
                                   && forall j :: 0 <= j < i ==> RecordOf(rows[j]).Ok?
  {
    if rows == [] then Ok([])
    else
      assert forall i :: 0 <= i < |rows| - 1 ==> rows[1..][i] == rows[i + 1];
      match RecordOf(rows[0])
      case Err(e) => Err(e)
      case Ok(rec) => Prefixed([rec], EventRecords(rows[1..]))
  }

  lemma PrefixedNothing(r: Result<seq<EventRecord>, CsvError>)
    ensures Prefixed([], r) == r
  {
    if r.Ok? {
      assert [] + r.value == r.value;
    }
  }

  /** Records of consecutive stretches of rows are the stretches' records one after the other. */
  lemma {:induction false} EventRecordsConcat(a: seq<DictRow>, b: seq<DictRow>)
    ensures EventRecords(a + b) == match EventRecords(a)
                                   case Ok(recs) => Prefixed(recs, EventRecords(b))
                                   case Err(e) => Err(e)
  {
    if a == [] {
      assert a + b == b;
      match EventRecords(b) {
        case Ok(recs) => assert [] + recs == recs;
        case Err(e) =>
      }
    } else {
      assert (a + b)[0] == a[0];
      assert (a + b)[1..] == a[1..] + b;
      EventRecordsConcat(a[1..], b);
      match RecordOf(a[0]) {
        case Err(e) =>
        case Ok(rec) =>
          match EventRecords(a[1..]) {
            case Err(e) =>
            case Ok(recs) =>
              match EventRecords(b) {
                case Err(e) =>
                case Ok(more) => assert [rec] + (recs + more) == ([rec] + recs) + more;
              }
          }
      }
    }
  }

  /** One step of a reader loop: the records of `rows[i..]` are the record of row i, then those of `rows[i + 1..]`. */
  lemma ReaderStep(done: seq<EventRecord>, rows: seq<DictRow>, i: nat)
    requires i < |rows|
    ensures Prefixed(done, EventRecords(rows[i..]))
            == match RecordOf(rows[i])
               case Ok(rec) => Prefixed(done + [rec], EventRecords(rows[i + 1..]))
               case Err(e) => Err(e)
  {
    assert rows[i..][0] == rows[i] && rows[i..][1..] == rows[i + 1..];
    match RecordOf(rows[i]) {
      case Err(e) =>
      case Ok(rec) =>
        match EventRecords(rows[i + 1..]) {
          case Err(e) =>
          case Ok(recs) => assert done + ([rec] + recs) == (done + [rec]) + recs;
        }
    }
  }

  /** `read_csv_stream_for_json`: the records of the rows of an in-memory CSV buffer, read from its start. */
  method ReadCsvStreamForJson(buffer: Table) returns (r: Result<seq<EventRecord>, CsvError>)
    ensures r == EventRecords(DictRows(buffer))
  {
    var data: seq<EventRecord> := [];
    var reader := DictRows(buffer);
    assert reader[0..] == reader;
    PrefixedNothing(EventRecords(reader));
    for i := 0 to |reader|
      invariant EventRecords(reader) == Prefixed(data, EventRecords(reader[i..]))
    {
      var row := reader[i];
      ReaderStep(data, reader, i);
      match RecordOf(row) {
        case Err(e) => return Err(e);
        case Ok(rec) => data := data + [rec];
      }
    }
    assert reader[|reader|..] == [];
    assert data + [] == data;
    return Ok(data);
  }

  /** The records `read_csv_for_json` returns for a file. */
  function FileRecords(fs: FileSystem, path: string): Result<seq<EventRecord>, CsvError>
  {
    match OpenFile(fs, path)
    case Err(e) => Err(e)
    case Ok(t) => EventRecords(DictRows(t))
  }

  /** `read_csv_for_json`: the records of the rows of one file. */
  method ReadCsvForJson(fs: FileSystem, filePath: string) returns (r: Result<seq<EventRecord>, CsvError>)
    ensures r == FileRecords(fs, filePath)
  {
    if filePath !in fs {
      return Err(FileMissing(filePath));
    }
    var data: seq<EventRecord> := [];
    var reader := DictRows(fs[filePath]);
    assert reader[0..] == reader;
    PrefixedNothing(EventRecords(reader));
    for i := 0 to |reader|
      invariant EventRecords(reader) == Prefixed(data, EventRecords(reader[i..]))
    {
      var row := reader[i];
      ReaderStep(data, reader, i);
      match RecordOf(row) {
        case Err(e) => return Err(e);
        case Ok(rec) => data := data + [rec];
      }
    }
    assert reader[|reader|..] == [];
    assert data + [] == data;
    return Ok(data);
  }

  // ---------------------------------------------------------------------------
  // read_csv: milestone -> code -> sub-code -> explanation
  // ---------------------------------------------------------------------------

  type Grouped = map<string, map<string, map<string, string>>>

  /** `data[milestone][code][sub_code] = explanation` on nested default dictionaries. */
  function Insert(g: Grouped, rec: EventRecord): Grouped
  {
    var byCode := if rec.milestone in g then g[rec.milestone] else map[];
    var bySubCode := if rec.code in byCode then byCode[rec.code] else map[];
    g[rec.milestone := byCode[rec.code := bySubCode[rec.subCode := rec.description]]]
  }

  /** The table after inserting the records in order. */
  function Group(recs: seq<EventRecord>): Grouped
  {
    if recs == [] then map[] else Insert(Group(recs[..|recs| - 1]), recs[|recs| - 1])
  }

  /** The explanation stored under milestone `m`, code `c` and sub-code `s`, if any. */
  function Lookup(g: Grouped, m: string, c: string, s: string): Option<string>
  {
    if m in g && c in g[m] && s in g[m][c] then Some(g[m][c][s]) else None
  }

  /** An insertion sets its own entry and leaves every other entry as it was. */
  lemma LookupInsert(g: Grouped, rec: EventRecord, m: string, c: string, s: string)
    ensures Lookup(Insert(g, rec), m, c, s)
            == if (m, c, s) == (rec.milestone, rec.code, rec.subCode) then Some(rec.description) else Lookup(g, m, c, s)
  {
  }

  /** Reference reading: the description of the last record with the three keys. */
  function LastDescription(recs: seq<EventRecord>, m: string, c: string, s: string): (r: Option<string>)
    ensures r.None? <==> forall i :: 0 <= i < |recs| ==> (recs[i].milestone, recs[i].code, recs[i].subCode) != (m, c, s)
    ensures r.Some? ==> exists i :: 0 <= i < |recs| && (recs[i].milestone, recs[i].code, recs[i].subCode) == (m, c, s)
                           && recs[i].description == r.value
                           && forall j :: i < j < |recs| ==> (recs[j].milestone, recs[j].code, recs[j].subCode) != (m, c, s)
  {
    if recs == [] then None
    else
      var last := recs[|recs| - 1];
      var init := recs[..|recs| - 1];
      assert forall i :: 0 <= i < |init| ==> init[i] == recs[i];
      if (last.milestone, last.code, last.subCode) == (m, c, s) then Some(last.description)
      else LastDescription(init, m, c, s)
  }

  /** Grouping keeps, for each milestone, code and sub-code, the explanation of the last row that has them. */
  lemma {:induction false} GroupLastRowWins(recs: seq<EventRecord>, m: string, c: string, s: string)
    ensures Lookup(Group(recs), m, c, s) == LastDescription(recs, m, c, s)
  {
    if recs != [] {
      GroupLastRowWins(recs[..|recs| - 1], m, c, s);
      LookupInsert(Group(recs[..|recs| - 1]), recs[|recs| - 1], m, c, s);
    }
  }

  /** The table `read_csv` returns for a file. */
  function GroupedFile(fs: FileSystem, path: string): Result<Grouped, CsvError>
  {
    match FileRecords(fs, path)
    case Err(e) => Err(e)
    case Ok(recs) => Ok(Group(recs))
  }

  /** `read_csv`: the rows of one file grouped by milestone, code and sub-code. */
  method ReadCsv(fs: FileSystem, filePath: string) returns (r: Result<Grouped, CsvError>)
    ensures r == GroupedFile(fs, filePath)
  {
    if filePath !in fs {
      return Err(FileMissing(filePath));
    }
    var data: Grouped := map[];
    ghost var done: seq<EventRecord> := [];
    var reader := DictRows(fs[filePath]);
    assert reader[0..] == reader;
    PrefixedNothing(EventRecords(reader));
    for i := 0 to |reader|
      invariant EventRecords(reader) == Prefixed(done, EventRecords(reader[i..]))
      invariant data == Group(done)
    {
      var row := reader[i];
      ReaderStep(done, reader, i);
      match RecordOf(row) {
        case Err(e) => return Err(e);
        case Ok(rec) =>
          data := Insert(data, rec);
          assert (done + [rec])[..|done|] == done;
          assert Group(done + [rec]) == Insert(Group(done), rec);
          done := done + [rec];
      }
    }
    assert reader[|reader|..] == [];
    assert done + [] == done;
    return Ok(data);
  }

  // ---------------------------------------------------------------------------
  // combine_csv_files_in_memory
  // ---------------------------------------------------------------------------

  /** What `combine_csv_files_in_memory` writes: the primary file whole, then the other two without their headers. */
  function Combined(fs: FileSystem, primaryFile: string, internationalFile: string, exceptionFile: string)
    : (r: Result<Table, CsvError>)
  {
    match OpenFile(fs, primaryFile)
    case Err(e) => Err(e)
    case Ok(primary) =>
      match OpenFile(fs, internationalFile)
      case Err(e) => Err(e)
      case Ok(international) =>
        match OpenFile(fs, exceptionFile)
        case Err(e) => Err(e)
        case Ok(exceptions) =>
          if primary == [] || international == [] || exceptions == [] then Err(EmptyFile)
          else Ok(primary + international[1..] + exceptions[1..])
  }

  /** `combine_csv_files_in_memory`: the three files written one after the other into one buffer. */
  method CombineCsvFilesInMemory(fs: FileSystem, primaryFile: string, internationalFile: string, exceptionFile: string)
    returns (r: Result<Table, CsvError>)
    ensures r == Combined(fs, primaryFile, internationalFile, exceptionFile)
    ensures r.Ok? <==> && primaryFile in fs && internationalFile in fs && exceptionFile in fs
                       && fs[primaryFile] != [] && fs[internationalFile] != [] && fs[exceptionFile] != []
    ensures r.Ok? ==> && r.value[0] == fs[primaryFile][0]
                      && r.value[1..] == fs[primaryFile][1..] + fs[internationalFile][1..] + fs[exceptionFile][1..]
                      && |r.value| == 1 + (|fs[primaryFile]| - 1) + (|fs[internationalFile]| - 1)
                                      + (|fs[exceptionFile]| - 1)
  {
    if primaryFile !in fs {
      return Err(FileMissing(primaryFile));
    }
    if internationalFile !in fs {
      return Err(FileMissing(internationalFile));
    }
    if exceptionFile !in fs {
      return Err(FileMissing(exceptionFile));
    }
    var primaryReader, internationalReader, exceptionReader := fs[primaryFile], fs[internationalFile], fs[exceptionFile];
    var output: Table := [];

    if primaryReader == [] {
      return Err(EmptyFile);
    }
    var header := primaryReader[0];
    output := output + [header];

    for i := 1 to |primaryReader|
      invariant output == primaryReader[..i]
    {
      output := output + [primaryReader[i]];
    }
    assert primaryReader[..|primaryReader|] == primaryReader;

    if internationalReader == [] || exceptionReader == [] {
      return Err(EmptyFile);
    }
    assert internationalReader[1..1] == [];
    assert output == primaryReader + internationalReader[1..1];

    for i := 1 to |internationalReader|
      invariant output == primaryReader + internationalReader[1..i]
    {
      output := output + [internationalReader[i]];
      assert internationalReader[1..i + 1] == internationalReader[1..i] + [internationalReader[i]];
    }
    assert internationalReader[1..|internationalReader|] == internationalReader[1..];
    assert exceptionReader[1..1] == [];
    assert output == primaryReader + internationalReader[1..] + exceptionReader[1..1];

    for i := 1 to |exceptionReader|
      invariant output == primaryReader + internationalReader[1..] + exceptionReader[1..i]
    {
      output := output + [exceptionReader[i]];
      assert exceptionReader[1..i + 1] == exceptionReader[1..i] + [exceptionReader[i]];
    }
    assert exceptionReader[1..|exceptionReader|] == exceptionReader[1..];
    assert (primaryReader + internationalReader[1..] + exceptionReader[1..])[1..]
           == primaryReader[1..] + internationalReader[1..] + exceptionReader[1..];
    return Ok(output);
  }

  /**
    Reading the combined buffer gives the records of the primary file's rows, then those
    of the other two files' data rows, all read under the primary file's column names.
   */
  lemma CombinedRecords(fs: FileSystem, primaryFile: string, internationalFile: string, exceptionFile: string)
    requires Combined(fs, primaryFile, internationalFile, exceptionFile).Ok?
    ensures var header := fs[primaryFile][0];
            EventRecords(DictRows(Combined(fs, primaryFile, internationalFile, exceptionFile).value))
            == EventRecords(DictRowsUnder(header, fs[primaryFile][1..])
                            + DictRowsUnder(header, fs[internationalFile][1..])
                            + DictRowsUnder(header, fs[exceptionFile][1..]))
  {
    var p, i, e := fs[primaryFile], fs[internationalFile], fs[exceptionFile];
    var t := p + i[1..] + e[1..];
    assert t[0] == p[0];
    assert t[1..] == p[1..] + i[1..] + e[1..];
    DictRowsUnderConcat(p[0], p[1..] + i[1..], e[1..]);
    DictRowsUnderConcat(p[0], p[1..], i[1..]);
  }

  // ---------------------------------------------------------------------------
  // The /json/{file_name} and /csv/{file_name} handlers
  // ---------------------------------------------------------------------------

  /** `csv_files`: the five downloadable tables and their paths. */
  const CsvFiles: map<string, string> := map[
    "all_events" := "./app/static/all_events.csv",
    "outbound" := "./app/static/outbound.csv",
    "return" := "./app/static/return.csv",
    "international" := "./app/static/international.csv",
    "exceptions" := "./app/static/exceptions.csv"
  ]

  datatype Response =
    | JsonRecords(records: seq<EventRecord>)                        // JSONResponse(data)
    | CsvDownload(body: Table, contentDisposition: string)          // StreamingResponse of text/csv
    | JsonError(statusCode: int, error: string)                     // JSONResponse({"error": ...}, status_code=...)
    | Raised(cause: CsvError)                                       // an exception escaping the handler

  const FileNotFound: Response := JsonError(404, "File not found")

  function JsonResponseOf(r: Result<seq<EventRecord>, CsvError>): Response
  {
    match r
    case Ok(data) => JsonRecords(data)
    case Err(e) => Raised(e)
  }

  /** The records of the combined buffer for `primaryFile`. */
  function CombinedFileRecords(fs: FileSystem, primaryFile: string): Result<seq<EventRecord>, CsvError>
  {
    match Combined(fs, primaryFile, CsvFiles["international"], CsvFiles["exceptions"])
    case Err(e) => Err(e)
    case Ok(t) => EventRecords(DictRows(t))
  }

  /** `get_json`: unknown names get a 404; "outbound" and "return" are combined first; the others are read alone. */
  method GetJson(fs: FileSystem, fileName: string) returns (resp: Response)
    ensures fileName !in CsvFiles ==> resp == FileNotFound
    ensures fileName in CsvFiles && (fileName == "outbound" || fileName == "return")
            ==> resp == JsonResponseOf(CombinedFileRecords(fs, CsvFiles[fileName]))
    ensures fileName in CsvFiles && fileName != "outbound" && fileName != "return"
            ==> resp == JsonResponseOf(FileRecords(fs, CsvFiles[fileName]))
  {
    if fileName !in CsvFiles {
      return FileNotFound;
    }

    if fileName == "outbound" || fileName == "return" {
      var primaryFile := CsvFiles[fileName];
      var internationalFile := CsvFiles["international"];
      var exceptionFile := CsvFiles["exceptions"];

      var combinedCsv := CombineCsvFilesInMemory(fs, primaryFile, internationalFile, exceptionFile);
      if combinedCsv.Err? {
        return Raised(combinedCsv.error);
      }
      var data := ReadCsvStreamForJson(combinedCsv.value);
      return JsonResponseOf(data);
    }

    var data := ReadCsvForJson(fs, CsvFiles[fileName]);
    return JsonResponseOf(data);
  }

  /** `get_combined_csv`: unknown names get a 404; every known name is combined with the international and exception events. */
  method GetCombinedCsv(fs: FileSystem, fileName: string) returns (resp: Response)
    ensures fileName !in CsvFiles ==> resp == FileNotFound
    ensures fileName in CsvFiles ==>
              resp == match Combined(fs, CsvFiles[fileName], CsvFiles["international"], CsvFiles["exceptions"])
                      case Ok(t) => CsvDownload(t, "attachment; filename=" + fileName + ".csv")
                      case Err(e) => Raised(e)
  {
    if fileName !in CsvFiles {
      return FileNotFound;
    }

    var primaryFile := CsvFiles[fileName];
    var internationalFile := CsvFiles["international"];
    var exceptionFile := CsvFiles["exceptions"];

    var combinedCsv := CombineCsvFilesInMemory(fs, primaryFile, internationalFile, exceptionFile);
    if combinedCsv.Err? {
      return Raised(combinedCsv.error);
    }
    var contentDisposition := "attachment; filename=" + fileName + ".csv";
    return CsvDownload(combinedCsv.value, contentDisposition);
  }

  /** The CSV download for "international" repeats the international data rows: once as primary, once as appended. */
  lemma InternationalRowsTwice(fs: FileSystem)
    requires Combined(fs, CsvFiles["international"], CsvFiles["international"], CsvFiles["exceptions"]).Ok?
    ensures var intl := fs[CsvFiles["international"]];
            Combined(fs, CsvFiles["international"], CsvFiles["international"], CsvFiles["exceptions"]).value
            == intl + intl[1..] + fs[CsvFiles["exceptions"]][1..]
  {
  }
}
