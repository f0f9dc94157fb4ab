# Gluey API docs — verified model of its executable core

The Gluey API documentation service is almost entirely request/response schemas,
enumerations, example payloads and endpoint stubs. The carrier-service eligibility
rules (restrictions, delivery features, skip lists) exist only as schema fields and
example data; no code evaluates them, so they are not modelled. The code that does
compute something, and that this project models, is:

- **The Mermaid Markdown preprocessor** (`MermaidPreprocessor.run`,
  `MermaidRegex`, `strip_notprintable`), module `Mermaid`. Text lines pass through;
  a fenced block opened by "```mermaid" or "~~~Mermaid" becomes a
  `<div class="mermaid">` holding the rendered diagram. The scan is modelled as a
  method with the source's own state variables (`Run`), proved equal to a
  line-by-line definition (`Preprocess`), about which the block structure is proved.
  As written, the opening expression repeats its capturing group
  (`([\~\`]){3}`), so any three of `~` and `` ` `` open a block and the sign that must
  close it is the third one; the model follows that.
- **The tracking-event code tables** (`read_csv_for_json`,
  `read_csv_stream_for_json`, `read_csv`, `combine_csv_files_in_memory`, and the
  `/json/{file_name}` and `/csv/{file_name}` handlers), module `TrackingCodes`, with
  the rows that `csv.reader` and `csv.DictReader` hand over in module `CsvRows`.
  The file system is a parameter mapping paths to their rows. A missing file, an
  empty file meeting `next()` and a row without a needed column are error results,
  as the exceptions they raise are in the source.
- **The enumeration documentation formatter** (`get_enum_description`), module
  `EnumDoc`. Enumerations are `str` enumerations, whose members hash and compare as
  their values, so the descriptions dictionary is a map from value to text.
  Iteration skips aliases, so the enumeration's members are the first declaration
  of each value.

Module `Text` holds `join`/`split` on a one-character separator (with their round
trip) and the blank-run trimming used by the fence expressions. Module `Wrappers`
holds `Option` and `Result`.

## Model

| member | source | states |
|---|---|---|
| `Mermaid.StripNotPrintable` | app/api/v1/templates/MermaidExtension.py:9-10 | the result holds only characters of `string.printable` and is no longer than the input |
| `Mermaid.StripNotPrintableCounts` | app/api/v1/templates/MermaidExtension.py:9-10 | every printable character occurs in the result exactly as often as in the input; no other character occurs |
| `Mermaid.StripNotPrintableConcat` | app/api/v1/templates/MermaidExtension.py:9-10 | the filter works character by character in order: filtering `a + b` is filtering `a`, then `b` |
| `Mermaid.StripNotPrintableIdentity` | app/api/v1/templates/MermaidExtension.py:9-10 | the input comes back unchanged if and only if all its characters are printable |
| `Mermaid.StripNotPrintableIdempotent` | app/api/v1/templates/MermaidExtension.py:9-10 | filtering twice gives the same as filtering once |
| `Mermaid.OpeningSign` | app/api/v1/templates/MermaidExtension.py:12 | a matching line starts with three fence characters and the captured sign is the third |
| `Mermaid.OpeningFenceAccepted` | app/api/v1/templates/MermaidExtension.py:12 | every line made of three fence characters, blanks, `mermaid` or `Mermaid`, blanks opens a block with the third character as sign |
| `Mermaid.OpeningFenceShape` | app/api/v1/templates/MermaidExtension.py:12 | conversely, after its three fence characters an opening line is blanks, `mermaid` or `Mermaid`, blanks |
| `Mermaid.ClosingIsNotOpening` | app/api/v1/templates/MermaidExtension.py:29 | a closing fence never matches the opening expression, so outside a block it is plain text |
| `Mermaid.ClosingFence` | app/api/v1/templates/MermaidExtension.py:29 | the closing expression built from the sign accepts exactly the lines made of three copies of the sign followed by blanks; a line that closes for one sign closes for no other |
| `Mermaid.FirstFenceLead` | app/api/v1/templates/MermaidExtension.py:36-37 | before the first opening fence the lines come out unchanged; the `<div class="mermaid">` is preceded by one empty line exactly when an input line precedes the fence and is not blank |
| `Mermaid.Run` | app/api/v1/templates/MermaidExtension.py:15-58 | the loop over the lines, with `old_line`, `mermaid_sign`, `m_start`, `m_end`, `mermaid_lines` and `in_mermaid_code`, produces exactly `Preprocess` of the input |
| `Mermaid.WithoutFenceUnchanged` | app/api/v1/templates/MermaidExtension.py:24-58 | a document without an opening fence comes back unchanged |
| `Mermaid.TextPassesThrough` | app/api/v1/templates/MermaidExtension.py:54-55 | lines outside a block are emitted unchanged and in order, and the scan continues from the last of them |
| `Mermaid.BodyIsBuffered` | app/api/v1/templates/MermaidExtension.py:51-52 | inside a block every line that does not close it is buffered and not emitted, including lines that look like an opening fence (no nesting) |
| `Mermaid.ClosedBlock` | app/api/v1/templates/MermaidExtension.py:33-50 | a closed block becomes the optional empty line, `<div class="mermaid">`, the rendering of its lines joined by newlines (one render call), `</div>` and an empty line; the scan resumes in text mode with an empty buffer |
| `Mermaid.UnclosedBlock` | app/api/v1/templates/MermaidExtension.py:51-58 | a block still open at the end emits its `<div>` but no `</div>`, and its buffered lines are lost |
| `Mermaid.TildeBlockKeepsBacktickFence` | app/api/v1/templates/MermaidExtension.py:29-31 | a backtick fence inside a tilde block does not close it and is rendered as diagram source |
| `Mermaid.FenceAfterText` | app/api/v1/templates/MermaidExtension.py:36-41 | a fence after a non-blank text line gets the extra empty line, and the text line is kept |
| `EnumDoc.Members` | app/api/v1/common/utils.py:5 | iteration yields members with pairwise distinct values, each a declared member, covering every declared value |
| `EnumDoc.DistinctValuesAllMembers` | app/api/v1/common/utils.py:5 | an enumeration without repeated values yields every declaration, in declaration order |
| `EnumDoc.AliasAddsNoLine` | app/api/v1/common/utils.py:5 | a declaration reusing an earlier value (an alias) adds neither a member nor a line |
| `EnumDoc.NewValueAddsLastLine` | app/api/v1/common/utils.py:5 | a declaration with a new value adds its bullet as the last line |
| `EnumDoc.GetEnumDescription` | app/api/v1/common/utils.py:5 | the text is empty exactly when the enumeration has no members |
| `EnumDoc.OneLinePerMember` | app/api/v1/common/utils.py:5 | the text, split at newlines, is one bullet per member, in member order, each `` - `value`: `` followed by the description or "No description available." (no trailing newline), when no value or description contains a newline |
| `EnumDoc.ForeignDescriptionIgnored` | app/api/v1/common/utils.py:5 | adding, changing or removing a description whose key is not a member's value leaves the text unchanged |
| `EnumDoc.FailedHasDefaultDescription` | app/api/v1/book/models/api/collection.py:32-42 | `CollectionStatus` gives four bullets and `failed`, which has no description, gets "No description available." |
| `EnumDoc.WeChatIsAnAlias` | app/api/v1/label/models/api/carrier.py:98-102 | `PRE_NOTICE_WECHAT` reuses the value of `PRE_NOTICE_WHATSAPP` and yields no member of its own |
| `CsvRows.HeaderIsFirstRow` | app/main.py:113-114 | `csv.DictReader` takes the first row of the file as the column names and reads every later row under them |
| `CsvRows.SkipsEmptyRow` | app/main.py:113-114 | a row without any field yields no dictionary, wherever it stands |
| `CsvRows.DictRowsUnderAllFields` | app/main.py:113-114 | rows that carry fields are read one for one, in order, each zipped with the column names |
| `CsvRows.ZipRowValue` | app/main.py:114 | a `DictReader` row maps a column name to the field at the last position carrying that name |
| `TrackingCodes.RecordOf` | app/main.py:116-121 | `milestone`, `code` and `description` copy the row's `milestone`, `code` and `detailed_explanation`; an empty `sub_code` becomes "No Sub Event", any other is kept; a row lacking one of the four columns fails on the first missing one in reading order |
| `TrackingCodes.EventRecords` | app/main.py:115-122 | one record per row, in row order, each that row's record, or else the error of the first row that fails |
| `TrackingCodes.EventRecordsConcat` | app/main.py:115-122 | the records of two stretches of rows read one after the other are the first stretch's records followed by the second's |
| `TrackingCodes.ReadCsvStreamForJson` | app/main.py:111-122 | the records of the buffer's data rows, read under its first row's column names |
| `TrackingCodes.ReadCsvForJson` | app/main.py:124-135 | the records of the file's data rows, or the error of opening it or of its first failing row |
| `TrackingCodes.LookupInsert` | app/main.py:146 | storing a row's explanation sets its own milestone/code/sub-code entry and no other |
| `TrackingCodes.LastDescription` | app/main.py:141-146 | the reference reading: no entry when no row has the three keys, else the explanation of the last row that has them |
| `TrackingCodes.GroupLastRowWins` | app/main.py:137-147 | the grouped table holds, under each milestone, code and sub-code, the explanation of the last row with those keys |
| `TrackingCodes.ReadCsv` | app/main.py:137-147 | the loop filling the nested dictionaries yields the grouping of the file's records, or the error of opening it or of its first failing row |
| `TrackingCodes.CombineCsvFilesInMemory` | app/main.py:149-172 | the output is the primary header, the primary data rows, the international data rows, then the exception data rows, with 1 + (p-1) + (i-1) + (e-1) rows; a missing file or an empty one is an error |
| `TrackingCodes.CombinedRecords` | app/main.py:222-229 | the JSON for a combined file is the records of the primary's data rows, then of the international and exception data rows, all read under the primary's column names |
| `TrackingCodes.GetJson` | app/main.py:217-232 | a name outside the five known ones gets a 404 "File not found"; "outbound" and "return" are combined before reading; the other known names are read alone |
| `TrackingCodes.GetCombinedCsv` | app/main.py:234-248 | a name outside the five known ones gets a 404 "File not found"; every known name is combined and offered as `<name>.csv` |
| `TrackingCodes.InternationalRowsTwice` | app/main.py:239-243 | the combined download for "international" holds the international data rows twice |

## Left out

- Rendering a diagram (`Graph` and `mmd.Mermaid`, a network call into an external library) is the parameter `render` of `Run` and `Preprocess`; only which text it is given and where its result goes are modelled.
- Registering the preprocessor with Markdown (`MermaidExtension`, `makeExtension`) is library glue and is not modelled.
- The fence expressions treat `$` as the end of the line; Python's `$` also matches before a final newline, which lines split by Markdown never carry.
- `is_mermaid` is set on the first block and never read; the model keeps it without any effect on the output.
- `csv` quoting, parsing and encoding are not modelled: a file is given as its rows, and writing rows to the in-memory buffer and reading them back is taken to give the same rows.
- `csv.DictReader` on ragged rows is not modelled: a short row's missing columns, which Python fills with `None`, count here as missing columns, and a long row's extra fields, which Python collects under the key `None`, are dropped.
- The nested dictionaries of `read_csv` are unordered maps here, so the insertion order the events page iterates in is not modelled.
- The `/tracking-codes` page (`get_event_codes`) only calls `read_csv` on the five files and renders a template; template rendering is not modelled.
- File handles left open by `combine_csv_files_in_memory` are not modelled.
- An exception escaping a handler is the response `Raised`; the HTTP 500 built from it by the framework is not modelled.
- FastAPI routing, the server-header middleware, Jinja templates, static files and OpenAPI generation are framework wiring and are not modelled.
- Enumeration values are modelled as their text; enumerations whose values are not strings are not covered.
- Schemas, enumerations, example payloads, endpoint stubs and the header dependency carry no behaviour and are not modelled.
