# planilha-processor backend core, modelled in Dafny

The backend (`backend/server.js`) takes an uploaded Excel workbook, reads
its first sheet into a list of header labels and one record per data row,
keeps that result in a single in-memory slot, and answers three reading
routes from it. The third route, `/extrair`, projects the stored rows onto a
requested list of columns and renders them as a PDF report.

This project models the logic parts of that file:

- `jstext.dfy`, module `JsText`: the ECMAScript white-space class shared
  by `String.prototype.trim` and the regular expression `\s`. It also
  holds `trim` itself and the decimal text a number becomes in a template
  literal.
- `grid_reader.dfy`, module `GridReader`: the cell-grid reader of the
  upload handler. It reads the header labels from row 0, and
  `Coluna_<C+1>` stands in for a missing header cell. Each data row gives
  one record. A cell in column C is written under `headers[C]`, and a
  missing cell gives "".
- `projector.dfy`, module `Projector`: the column projection of `/extrair`.
  It has the default ten-column list and the `linha[coluna] || '---'`
  fallback.
- `upload_naming.dfy`, module `UploadNaming`: the upload type filter, the
  10 MB limit and the stored file name `<Date.now()>_<sanitised name>`.
- `session.dfy`, module `Session`: the `ultimaPlanilha` slot. Each request
  is a transition from one slot content to the next, with the status code
  and JSON body of the reply. An upload passes the upload middleware first
  (type filter, size limit), whose errors reach the error middleware. It
  then reaches the route handler, which answers a missing file itself
  before reading the workbook.
- `records.dfy`, module `Records`: the shared `Option` and record types.

Two behaviours of the reader are kept as the code has them and not as a
reader might expect:

- The header row is always row 0, even when the range starts lower down.
- The row keys use the absolute column index into a header list that
  starts at the range's first column. When the range starts after column 0
  the keys shift (`ShiftedKeys`). A column past the end of the list then
  writes to the property "undefined" (`ShiftedRangeWritesUndefined`).

Two more behaviours follow the code's literal meaning:

- An empty-string value is projected to "---". The `||` in the code treats
  the empty string like a missing value.
- A file of the wrong type does not get its own error reply. The filter's
  error reaches the error middleware, which answers 500 with
  "Erro interno do servidor".

## Model

| member | source | states |
|---|---|---|
| JsText.Trim | backend/server.js:106 | the trimmed text neither starts nor ends with white space and is no longer than the input |
| JsText.TrimIsInfix | backend/server.js:106 | what `trim` keeps is a contiguous piece of the input with only white space before and after it |
| JsText.TrimOfPadded | backend/server.js:117 | trimming text padded with white space on both sides gives back exactly the unpadded text, so with TrimIsInfix `trim` is fully determined |
| JsText.TrimIdempotent | backend/server.js:117 | trimming twice gives the same text as trimming once |
| JsText.NatToDecimal | backend/server.js:106 | the decimal rendering of a number is a non-empty digit string without a leading zero |
| JsText.DecimalRoundTrip | backend/server.js:36 | reading the rendered digits back gives the number |
| JsText.DecimalRoundTripBack | backend/server.js:36 | every canonical digit string is the rendering of the number it denotes |
| GridReader.CellTexts | backend/server.js:105-106 | trimming keeps exactly the present cells, and every cell text it gives is trimmed |
| GridReader.ReadHeaders | backend/server.js:103-107 | one label per column of the range, in column order; label i belongs to column `s.c + i` and is read from row 0 |
| GridReader.KeysBetweenExact | backend/server.js:113-118 | a property is written by a run of columns only if one of those columns has it as key |
| GridReader.RowBetween | backend/server.js:112-118 | the record holds exactly the keys of the visited columns; a key not repeated by a later column holds that column's value, so the later of two duplicate columns wins |
| GridReader.ReadRow | backend/server.js:112-119 | one row's record has exactly the range's column keys, each with the value of its last writer |
| GridReader.ReadRows | backend/server.js:110-120 | one record per row from `s.r + 1` to `e.r` (`e.r - s.r` records), record i read from row `s.r + 1 + i` |
| GridReader.ReadGrid | backend/server.js:99-120 | the grid has `e.c - s.c + 1` headers read from row 0 and `e.r - s.r` rows |
| GridReader.RowRecordAt | backend/server.js:111-119 | data record i carries exactly the column keys, with the later column's value where two share a key |
| GridReader.RowKeysExact | backend/server.js:113-117 | a property is in a record if and only if some column of the range has it as `headers[C]` |
| GridReader.AlignedAtColumnZero | backend/server.js:113-117 | with the range starting at column 0, a record's properties are exactly the header labels, and a label not repeated to its right holds its own column's cell |
| GridReader.ShiftedKeys | backend/server.js:116 | with the range starting at column `s.c > 0`, column C writes under the label of column `C + s.c`, or under "undefined" past the list |
| GridReader.ShiftedRangeWritesUndefined | backend/server.js:116-117 | with the range starting after column 0, every record has the property "undefined" |
| GridReader.ReadSheet | backend/server.js:99-120 | the sheet reader gives one label per column of the range and one record per data row; each label is the trimmed row-0 cell text or `Coluna_` with the one-based column number, and is trimmed |
| GridReader.HeadersReadFromRowZero | backend/server.js:104-106 | the labels depend only on the row-0 cells of the range's columns, not on the range's rows or any other cell |
| GridReader.SheetLabelsAndValues | backend/server.js:104-106 | a label is the trimmed row-0 text or `Coluna_` with the one-based column number, and a value is the trimmed text or "" for a missing cell; both are trimmed |
| Projector.ChosenColumns | backend/server.js:203-206 | a given column list is used as is, even when empty; an absent one becomes the ten default names |
| Projector.Extract | backend/server.js:203-217 | the extraction gives one record per stored row; a name is a property of each record if and only if it is a chosen column, and no value is empty |
| Projector.ProjectRow | backend/server.js:212-216 | the projected record's properties are exactly the requested names; each holds the row's value if present and non-empty, else "---" |
| Projector.ProjectRows | backend/server.js:211-217 | one projected record per stored row, in order |
| Projector.ExtractContents | backend/server.js:203-217 | the extracted data has one record per stored row; a name is a property of it if and only if it is a chosen column; its value is the row's non-empty value or "---" |
| Projector.ProjectedValuesNonEmpty | backend/server.js:214 | no projected value is the empty string |
| Projector.EmptySelection | backend/server.js:203 | an empty column list yields one empty record per row, not the defaults |
| Projector.ProjectRowIdempotent | backend/server.js:213-215 | projecting a projected record again onto the same columns changes nothing |
| Projector.ExtractIdempotent | backend/server.js:211-217 | projecting the projected data again onto the same columns changes nothing |
| Projector.ProjectRowDependsOnColumnsOnly | backend/server.js:213-215 | rows that agree on the requested columns' values project to the same record |
| UploadNaming.FileFilter | backend/server.js:42-51 | a file is accepted if and only if its MIME type is one of the two spreadsheet types, and is otherwise rejected with the Excel-only message |
| UploadNaming.Sanitise | backend/server.js:35 | the sanitised file name has no white space, is no longer than the original and keeps every character that is neither white space nor `_`, in order |
| UploadNaming.SanitiseFrom | backend/server.js:35 | the sanitised text has no white space and is no longer than the input |
| UploadNaming.SanitiseKeepsSpaceFree | backend/server.js:35 | a name without white space is kept unchanged |
| UploadNaming.SanitiseKeepsLetters | backend/server.js:35 | every character that is neither white space nor `_` is kept, in order |
| UploadNaming.RunBecomesOneUnderscore | backend/server.js:35 | each maximal run of white space becomes exactly one `_` between the sanitised text before it and after it |
| UploadNaming.SanitiseIdempotent | backend/server.js:35 | the sanitised name has no white space, and sanitising it again changes nothing |
| UploadNaming.StoredName | backend/server.js:33-36 | the stored file name has no white space |
| UploadNaming.StoredNameRoundTrip | backend/server.js:34-36 | the stored name gives back both the clock reading and the sanitised original name, so uploads in different milliseconds get different names |
| Session.Preview | backend/server.js:141 | the preview has min(10, number of headers) labels, which are the first headers in order |
| Session.MakeSnapshot | backend/server.js:123-130 | the stored row count equals the number of records, which is the range's data-row count; the header count is the range's width |
| Session.HandleUpload | backend/server.js:76-151 | a successful upload replaces the slot, whatever it held, with the new sheet and replies 200 with the row count, `totalColunas` equal to the header count and the first min(10, n) headers; every other upload leaves the slot unchanged and replies with its cause's own error: no file 400 "Nenhum arquivo foi enviado", wrong type 500 "Erro interno do servidor", over 10 MB 400 with the size message, unreadable workbook 500 with the read-error prefix and the thrown message, missing sheet or `!ref` 400 "Planilha vazia ou inválida" |
| Session.Handle | backend/server.js:155-217 | `/info`, `/colunas` and `/extrair` never change the slot and reply 404 with their own message exactly when it is empty; with a sheet stored they reply 200: `/info` with the file name, upload time, row count, header count and headers, `/colunas` with the headers, `/extrair` with the report attachment listing one projected record per stored row over the chosen columns |
| Session.HandleKeepsConsistent | backend/server.js:123-130 | every request keeps a stored snapshot's row count equal to its number of records and its stored name free of white space |
| Session.Run | backend/server.js:59 | after any run of requests the slot holds the snapshot of the last successful upload, or its earlier content when none succeeded; one reply per request |
| Session.NotFoundBeforeFirstUpload | backend/server.js:156-197 | starting from the empty slot, every reading request before the first successful upload is answered 404 |

## Left out

- PDF rendering (backend/server.js:220-267): the layout, the fonts and
  the `doc.y > 700` page break come from pdfkit's floating-point text
  metrics. The report is modelled as the file name and the projected
  records it lists. The page-break check runs before each record, never in
  the middle of one. PDF errors answered 500 are not modelled.
- The order of properties in a record: records are maps. `Object.entries`
  lists integer-like keys first, whatever order was requested, and the
  model makes no claim about order.
- Prototype properties: a requested column named like an inherited
  property (`constructor`, `__proto__`) reads the inherited value in
  JavaScript. A sheet header `"__proto__"` is never written by
  `linha[header] = …`, because the `__proto__` setter ignores strings, so
  no such property appears in the record. The model treats every name as
  an own property: its records have the key `"__proto__"` when a header
  has that text.
- A `colunasDesejadas` that is not an array of strings (a string, a
  number, `false`): only "absent" and "a list of names" are modelled.
- `String(cell.v)` (backend/server.js:106 and 117): `xlsx` hands over a
  cell's value as a JavaScript number, boolean or string, and a date cell
  by default as its serial number. The model takes the text that
  `String(cell.v)` makes of it as given, so JavaScript's number-to-text
  formatting (a date cell becomes text such as "45123") is not modelled.
- `xlsx.readFile`, `decode_range` and `encode_cell`: a workbook is given as
  its outcome (unreadable with a message, empty sheet, or a range with its
  cells). A cell address is its column and row numbers.
- Express routing, CORS, the `/` route, logging and directory creation are
  left out. The multer disk storage is left out too: the file stays on
  disk even when the handler fails. The stored path keeps only the file
  name, without the upload directory.
- The clock: `Date.now()` and `new Date().toISOString()` are request
  fields.
- Concurrency: Node handles requests one at a time, so the slot is modelled
  sequentially.
- Characters are UTF-16 code units in JavaScript and Unicode scalar values
  in Dafny. White space outside the Basic Multilingual Plane does not
  exist, so the difference does not affect `trim` or `\s`.
