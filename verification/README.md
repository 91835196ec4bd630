# Local file search and DOCX flattening — a Dafny model

This project models the three parts of the desktop search assistant that carry logic of their own.

**The Windows Search backend** (`src/native/windows.rs`):
- It turns a user query into SQL through the search manager's query helper.
- It opens a command on the `Search.CollatorDSO.1` OLE DB provider and executes the SQL.
- It walks the rowset one row at a time, reading columns 1, 2 and 3 (file name, item URL, size) through a 512-unit UTF-16 buffer.
- Each column's text is the decoded buffer with its trailing NULs removed.
- Fetching ends quietly on a failed fetch or an empty one. Every other failure aborts the call with a tagged error.

**The macOS Spotlight backend** (`src/native/macos.rs`):
- It formats a metadata-query predicate around the file-name fragment. This fails only when the text holds a NUL.
- It keeps the running query in a process-wide slot. It runs the query until the completion notification stops it.
- It returns at most twenty records (file name, path, change date).

**The DOCX loader** (`src-python/core/loader/docx.py`):
- It flattens a cell's paragraphs to text.
- It flattens a table's cells to text.
- It turns a table whose first row is a header into a list of row dicts serialised with `json.dumps`.
- It emits one document per block of the file.

## How the model is organised

- `wrappers.dfy`: `Option` and `Result`.
- `text.dfy` (module `Text`): the text operations the sources rely on. These are:
  - UTF-16 encoding and lossy decoding;
  - `trim_end_matches('\0')`;
  - reading up to a terminator;
  - Python's `str.join`, `str.split` and one-character `str.replace`.
- `windows_search.dfy` (module `WindowsSearch`):
  - The COM layer is an oracle. Every native call that can fail is named; before the rowset exists by a `Stage`, on the rowset by a `NativeCall`. A map says which calls fail, with their HRESULT text.
  - The stage chain is a set of functions over `Result`.
  - The rowset is a class, `NativeRowset`. It holds the provider's rows, the current position and a tally of accessors and rows acquired and released.
  - `process_query_data` is a method that fills an `array<u16>` buffer. It is proved equal to the specification function `Materialise`, and lemmas about that function state what the loop promises.
- `spotlight.dfy` (module `Spotlight`):
  - Predicate formatting and `CString::new` are functions.
  - The `QUERY` slot is a class. Its event log records every start and stop message and every stop of the main run loop.
  - `process_query_data` is a method over the sequence of gathered items.
- `json.dfy` (module `Json`): `json.dumps` for a list of string-to-string dicts. It comes with a decoder for exactly that layout, and the round trip is proved.
- `docx_loader.dfy` (module `DocxLoader`):
  - The flattening functions.
  - `dict(zip(...))` as an insertion-ordered association list.
  - The list-building loops as methods.

## Model

| member | source | states |
|---|---|---|
| Text.EncodeChar | src/native/windows.rs:288 | a character encodes to one or two units, and holds a zero unit exactly when it is NUL |
| Text.Encode | src/native/windows.rs:288 | `encode_utf16` gives between one and two units per character |
| Text.DecodeEncode | src/native/windows.rs:162 | lossy decoding undoes UTF-16 encoding: `from_utf16_lossy(encode_utf16(s)) == s` |
| Text.DecodeLossy | src/native/windows.rs:162 | `from_utf16_lossy` gives one character per one or two units, and exactly one per unit when no unit is a surrogate |
| Text.EncodeWellFormed | src/native/windows.rs:288 | the encoding of a string never holds an unpaired surrogate |
| Text.EncodeNul | src/native/windows.rs:287-290 | the encoding holds a zero unit exactly when the string holds NUL |
| Text.DecodeZeros | src/native/windows.rs:152 | a zero-filled buffer decodes to NUL characters |
| Text.DecodePadded | src/native/windows.rs:152-162 | decoding text followed by zero padding gives the decoded text followed by as many NULs |
| Text.DecodeNul | src/native/windows.rs:162-164 | a decoded text holds NUL exactly when its units hold a zero; NULs inside the text come from the provider |
| Text.TrimEndNul | src/native/windows.rs:164 | `trim_end_matches('\0')` keeps a prefix of the text |
| Text.TrimEndNulMeaning | src/native/windows.rs:164 | everything dropped is NUL, and what is kept does not end in NUL |
| Text.TrimEndNulSplit | src/native/windows.rs:164 | a text is exactly what trimming keeps followed by the NULs it drops |
| Text.TrimEndNulPadded | src/native/windows.rs:164 | appending NULs does not change the trimmed text |
| Text.UpTo | src/native/windows.rs:294 | reading up to a terminator gives a terminator-free prefix that stops at the first terminator |
| Text.UpToAppend | src/native/windows.rs:294 | a terminator-free prefix passes through unchanged |
| Text.UpToMiddle | src/native/macos.rs:40-42 | behind a NUL-free prefix, the first NUL of a text is the first NUL of the part that holds one |
| Text.JoinThree | src-python/core/loader/docx.py:17 | `sep.join([a, b, c])` is `a + sep + b + sep + c` |
| Text.JoinAppend | src-python/core/loader/docx.py:12 | joining two non-empty lists puts one separator between them |
| Text.JoinAvoids | src-python/core/loader/docx.py:22 | a character absent from every part and from the separator is absent from the join |
| Text.SplitOn | src-python/core/loader/docx.py:17 | `str.split(sep)` yields at least one piece |
| Text.SplitOnPlain | src-python/core/loader/docx.py:17 | a text avoiding the separator's first character is not split |
| Text.SplitOnFirst | src-python/core/loader/docx.py:17 | the first separator after such a text splits there |
| Text.SplitJoin | src-python/core/loader/docx.py:17 | splitting a join on its separator recovers the parts when no part holds the separator's first character |
| Text.ReplaceChar | src-python/core/loader/docx.py:16 | `replace("\n", " ")` keeps the length and leaves no `"\n"` |
| WindowsSearch.SelectedPropertiesInOrdinalOrder | src/native/windows.rs:271 | the selected columns, in ordinal order 1, 2, 3, are `System.FileName`, `System.ItemUrl`, `System.Size` |
| WindowsSearch.SelectColumnsJoined | src/native/windows.rs:271 | the column list is those three properties joined by `", "` |
| WindowsSearch.StringToPcwstr | src/native/windows.rs:287-291 | the wide string is the UTF-16 encoding followed by exactly one 0 unit; it decodes back to the input and a NUL-free input reads back whole up to the terminator |
| WindowsSearch.UpToTerminated | src/native/windows.rs:287-291 | a zero-free unit sequence with a 0 appended reads back as itself up to the terminator |
| WindowsSearch.PwstrToString | src/native/windows.rs:293-295 | the SQL text is NUL-free and, when the units before the terminator are well formed, re-encodes to exactly those units |
| WindowsSearch.EncodeDecode | src/native/windows.rs:293-295 | well-formed units survive decoding and re-encoding |
| WindowsSearch.FirstFailure | src/native/windows.rs:69-79 | the first failing stage is a failing stage of the list; there is none exactly when no stage fails |
| WindowsSearch.RunStagesOutcome | src/native/windows.rs:71-74 | calls each followed by `map_err(..)?` succeed exactly when none of them fails, and otherwise carry the tagged error of the first that does |
| WindowsSearch.SearchQueryErrors | src/native/windows.rs:259-284 | the calls of `create_search_query` fail as `CoCreateInstance` (`ISearchManager`), `GetCatalog`, `GetQueryHelper`, `SetQuery` (one of the three property tags) or `GenerateSQLFromUserQuery` |
| WindowsSearch.DbInitializeErrors | src/native/windows.rs:190-207 | the calls of `create_db_initialize` fail as `CoCreateInstance` (`IDataInitialize`), `GetDataSource` or `Cast` (`IDBInitialize`) |
| WindowsSearch.CommandErrors | src/native/windows.rs:212-225 | the calls of `create_command` fail as `Cast` (`IDBCreateSession`, `IDBCreateCommand`, `ICommandText`), `CreateSession` or `CreateCommand` |
| WindowsSearch.StageErrorIsNotNotMatched | src/native/windows.rs:229-255 | no call's failure is reported as `NotMatched` |
| WindowsSearch.CreateSearchQuery | src/native/windows.rs:258-285 | `create_search_query` succeeds exactly when none of its seven calls fails, and then returns the SQL generated from the `SystemIndex` catalog, the helper configuration and the wide query; a failure carries one of that function's tags |
| WindowsSearch.CreateDbInitialize | src/native/windows.rs:189-208 | `create_db_initialize` succeeds exactly when none of its three calls fails; a failure carries one of that function's tags |
| WindowsSearch.CreateCommandText | src/native/windows.rs:211-226 | `create_command` succeeds exactly when none of its five calls fails; a failure carries one of that function's tags |
| WindowsSearch.ExecuteStagesMembers | src/native/windows.rs:229-255 | the calls of `execute_search_query` are those of the data source, `Initialize`, the command, `SetCommandText` and `Execute` |
| WindowsSearch.ExecuteSearchQuery | src/native/windows.rs:229-255 | `execute_search_query` succeeds exactly when none of its calls fails and a rowset comes back; it fails with `NotMatched`, carrying the SQL text, exactly when the calls succeed and no rowset comes back |
| WindowsSearch.Prepare | src/native/windows.rs:69-79 | everything before materialising succeeds exactly when no call fails and a rowset comes back, and then yields the generated SQL |
| WindowsSearch.RunStagesIsChain | src/native/windows.rs:71-74 | running calls each followed by `map_err(..)?` returns the tagged error of the first failing call, or success |
| WindowsSearch.FirstFailureConcat | src/native/windows.rs:229-254 | the first failure of two lists run in turn is the first list's, else the second's |
| WindowsSearch.ChainConcat | src/native/windows.rs:229-254 | running two lists in turn fails with the first list's error, else the second's |
| WindowsSearch.ChainWithoutSql | src/native/windows.rs:239-253 | only `SetCommandText` and `Execute` errors carry the SQL text |
| WindowsSearch.ExecuteIsChain | src/native/windows.rs:229-255 | `execute_search_query` fails with its first failing stage (data source, initialise, session, command, command text, execute); with none, a missing rowset is `NotMatched` with the SQL text |
| WindowsSearch.PrepareStagesSplit | src/native/windows.rs:69-79 | the ordered stage list is OLE initialisation, then SQL generation, then execution |
| WindowsSearch.FirstFailingStageWins | src/native/windows.rs:69-79 | the whole chain before materialising returns the error of the first failing stage in the fixed order; with none, `NotMatched` for a missing rowset, otherwise the SQL |
| WindowsSearch.NativeRowset.constructor | src/native/windows.rs:126-132 | a fresh rowset is at its first row with nothing acquired |
| WindowsSearch.NativeRowset.CastAccessor | src/native/windows.rs:127-129 | the cast to `IAccessor` fails exactly when the oracle says so |
| WindowsSearch.NativeRowset.GetNextRows | src/native/windows.rs:136-147 | a fetch fails as injected, yields 0 rows at the end, or yields one row handle and advances |
| WindowsSearch.NativeRowset.CreateAccessor | src/native/windows.rs:111-120 | an accessor is created (and counted) unless the oracle fails the call |
| WindowsSearch.NativeRowset.GetData | src/native/windows.rs:155-161 | on success the column's units are written to the front of the buffer and the rest is kept; on failure the buffer is unchanged |
| WindowsSearch.NativeRowset.ReleaseAccessor | src/native/windows.rs:166-168 | an accessor is released (and counted) unless the oracle fails the call |
| WindowsSearch.NativeRowset.ReleaseRows | src/native/windows.rs:174-182 | a row is released (and counted) unless the oracle fails the call |
| WindowsSearch.ColumnTextMeaning | src/native/windows.rs:152-164 | a column's text is the whole decoded 512-unit buffer with only its trailing NULs removed; it never ends in NUL and the buffer is the text followed by NULs |
| WindowsSearch.ColumnTextRoundTrip | src/native/windows.rs:152-164 | a string that fits the buffer and does not end in NUL is read back exactly, interior NULs included |
| WindowsSearch.RecordOf | src/native/windows.rs:162-171 | a row's record is its three column texts, each a prefix of its column's decoding that does not end in NUL |
| WindowsSearch.Records | src/native/windows.rs:171 | one record per row read |
| WindowsSearch.RecordsSnoc | src/native/windows.rs:171 | reading a row appends its record, built from columns 1, 2, 3 in that order, to the output |
| WindowsSearch.ReadColumns | src/native/windows.rs:151-169 | the column loop, when it succeeds, reads every remaining column |
| WindowsSearch.ReadColumnsSuccess | src/native/windows.rs:151-169 | a successful column loop has read the row's columns in ordinal order |
| WindowsSearch.FirstFailingColumn | src/native/windows.rs:151-169 | the first column from a given one at which the accessor, read or release call fails; every column before it passes all three, and there is none exactly when all columns pass |
| WindowsSearch.ColumnError | src/native/windows.rs:154-168 | the error of a failing column: `CreateAccessor` exactly when that call fails; otherwise `GetData` when the read fails, else `ReleaseAccessor`, with the failing call's HRESULT text, the completed-row count and that column's index |
| WindowsSearch.ReadColumnsOutcome | src/native/windows.rs:151-169 | the column loop succeeds exactly when no accessor, read or release call on its columns fails, and then releases every accessor it created; otherwise its error is `ColumnError` at the first failing column, so it names that column's index and the first failing call with its HRESULT text; a `GetData` or `ReleaseAccessor` failure leaves that accessor unreleased |
| WindowsSearch.Materialise | src/native/windows.rs:133-183 | the row loop only ever returns complete 3-column rows |
| WindowsSearch.ProcessQueryDataSpec | src/native/windows.rs:126-186 | `process_query_data` only returns complete rows |
| WindowsSearch.MaterialiseStops | src/native/windows.rs:136-147 | a failed fetch or a fetch of zero rows ends the loop without error, returning the rows gathered so far |
| WindowsSearch.StopAt | src/native/windows.rs:136-147 | the position where fetching stops: the first failed fetch or the end of the rowset |
| WindowsSearch.FirstBadRow | src/native/windows.rs:151-182 | the first fetched row on which a column or release call fails |
| WindowsSearch.MaterialiseSucceeds | src/native/windows.rs:133-183 | the row loop succeeds exactly when every row fetched before the stop succeeds |
| WindowsSearch.MaterialiseYields | src/native/windows.rs:133-185 | on success the rows returned are those from the current position up to the stop, in fetch order |
| WindowsSearch.MaterialiseBalanced | src/native/windows.rs:151-182 | on success exactly 3 accessors per row are created and released, and every row fetched is released |
| WindowsSearch.MaterialiseFailureError | src/native/windows.rs:151-182 | on failure the first bad row is before the stop; a `ReleaseRows` error means all its columns passed and carries that call's HRESULT text, and any other error is `ColumnError` at that row's first failing column with the completed-row count |
| WindowsSearch.MaterialiseFailure | src/native/windows.rs:154-182 | on failure the first bad row decides the error: the column error at its first failing column (that column's index, the failing call and its HRESULT text) or, when all its columns pass, `ReleaseRows` with that call's text; that row stays unreleased, a failed read or accessor release leaks that accessor, `GetData`/`ReleaseAccessor` carry the completed-row count, and `ReleaseRows` carries the count after incrementing |
| WindowsSearch.ProcessQueryDataYields | src/native/windows.rs:126-186 | `process_query_data` succeeds exactly when the cast and every fetched row succeed, and then returns the rows up to where fetching stops; any failure discards every row collected |
| WindowsSearch.CreateAccessorHandle | src/native/windows.rs:90-123 | an accessor for the given ordinal, or `CreateAccessor` with the HRESULT text |
| WindowsSearch.ReadColumn | src/native/windows.rs:151-168 | one column: zeroed buffer, accessor, read, trimmed text, release; it advances the column loop by one column or ends it with the same error; a successful pass creates and releases exactly one accessor, and no pass leaves more than one more outstanding, so each accessor is released before the next is created |
| WindowsSearch.ReadRowColumns | src/native/windows.rs:151-169 | the column loop returns the decoded texts of the columns `ReadColumns` reads, or its error, and leaves its tally |
| WindowsSearch.ReadFetchedRow | src/native/windows.rs:149-182 | after a fetch, reading and releasing the row either continues the row loop with one more record or ends it exactly as `Materialise` does |
| WindowsSearch.ReadNextRow | src/native/windows.rs:133-183 | one iteration of the row loop either advances by one row and one record or ends it exactly as `Materialise` does |
| WindowsSearch.MaterialiseRows | src/native/windows.rs:131-185 | the row loop returns the records of the rows `Materialise` reads, or its error, and leaves its tally |
| WindowsSearch.ProcessQueryData | src/native/windows.rs:126-186 | `process_query_data` returns the records of `ProcessQueryDataSpec`, or its error, and leaves its tally |
| WindowsSearch.SearchLocalFilesByQuery | src/native/windows.rs:69-79 | a failure before materialising returns that error and leaves the rowset's tally untouched; otherwise the result is `process_query_data`'s; `OleUninitialize` runs exactly when the whole call succeeds |
| Spotlight.Utf8Length | src/native/macos.rs:40-42 | a text's UTF-8 length is between one and four bytes per character |
| Spotlight.Utf8LengthAppend | src/native/macos.rs:40-42 | the UTF-8 length of a concatenation is the sum of the lengths |
| Spotlight.DecimalText | src/native/macos.rs:42 | a position is written as decimal digits with no leading zero |
| Spotlight.DecimalRoundTrip | src/native/macos.rs:42 | the decimal text of a position reads back as that position |
| Spotlight.NulErrorText | src/native/macos.rs:42 | the `NulError` text is the fixed prefix followed by decimal digits that read back as the position |
| Spotlight.CStringNew | src/native/macos.rs:40-42 | `CString::new` succeeds exactly on NUL-free text, keeping it; otherwise it fails with `CreateCString` naming the byte offset of the first NUL |
| Spotlight.CStringNewFails | src/native/macos.rs:40-42 | a text with its first NUL at a given byte offset fails with that offset |
| Spotlight.PredicateText | src/native/macos.rs:41 | the predicate is the fixed template with the fragment inserted verbatim |
| Spotlight.TemplateHasNoNul | src/native/macos.rs:41 | neither the predicate template nor the date format holds a NUL |
| Spotlight.PredicateRecoversFragment | src/native/macos.rs:41 | the fragment sits unescaped between the template's two halves |
| Spotlight.PredicateInjective | src/native/macos.rs:41 | distinct fragments give distinct predicates |
| Spotlight.PredicateNul | src/native/macos.rs:40-42 | the predicate holds a NUL exactly when the fragment does |
| Spotlight.CStringFirstNul | src/native/macos.rs:40-42 | behind a NUL-free prefix, the error offset is the prefix's byte length plus the offset within the part that holds the NUL |
| Spotlight.CreateSearchQuery | src/native/macos.rs:33-51 | `create_search_query` succeeds exactly on NUL-free fragments, with the fragment inserted verbatim into the query's predicate; it fails only with `CreateCString` |
| Spotlight.CreateSearchQueryNulPosition | src/native/macos.rs:40-42 | on a fragment with a NUL the error names the byte offset of that NUL within the whole predicate |
| Spotlight.NsStringToString | src/native/macos.rs:118-123 | reading an `NSString` as a C string keeps the prefix before the first NUL, and all of a NUL-free string |
| Spotlight.NsDateToString | src/native/macos.rs:126-140 | date formatting never fails, because the format literal holds no NUL, and its text is NUL-free |
| Spotlight.Cap | src/native/macos.rs:96-97 | `min(max, count)` when a maximum is given, `count` otherwise |
| Spotlight.RecordOf | src/native/macos.rs:102-111 | an item's record holds its name and path cut at their first NUL, and the rendered date; no field holds a NUL |
| Spotlight.ProcessQueryData | src/native/macos.rs:89-115 | exactly `Cap(count, max)` records in native index order, each (name, path, formatted date); the `?` on the date never aborts |
| Spotlight.RunQueryRunsOnlyNew | src/native/macos.rs:76-86 | after `run_query` exactly the new query runs; a previous occupant is stopped exactly once before the new query starts, and nothing is stopped when the slot was empty |
| Spotlight.RunningAfterReplace | src/native/macos.rs:77-83 | stopping the only running query and starting another leaves just the new one running |
| Spotlight.FinishStopsAll | src/native/macos.rs:156-163 | after the completion callback nothing runs; with an empty slot it sends nothing |
| Spotlight.QueryRegistry.constructor | src/native/macos.rs:20 | the slot starts empty with nothing running |
| Spotlight.QueryRegistry.ConnectNotificationCenter | src/native/macos.rs:54-73 | registering the observer leaves the slot alone |
| Spotlight.QueryRegistry.StopQuery | src/native/macos.rs:142-145 | `stopQuery` on the query, then the main run loop stopped; the slot is untouched |
| Spotlight.QueryRegistry.RunQuery | src/native/macos.rs:76-86 | the slot holds the new query and the messages are the previous occupant's stop (if any) followed by the start |
| Spotlight.QueryRegistry.QueryDidFinishGathering | src/native/macos.rs:156-163 | the slot is emptied and the taken query, if any, is stopped |
| Spotlight.SearchLocalFilesByQuery | src/native/macos.rs:23-30 | a NUL in the fragment fails with no message in the event log; otherwise the query is observed, run and stopped, the slot ends empty, and at most twenty records come back in index order |
| Json.HexDigit | src-python/core/loader/docx.py:43-45 | a hex digit reads back as its value |
| Json.EscapeChar | src-python/core/loader/docx.py:43-45 | with `ensure_ascii=False` every character escapes to a non-empty text that never starts with a quote or a raw control character |
| Json.EncodeString | src-python/core/loader/docx.py:43-45 | a string value is quoted |
| Json.JoinMapIsJoin | src-python/core/loader/docx.py:43-45 | laying out encoded members is `", ".join` of their texts |
| Json.EncodeDict | src-python/core/loader/docx.py:43-45 | a dict is one JSON object, `{}` exactly when it has no items; `DictRoundTrip` reads it back |
| Json.EscapeRoundTrip | src-python/core/loader/docx.py:43-45 | the escaped text of a string reads back as the string, up to the closing quote |
| Json.StringRoundTrip | src-python/core/loader/docx.py:43-45 | an encoded string reads back as itself, leaving what follows |
| Json.ItemRoundTrip | src-python/core/loader/docx.py:43-45 | an encoded `"key": "value"` item reads back as that pair |
| Json.ListRoundTrip | src-python/core/loader/docx.py:43-45 | a `", "`-separated list of encoded elements reads back as the list |
| Json.DictRoundTrip | src-python/core/loader/docx.py:43-45 | an encoded dict reads back as its items in insertion order |
| Json.Dumps | src-python/core/loader/docx.py:43-45 | `json.dumps` writes one JSON array, `[]` exactly when there are no rows; `DumpsRoundTrip` reads it back |
| Json.DumpsRoundTrip | src-python/core/loader/docx.py:43-45 | `json.loads(json.dumps(rows)) == rows` for a list of string-to-string dicts |
| DocxLoader.ParText | src-python/core/loader/docx.py:16 | a paragraph's text is its runs concatenated, newline-free, with the same length |
| DocxLoader.ParTextPlain | src-python/core/loader/docx.py:16 | a paragraph without line breaks keeps its text unchanged |
| DocxLoader.ParTexts | src-python/core/loader/docx.py:16 | one newline-free text per paragraph, in order |
| DocxLoader.PrintTc | src-python/core/loader/docx.py:15-17 | an empty cell gives `""`, and a one-paragraph cell gives that paragraph's text |
| DocxLoader.PrintTcSplit | src-python/core/loader/docx.py:16-17 | splitting `_print_tc` on `"\n\n"` recovers the per-paragraph texts |
| DocxLoader.PrintTcAsJson | src-python/core/loader/docx.py:20-22 | `_print_tc_as_json` holds no `"\n"` |
| DocxLoader.PrintTcAsJsonParagraphs | src-python/core/loader/docx.py:20-22 | `_print_tc_as_json` holds the same paragraphs as `_print_tc`, joined by one space |
| DocxLoader.Cells | src-python/core/loader/docx.py:11 | every cell of every row is among the cells, and nothing else is |
| DocxLoader.CellsAppend | src-python/core/loader/docx.py:11 | cells of stacked tables are the cells of each, in order |
| DocxLoader.CellsRowMajor | src-python/core/loader/docx.py:11 | cell `j` of row `i` comes after every cell of the earlier rows |
| DocxLoader.CellTexts | src-python/core/loader/docx.py:12 | one `_print_tc` text per cell |
| DocxLoader.JoinCellTexts | src-python/core/loader/docx.py:10-12 | `_print_text` is the `"\n\n"`-join of every paragraph of every cell, row-major |
| DocxLoader.PrintText | src-python/core/loader/docx.py:10-12 | a table without cells gives `""`; otherwise splitting `_print_text` on `"\n\n"` gives every paragraph text of every cell, row-major, an empty cell giving one empty paragraph |
| DocxLoader.Put | src-python/core/loader/docx.py:31 | `d[key] = value` maps the key to the value, leaves other keys alone, keeps the position of an existing key and appends a new one |
| DocxLoader.FromPairs | src-python/core/loader/docx.py:31 | `dict(pairs)` has distinct keys and no more items than pairs |
| DocxLoader.Zip | src-python/core/loader/docx.py:31 | `zip` pairs the i-th header with the i-th cell and stops at the shorter list |
| DocxLoader.RowDict | src-python/core/loader/docx.py:31 | a row dict has distinct keys and no more items than the header or the row has entries; `RowDictLookup` says what each key maps to |
| DocxLoader.FromPairsLookup | src-python/core/loader/docx.py:31 | `dict(pairs)` maps each key to the value of its last pair |
| DocxLoader.RowDictLookup | src-python/core/loader/docx.py:27-31 | a row dict maps each header to the cell under its last occurrence among the first `min(len(header), len(row))` columns, and holds no other key |
| DocxLoader.FromPairsDistinct | src-python/core/loader/docx.py:31 | with distinct keys, `dict(pairs)` is the pairs in order |
| DocxLoader.RowDictDistinct | src-python/core/loader/docx.py:27-31 | with distinct headers a row dict is the zipped pairs in column order |
| DocxLoader.RowTexts | src-python/core/loader/docx.py:30 | one cell text per cell of the row |
| DocxLoader.TblAsJson | src-python/core/loader/docx.py:25-34 | `IndexError` exactly on an empty table; otherwise `len(tbl) - 1` dicts, the k-th built from the header and row k+1 |
| DocxLoader.PrintTblAsJson | src-python/core/loader/docx.py:25-34 | the list-building loop returns `TblAsJson` |
| DocxLoader.DocumentOf | src-python/core/loader/docx.py:41-59 | a block's document has `source` set to the path; a text block's content is `_print_text`; only an empty table fails |
| DocxLoader.TableDocumentReadsBack | src-python/core/loader/docx.py:43-45 | a table document's content decodes back to the table's row dicts |
| DocxLoader.BlockDocument | src-python/core/loader/docx.py:42-59 | one loop body computes the block's document |
| DocxLoader.GetDocumentListFromDocx | src-python/core/loader/docx.py:37-60 | one document per block, in order; the call raises exactly when some table block is empty |

## Left out

- The COM, OLE DB and Objective-C calls themselves are not modelled. They are oracles: a map of injected failures and the provider's rows, or a sequence of gathered metadata items.
- `GenerateSQLFromUserQuery` is not modelled. It is a function-valued parameter of the environment, applied to the catalog name, the helper's configuration and the wide query.
- The date formatter of `nsdate_to_string` is not modelled. It is a function-valued parameter, because its output depends on locale and time zone.
- Pointer lifetimes are not modelled, nor the dangling buffer behind the `PCWSTR` that `string_to_pcwstr` returns. Only buffer contents are.
- `CFRunLoopRun` blocking and notification delivery are not modelled. The completion callback is an explicit call made after `run_query`, and the run loop is a message in the event log.
- Unpaired surrogates are only partly modelled. Lossy decoding maps each unpaired surrogate unit to U+FFFD, one for one. Round-trip lemmas are stated for well-formed input only.
- The accessor's 512-byte `cbMaxLen` cap is not modelled. The provider may write up to the buffer's 512 units.
- WindowsSearch.NativeRowset.GetNextRows: fetches one row per call and hands back its position as the handle. Chapters, skip counts and real row handles are left out.
- `unknown.unwrap()` after `GetDataSource` is not modelled. A successful call is taken to hand back a data source, so the panic on `None` is left out.
- The error conversions' HRESULT texts are opaque strings supplied by the oracle.
- `docx2python` reading, `iter_tables`, `is_tbl` and `iter_at_depth` are not modelled:
  - the loader receives the blocks as values (a table flag and rows of cells of paragraphs);
  - `iter_at_depth(tbl, 2)` is taken to yield the cells row by row.
- `Document` is reduced to its page content and its metadata dict.
- Json.DumpsRoundTrip: the decoder reads only the exact layout `json.dumps` writes for a list of string-to-string dicts. It is not a general JSON parser.
- The rest of the repository is not part of this model:
  - the CLI and build script;
  - the text and vector stores;
  - OCR, PDF reading and the ML model code;
  - the Python vector store, entry points and the PDF and image loaders.

- Spotlight.SearchLocalFilesByQuery: `create_search_query` allocates and initialises the `NSMetadataQuery` (src/native/macos.rs:35-36) before the NUL check, and that object leaks when the check fails; neither the allocation nor the leak is modelled, only the event log of start and stop messages.
- MaterialiseBalanced: counts accessors and rows in total only; the order within one column (each accessor released before the next is created) is stated per pass by WindowsSearch.ReadColumn.
- The connection string passed to `GetDataSource` (src/native/windows.rs:198) is not modelled; whether that call fails is up to the oracle.

Behaviour of the code the model keeps, as written:
- A column's text loses only its trailing NULs, and NULs inside it are kept (src/native/windows.rs:162-164).
- A `ReleaseRows` failure aborts the call and discards the rows gathered so far (src/native/windows.rs:174-182).
- `OleUninitialize` runs only after every step has succeeded, so every error path skips it (src/native/windows.rs:71-75).
- The macOS fragment is inserted into the predicate verbatim, without escaping (src/native/macos.rs:41).
- When `GetData` or `ReleaseAccessor` fails, the `?` returns before that column's accessor is released (src/native/windows.rs:161, 168).
- `GetData` and `ReleaseAccessor` errors carry the completed-row count first and the column index second (src/native/windows.rs:161, 168), while the doc comments on the error variants list the column index first (src/native/windows.rs:26-31).
