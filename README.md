# json-to-excel, modelled in Dafny

A model of the two classes at the heart of json-to-excel, which turns
ten-day weather forecast snapshots (JSON) into Excel workbooks:

- `ExcelReader` (src/lib/excelreader.ts) builds the spreadsheet column
  order. It rebuilds every day record in that order, and it merges the
  snapshot lists of several JSON files into the first one, renaming
  municipalities whose names collide.
- `ExcelWriter` (src/lib/excelwriter.ts) lays out one workbook per
  snapshot: ten sheets, one per forecast day, each with a metadata block,
  the header row and one row per municipality. It exports all snapshots in
  order.

JavaScript objects are ordered association lists (`Json.Assoc`), because
key insertion order is what the column ordering changes and what
`for…in` walks. Property assignment is `Json.Put`. The directory listing
and the parsed file contents are inputs (`Merge.FileEntry`).

The modules follow the program:

| module | role |
|---|---|
| `Json` | values, objects and their properties |
| `Text` | the string helpers the source relies on: `endsWith`, `trim`, `/`-replacement, decimal numerals |
| `Schema` | the record and snapshot shapes of src/types/schemas.ts |
| `Columns` | the specification of `initColumnHeaders` and `orderDataColumns` |
| `Merge` | the specification of `readDataDirectory`, one function per loop level |
| `Reader` | class `ExcelReader`, its loops as methods proved against `Columns` and `Merge` |
| `Layout` | the specification of `createExcelByIndex` and `exportDataToExcel` |
| `Writer` | class `ExcelWriter`, its loops as methods proved against `Layout` |

Three behaviours of the code are easy to misread:

- A null base mapping (excelreader.ts:144) returns from
  `readDataDirectory` altogether. It skips the remaining files and the
  warning, not only that file's remaining entries.
- Only an empty listing fails with "No JSON files provided". A listing
  without `.json` names fails when `readFile` receives `undefined` as its
  path.
- Rebuilding a record drops every key that is not a column.

## Model

| member | source | states |
|---|---|---|
| Json.Keys | src/lib/excelreader.ts:137 | The keys a `for…in` walks: one per property, in insertion order. |
| Json.Get | src/lib/excelreader.ts:148 | A property lookup finds a value exactly when the key is among the object's keys. |
| Json.Put | src/lib/excelreader.ts:197 | Assigning a property keeps the key order. A new key goes last. The key then holds the new value, and every other key keeps its value. |
| Json.GetAppend | src/lib/excelreader.ts:148 | A lookup in an object extended by one property: an earlier key wins, the new key gives its value, and any other key is absent. |
| Text.EndsWith | src/lib/excelreader.ts:105 | A name ends with a suffix exactly when it is at least as long and is its front followed by the suffix. |
| Text.ReplaceSlashes | src/lib/excelwriter.ts:65 | The replacement keeps the length, turns every `/` into `-`, and keeps every other character. |
| Text.Trim | src/lib/excelreader.ts:152 | `trim` returns the slice without leading and trailing white space. The result starts and ends with a non-space character, or is empty. |
| Text.TrimKeeps | src/lib/excelreader.ts:152 | Trimming keeps every character that is not white space. |
| Text.DecimalInjective | src/lib/excelwriter.ts:94 | Different day numbers have different numerals. |
| Columns.ColumnOrder | src/lib/excelreader.ts:56-62 | The column list starts with the leading columns, holds every field, and holds nothing else. |
| Columns.ColumnOrderShape | src/lib/excelreader.ts:56-62 | With distinct fields, the list is the leading columns followed by the missing fields in declaration order. |
| Columns.MissingMeaning | src/lib/excelreader.ts:57-59 | A field is appended exactly when the leading columns lack it, and the appended fields repeat nothing. |
| Columns.ColumnsOnce | src/lib/excelreader.ts:56-62 | Each appended field occurs exactly once, and the list repeats nothing the leading columns do not. |
| Columns.DefaultColumns | src/lib/excelreader.ts:40 | With ['province', 'municipality'], the columns are those two followed by the other twelve schema fields in declaration order, with no repetition. |
| Columns.FieldsDistinct | src/types/schemas.ts:4-19 | The schema declares each field once. |
| Columns.OtherFields | src/types/schemas.ts:4-19 | Fields 5 and 6 are municipality and province, and no other field is a leading column. |
| Columns.MissingAppend | src/lib/excelreader.ts:56-62 | The fields appended for a concatenation are those appended for each part, in order. |
| Columns.MissingNone | src/lib/excelreader.ts:56-62 | When no field is a leading column, every field is appended. |
| Columns.Project | src/lib/excelreader.ts:262-265 | The rebuilt record has exactly the columns as keys, in column order when they are distinct. Each key holds the original record's value, `undefined` where the original lacks it. Other keys are dropped. |
| Columns.ProjectReadsColumnsOnly | src/lib/excelreader.ts:262-265 | Two records that agree on the columns rebuild alike. |
| Columns.ProjectIdempotent | src/lib/excelreader.ts:262-265 | Rebuilding a rebuilt record changes nothing. |
| Columns.Reordered | src/lib/excelreader.ts:259-266 | One municipality's list after the `for i < 10` loop: at least ten records. Days 0 to 9 hold, under exactly the columns, the values the original day had (`undefined` for a missing day or key), in column order when the columns are distinct. Later days are unchanged. |
| Columns.ReorderSnapshot | src/lib/excelreader.ts:255-267 | Reordering a snapshot changes only its mapping, keeps a null mapping null, and keeps the number of municipalities. |
| Columns.OrderColumns | src/lib/excelreader.ts:250-274 | With columns given, reordering fails exactly when some municipality has fewer than ten records, with the read of the first column on `undefined`. Otherwise every snapshot keeps all fields but its mapping, and days 0 to 9 are rebuilt while later days are kept. |
| Columns.ReorderSnapshotMeaning | src/lib/excelreader.ts:254-267 | Reordering a snapshot rebuilds days 0 to 9 of each municipality, keeps the keys and the later days, and changes no other field. |
| Columns.ReorderIdempotent | src/lib/excelreader.ts:250-274 | Reordering data that was already reordered succeeds and changes nothing. |
| Columns.ReorderSnapshotIdempotent | src/lib/excelreader.ts:254-267 | The same for one snapshot. |
| Columns.ReorderedIdempotent | src/lib/excelreader.ts:259-266 | The same for one municipality's list. |
| Columns.ReorderKeepsConformance | src/lib/excelreader.ts:79-83 | When every schema field is a column, a snapshot that passed the schema check still passes it after reordering. |
| Merge.JsonFiles | src/lib/excelreader.ts:104-106 | Exactly the `.json` names of the listing are kept, and no name is added. |
| Merge.JsonFilesInOrder | src/lib/excelreader.ts:104-105 | The filter keeps the listing order: the kept names are the listing's names at strictly increasing positions. |
| Merge.JsonFilesFirst | src/lib/excelreader.ts:104-110 | The base file is the first `.json` name of the listing: every name before it is some other kind of file. |
| Merge.Join | src/lib/excelreader.ts:106 | A path is the directory, one `/`, then the file name. |
| Merge.JsonFilesIdempotent | src/lib/excelreader.ts:104-106 | Filtering twice is filtering once. |
| Merge.LoadFile | src/lib/excelreader.ts:79-87 | Reading succeeds exactly when the contents are a snapshot list that passes the schema check and, when columns are set and not empty, no municipality has fewer than ten records. Unreadable contents give the unreadable-file error. Reading keeps the snapshot count. Without columns the snapshots are returned as parsed. With columns, each snapshot is reordered as `Columns.Reorders` says. |
| Merge.FindIndex | src/lib/excelreader.ts:130-131 | The lookup returns the first base snapshot created at the given time, or nothing when none is. |
| Merge.ProvinceOf | src/lib/excelreader.ts:149 | Reading the province fails exactly when the incoming list is empty. |
| Merge.RenamedKey | src/lib/excelreader.ts:152 | The renamed key contains a `-`, and is no longer than the untrimmed key. |
| Merge.RenamedKeyDiffers | src/lib/excelreader.ts:152 | The renamed key never equals the name it replaces. |
| Merge.AppendAsWritten | src/lib/excelreader.ts:186-201 | The guard as written: the call fails exactly when the list is non-empty and the index is one past its end. It changes nothing for an empty list or an index outside `0..length`. |
| Merge.AppendMunicipality | src/lib/excelreader.ts:186-197 | The corrected append keeps the snapshot count. Merge.AppendPastEnd states what it does one past the end, and Merge.AppendChangesOneEntry what it does inside the list. |
| Merge.AppendPastEnd | src/lib/excelreader.ts:191-193 | At index length, the written guard fails and the corrected one changes nothing. |
| Merge.AppendAgrees | src/lib/excelreader.ts:186-197 | At every other index, the written and the corrected version give the same snapshots. |
| Merge.AppendChangesOneEntry | src/lib/excelreader.ts:193-197 | Appending creates the mapping if it is null and sets the key to the days. No other key or snapshot changes, keys are only gained, and distinct keys stay distinct. |
| Merge.RecordKeepsDistinct | src/lib/excelreader.ts:155-157 | Recording a renamed key only adds it, and adds it at most once. |
| Merge.InsertEntryRule | src/lib/excelreader.ts:137-161 | For one incoming entry: a null base mapping abandons the merge, and a new name is appended with its days and no warning. A taken name keeps its base entry, and the incoming days go under the trimmed "name-province" key. That key is added to the warnings unless they already hold it. A taken name with no days fails on the province read. Every other key of the snapshot keeps its days, and no other snapshot changes. |
| Merge.InsertEntry | src/lib/excelreader.ts:140-161 | Placing one incoming entry keeps the number of base snapshots. |
| Merge.InsertEntries | src/lib/excelreader.ts:137-162 | Placing one incoming snapshot's entries keeps the number of base snapshots. |
| Merge.MergeSnapshot | src/lib/excelreader.ts:128-162 | Merging one incoming snapshot keeps the number of base snapshots. When no base snapshot has its creation time, the merge fails with "Error finding data entry for" and that time, and the base is unchanged. |
| Merge.MergeSnapshots | src/lib/excelreader.ts:128-163 | Merging one file's snapshots keeps the number of base snapshots. |
| Merge.MergeFile | src/lib/excelreader.ts:117-164 | Merging one later file keeps the number of base snapshots. A file that cannot be read fails with its reading error. A file whose snapshot count differs from the base's fails with "Inconsistent data length on" and its path. Both failures leave the base unchanged. |
| Merge.MergeFiles | src/lib/excelreader.ts:117-164 | Merging all later files keeps the number of base snapshots. |
| Merge.InsertEntryExtends | src/lib/excelreader.ts:137-161 | After one entry, the snapshots are the same in number and in every field but the mappings, which only gain keys. The warnings only grow, and each is recorded once. |
| Merge.InsertEntriesExtends | src/lib/excelreader.ts:137-162 | The same for all entries of one incoming snapshot. |
| Merge.MergeSnapshotExtends | src/lib/excelreader.ts:128-162 | The same for one incoming snapshot. |
| Merge.MergeSnapshotsExtends | src/lib/excelreader.ts:128-163 | The same for one file's snapshots. |
| Merge.MergeFileExtends | src/lib/excelreader.ts:117-163 | The same for one later file. |
| Merge.MergeFilesExtends | src/lib/excelreader.ts:117-164 | The same for all later files. |
| Merge.LoadDirectory | src/lib/excelreader.ts:95-177 | An empty listing, a listing without `.json` names and an unreadable first file fail and leave the earlier snapshots. Otherwise the first `.json` file is the base, and its snapshots only gain municipality keys. The warnings of a completed merge are distinct. |
| Merge.OnlyJsonFilesRead | src/lib/excelreader.ts:104-106 | Names not ending in `.json` make no difference. |
| Merge.SingleFileIsBase | src/lib/excelreader.ts:108-110 | A single `.json` file is the result as read, with no warnings. |
| Merge.LengthMismatchFails | src/lib/excelreader.ts:123-125 | A second file with a different snapshot count fails with "Inconsistent data length on" and its path, leaving the base. |
| Merge.LengthMismatchAt | src/lib/excelreader.ts:117-125 | Any later file reached with a snapshot count different from the base's ends the merge with "Inconsistent data length on" and its path. The base is left as the files before it made it. |
| Merge.DisjointEntriesAppend | src/lib/excelreader.ts:137-161 | Incoming entries with distinct names that are all new to the base snapshot are appended in order, each with its own days. Every other key keeps its days, no warning is added and no other snapshot changes. |
| Merge.DisjointSnapshotsAppend | src/lib/excelreader.ts:128-163 | Suppose every snapshot of a later file finds its base snapshot by creation time. Suppose also that the names each base snapshot receives are distinct and new to its non-null mapping. Then the snapshot loop completes with no new warning. Each base snapshot's keys become its own keys followed by the incoming names in loop order. Each incoming name holds its incoming days, and every other key keeps its days. |
| Merge.DisjointFilesAppend | src/lib/excelreader.ts:117-164 | The same over the file loop. The later files must all load, match the base in snapshot count and creation times, and bring names distinct from each other and from the base. Then the merge completes with no new warning. Each base snapshot holds its own entries followed by every incoming entry, file after file, in loop order. |
| Merge.ExtendAppend | src/lib/excelreader.ts:137-161 | After earlier entries were added to a base snapshot, entries new to it are added behind them with no warning. The result is the base snapshot with all of them added, and the other snapshots are unchanged. |
| Merge.CollisionRenames | src/lib/excelreader.ts:147-161 | Base "Alpha" from P1 and incoming "Alpha" from P2 give the keys "Alpha" then "Alpha-P2", and the warning list ["Alpha-P2"]. |
| Merge.AlphaInserted | src/lib/excelreader.ts:147-161 | The same collision, for the single entry. |
| Merge.AlphaRenamed | src/lib/excelreader.ts:152 | "Alpha" from "P2" is renamed "Alpha-P2". |
| Merge.NullBaseAbandons | src/lib/excelreader.ts:144 | A matched base snapshot with a null mapping and a non-empty incoming mapping abandon the merge and leave the snapshots as they are. |
| Merge.UnmatchedDateStops | src/lib/excelreader.ts:130-135 | An incoming snapshot whose creation time no base snapshot has stops the merge. |
| Merge.UnmatchedLastStops | src/lib/excelreader.ts:130-135 | The same when that snapshot is the last. |
| Merge.UnmatchedDateFails | src/lib/excelreader.ts:128-135 | Any incoming snapshot reached whose creation time no base snapshot has ends the merge with "Error finding data entry for" and that time. The base is left as the snapshots before it made it. |
| Merge.GrowsKeepsDates | src/lib/excelreader.ts:130-131 | Merging keeps every base snapshot's creation time. |
| Merge.InsertEntriesStopped | src/lib/excelreader.ts:144 | Once the entry loop has stopped, the later entries change nothing. |
| Merge.MergeSnapshotsStopped | src/lib/excelreader.ts:133-135 | Once the snapshot loop has stopped, the later snapshots change nothing. |
| Merge.MergeFilesStopped | src/lib/excelreader.ts:117-125 | Once the file loop has stopped, the later files change nothing. |
| Reader.BuildRecord | src/lib/excelreader.ts:262-265 | The reduce builds the record that `Columns.Project` describes. |
| Reader.ReorderDays | src/lib/excelreader.ts:259-266 | The `for i < 10` loop fails exactly when there are columns and the list has fewer than ten records, with the first column's read on `undefined`. Otherwise it gives the reordered list. |
| Reader.ReorderRow | src/lib/excelreader.ts:255-267 | The loop over one snapshot's municipalities fails exactly when there are columns and a list is short. Otherwise it gives the reordered snapshot. |
| Reader.OrDefault | src/lib/excelreader.ts:29-35 | A folder is the given path exactly when that path is present and not empty, and the default otherwise. |
| Reader.ExcelReader.constructor | src/lib/excelreader.ts:26-40 | No snapshots, the folders chosen, and the columns in their default order. |
| Reader.ExcelReader.InitColumnHeaders | src/lib/excelreader.ts:51-72 | The columns become `Columns.ColumnOrder` of the leading columns and the schema fields. |
| Reader.ExcelReader.OrderDataColumns | src/lib/excelreader.ts:250-274 | The rows are returned as they are without columns, and as `Columns.OrderColumns` gives them otherwise. |
| Reader.ExcelReader.ReadFile | src/lib/excelreader.ts:79-87 | The file's snapshots are those `Merge.LoadFile` gives, or its error. |
| Reader.ExcelReader.AppendMunicipalityData | src/lib/excelreader.ts:186-201 | The snapshots and the error are those `Merge.AppendAsWritten` gives. |
| Reader.ExcelReader.SetData | src/lib/excelreader.ts:207-209 | The snapshots become the given ones. |
| Reader.ExcelReader.GetDataItem | src/lib/excelreader.ts:217-222 | A snapshot is returned exactly for an index inside the list, and it is the snapshot at that index. |
| Reader.ExcelReader.MergeEntriesInto | src/lib/excelreader.ts:137-162 | The entry loop leaves the snapshots and the outcome that `Merge.InsertEntries` gives. |
| Reader.ExcelReader.MergeFileInto | src/lib/excelreader.ts:118-163 | One later file leaves the snapshots and the outcome that `Merge.MergeFile` gives. |
| Reader.ExcelReader.MergeFilesInto | src/lib/excelreader.ts:117-164 | The file loop leaves the snapshots and the outcome that `Merge.MergeFiles` gives. |
| Reader.ExcelReader.ReadDataDirectory | src/lib/excelreader.ts:95-177 | Reading a directory leaves the snapshots and the outcome that `Merge.LoadDirectory` gives. |
| Layout.FileName | src/lib/excelwriter.ts:65 | The file name is the creation time, character by character, with each `/` made `-` and every other character unchanged, followed by ".xlsx". It holds no `/`. |
| Layout.SheetName | src/lib/excelwriter.ts:94 | Sheet names start with "Day ". |
| Layout.SheetNamesListed | src/lib/excelwriter.ts:69-94 | The ten sheets are named "Day 1" to "Day 10", in order. |
| Layout.SheetNamesDistinct | src/lib/excelwriter.ts:94 | Different days have different sheet names. |
| Layout.MetaRows | src/lib/excelwriter.ts:82-89 | Six rows precede the data rows. Rows 0 to 3 hold the labels "Date Created", "Valid until", "Forecast Date" and "ID", each beside the snapshot's creation time, validity range, forecast date and id. A missing range or forecast date is an empty cell. Row 4 is blank. Row 5 is a row of string cells that reads back as the columns in order. |
| Layout.DaySheet | src/lib/excelwriter.ts:69-95 | The sheet for day `i` is named for that day and has six head rows plus one row per municipality. |
| Layout.DaySheetLaidOut | src/lib/excelwriter.ts:69-95 | When every municipality has a day `i`, that sheet holds the head rows, then each municipality's day-`i` record in iteration order. |
| Layout.FirstIncomplete | src/lib/excelwriter.ts:72-76 | It finds the first municipality, in iteration order, without exactly ten days, or nothing when all have ten. |
| Layout.ExportSnapshot | src/lib/excelwriter.ts:56-59 | A snapshot with a parse error is skipped, and only then. |
| Layout.ExportSnapshotFails | src/lib/excelwriter.ts:72-76 | Export fails exactly when some municipality lacks exactly ten days. The message is "Missing day data on" with the first such municipality and the creation time. |
| Layout.ExportSnapshotLaidOut | src/lib/excelwriter.ts:62-95 | An exported workbook has the file name and ten sheets. Sheet `i` is named "Day i+1" and holds the metadata rows, the header row, then each municipality's day-`i` record in iteration order. |
| Layout.WorkbookKeepsDays | src/lib/excelwriter.ts:69-95 | Reading a municipality's row back from the ten sheets gives back its ten days. |
| Layout.ExportItem | src/lib/excelwriter.ts:41-59 | No snapshot at the index means nothing to export. Missing columns mean a silent return. Otherwise the result is the snapshot's export. |
| Layout.ExportAll | src/lib/excelwriter.ts:107-118 | The run writes at most one workbook per snapshot. |
| Layout.ExportAllError | src/lib/excelwriter.ts:112-114 | The run fails exactly when some snapshot's export fails, and then with the first such snapshot's message. |
| Layout.ExportAllBooks | src/lib/excelwriter.ts:112-114 | Every workbook written is the export of one of the snapshots. |
| Layout.ErrorStopsExport | src/lib/excelwriter.ts:112-114 | After an error, later snapshots are not exported. |
| Layout.AllExported | src/lib/excelwriter.ts:112-114 | When every snapshot exports, the run writes one workbook per snapshot, in index order. |
| Layout.ExportAllStep | src/lib/excelwriter.ts:112-114 | One more pass of the loop: an error ends the run, a workbook joins the run's books, and a skip changes nothing. |
| Writer.BuildWorkbook | src/lib/excelwriter.ts:56-95 | The nested loops give the export `Layout.ExportSnapshot` describes. |
| Writer.ExcelWriter.constructor | src/lib/excelwriter.ts:10 | The writer starts from a reader and has written nothing. |
| Writer.ExcelWriter.CreateExcelByIndex | src/lib/excelwriter.ts:41-102 | The outcome is `Layout.ExportItem` of the reader's snapshot at the index and of its columns. A workbook is written only when one is produced. |
| Writer.ExcelWriter.ExportDataToExcel | src/lib/excelwriter.ts:107-118 | The outcome is `Layout.ExportAll` of the reader's snapshots, and the workbooks written are the run's, in order. |

## Left out

- File and directory I/O: `readdirSync`, `readFileSync` and `writeFile`. A directory is its listing and a file its parsed contents, both given as inputs. A written workbook is appended to `ExcelWriter.written`, which does not model one file overwriting an earlier one of the same name.
- `path.join` is concatenation with one `/` (`Merge.Join`), with no normalisation.
- `initOutputDirectory` and its call from the constructor and from `exportDataToExcel`: timers and directory removal, no logic.
- Reader.ExcelReader.constructor: the constructor's call of `readDataDirectory` is the separate method `ReadDataDirectory`, because a Dafny constructor cannot report the error the source throws. The default folders are parameters, since they derive from `__dirname`.
- Merge.LoadFile: `JSON.parse` and the zod check are abstracted. Unparseable contents are `Unreadable`, and the check is `Schema.SnapshotConforms`. Their error texts (`UnreadableMessage`, `SchemaMessage`) stand in for the library's messages.
- Merge.LoadDirectory: the `.json`-less listing fails with a fixed message standing for Node's error on an `undefined` path.
- The checks at excelreader.ts:113-114, 120-121 and 145 and at excelwriter.ts:110 cannot fire: `readFile` returns an array or throws, and a `for…in` mapping is never null inside its loop. They are not modelled.
- The warning text printed at excelreader.ts:166-173 and the other `console.log` lines: the warnings are returned as a list instead.
- JavaScript's own key ordering (integer-like keys first) and keys such as `__proto__` or `constructor` inherited from the prototype: objects are plain insertion-ordered lists.
- Reader.ExcelReader.OrderDataColumns: the rows are values, so the in-place update of rows shared with the caller's array (the shallow `[...data]` copy) is not modelled.
- Reader.ExcelReader.GetDataItem: indexes are integers; fractional indexes are not modelled, and `null` and `undefined` are both "nothing".
- Layout.ExportSnapshotLaidOut: sheets are row lists. Where `aoa_to_sheet`, `json_to_sheet` and `sheet_add_json` put the cells (the header row rewritten at A6) is not modelled.
- The output path at excelwriter.ts:66 is fixed and ignores `outputFolder`. Paths are not modelled, only file names.
- `createExcel` (excelwriter.ts:15-34), src/scripts/export.ts and src/lib/utils.ts are not part of this model. `throwTypedError` only rethrows a message, which the `Failed`, `Failure` and `ExportFailed` results carry.
- `ExcelWriter extends ExcelReader` is composition: the writer holds the reader whose snapshots and columns it exports.

## Findings

| source | as written | input that shows it | evidently intended | confidence | as-written member | corrected member |
|---|---|---|---|---|---|---|
| src/lib/excelreader.ts:191 | `arrayIndex > this.data.length` lets `arrayIndex == length` through. The next line then reads `municipalities` of `undefined` and throws. | a non-empty list and index equal to its length | `arrayIndex >= this.data.length`, returning silently like the other out-of-range indexes | not executed | Merge.AppendAsWritten | Merge.AppendMunicipality |
