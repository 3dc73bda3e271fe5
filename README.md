# sched-planner core, modelled in Dafny

sched-planner turns class-schedule workbooks into schedule records. It keeps
them in a file-backed store between requests, and shows them in a browser
table where the user sorts, filters, selects and deletes rows before
downloading the result. This project models that core and proves what it
promises:

- `strings.dfy`: the ASCII text operations the code relies on: case, whitespace, `strip`, substring search, `replace`, `split`/`join`, decimal notation and lexicographic `<`.
- `heuristics.dfy`: the six text heuristics of `app/utils/time_utils.py` and `app/utils/text_utils.py`. The same functions are copied into `app/routes.py`, `app/utils/functions.py`, `app/utils/process.py` and `app.py`. app.py's shift classifier has no `try`, and so is its own member.
- `schedule.dfy`: the `Schedule` record and its `to_dict`/`from_dict` round trip.
- `sheets.dfy`: a worksheet as a grid of optional cells, Python's `str` of a cell, and the `strftime("%d/%m/%Y")` date text.
- `outcomes.dfy`: folds over per-row and per-sheet outcomes (skipped, kept, raised).
- `excel_parser.dfy`: `parse_excel_file`, as loops proved equal to a recursive definition of the records.
- `legacy_parser.dfy`: the older `process_excel_file` copies, where any exception aborts the file.
- `session_repo.dfy` and `temporary.dfy`: the two stores, as classes over a map from file names to contents.
- `schedule_service.dfy`: the upload filter and aggregation, plus save, load and delete through the store.
- `download.dfy`: parsing `selected_rows` and the deletion filter of `download_processed`.
- `client_time.dfy`: the clock helpers of `app/static/js/utils.js`.
- `data_table.dfy`: the table manager of `app/static/js/dataTableManager.js`. It is a class holding the rows, the sort criteria and the select-all state. It covers sorting, the sort-click state machine, overlap marking, filtering, selection and delete-index collection.

Calls into code outside the model are parameters:
- `pd.to_datetime` is `toDatetime: string -> Option<ClockTime>`.
- `secure_filename` is `secure: string -> string`.
- `uuid.uuid4()` is a `fileId` argument that must not name a stored file yet, and `time.time()` is a `now` argument.
- The overlap pass takes its minute parser as `minutes: string -> JsValue`. The table always passes `ParseTimeToMinutes`.

A record whose group falls back to the column-19 block tag (app/utils/excel_parser.py:72-83) can have `units == 0`: the tag need not appear in column 17. `ExcelParser.UnitsBounds` proves `units >= 1` only for a group read from column 17.

## Model

| member | source | states |
|---|---|---|
| Heuristics.CloseAfter | app/utils/time_utils.py:22 | the lazy `(.*?)\)` stops at the first `)` after the opening parenthesis; no match when a newline comes before every `)` |
| Heuristics.ParenGroupsClean | app/utils/time_utils.py:22 | no extracted piece contains `)` or a newline |
| Heuristics.ParenGroupsEmptyIff | app/utils/time_utils.py:22-23 | `findall` finds nothing exactly when the text has no matchable `(`…`)` pair |
| Heuristics.ExtractParenthesized | app/utils/time_utils.py:22-23 | without a matchable `(`…`)` pair the text comes back unchanged; with one, the joined pieces contain neither `)` nor a newline |
| Heuristics.FirstKeyword | app/utils/time_utils.py:42-45 | the first keyword of the list that occurs as a whole word, ignoring case; None exactly when none occurs |
| Heuristics.ExtractKeyword | app/utils/time_utils.py:41-45 | the result is None iff no area keyword occurs; otherwise it is a keyword of `CORPORATE, HUB, LA MOLINA, BAW, KIDS` that occurs, and no earlier keyword occurs |
| Heuristics.ExtractDuration | app/utils/time_utils.py:86-95 | never None: always "30" or "45"; "30" iff whole-word 30 occurs, or 60 occurs and 45 does not |
| Heuristics.FilterSpecialTagsContaining | app/utils/time_utils.py:54-67 | None iff the lower-cased, whitespace-free text contains `@corp`, `@lima2` or `@lcbulevarartigas`; otherwise the input unchanged |
| Heuristics.SpecialTagSetValue | app/utils/text_utils.py:66-75 | splitting the tag groups on `\|`, removing whitespace and lower-casing gives exactly `{@corp, @lima2, lima2, @limacorporate, @lcbulevarartigas, @argentina}` |
| Heuristics.FilterSpecialTagsExact | app/utils/text_utils.py:66-81 | None iff the lower-cased, whitespace-free text is exactly one of `@corp`, `@lima2`, `lima2`, `@limacorporate`, `@lcbulevarartigas`, `@argentina`; otherwise the input unchanged |
| Heuristics.CorpSuffixDroppedBySubstring | app/utils/time_utils.py:64-65 | the substring variant drops "@corp x" |
| Heuristics.CorpSuffixKeptByExact | app/utils/text_utils.py:78-81 | the exact-set variant keeps "@corp x" unchanged |
| Heuristics.BareLimaDroppedByExact | app/utils/text_utils.py:78-79 | the exact-set variant drops "lima2" |
| Heuristics.BareLimaKeptBySubstring | app/utils/time_utils.py:57-67 | the substring variant keeps "lima2" |
| Heuristics.FormatTimePeriods | app/utils/time_utils.py:111 | no "a.m." and no "p.m." remain after formatting |
| Heuristics.FormatTimePeriodsUnchanged | app/utils/text_utils.py:125 | text with neither marker is returned as it is |
| Heuristics.FormatTimePeriodsIdempotent | app/utils/time_utils.py:111 | formatting twice equals formatting once |
| Heuristics.HourMinuteBeforeTwo | app/utils/time_utils.py:126-127 | the string test `"%H:%M" < "14:00"` holds iff hour*60+minute < 840 |
| Heuristics.DetermineShift | app/utils/time_utils.py:125-129 | one of the two labels; "P. ZUÑIGA" iff the time parses and is before 14:00; "H. GARCIA" otherwise, including a parse failure |
| Heuristics.DetermineShiftStrict | app.py:41-43 | raises (None) exactly when the time does not parse; otherwise the same label as the copies with the fallback |
| ScheduleModel.ToDict | app/models/schedule_model.py:27-34 | exactly the ten field names as keys; every value a string except `units`, which is its integer count |
| ScheduleModel.FromDictOkIff | app/models/schedule_model.py:36-47 | construction succeeds iff the keys are exactly the field names |
| ScheduleModel.FromDictUnexpectedIff | app/models/schedule_model.py:36-47 | `cls(**data)` reports an unexpected keyword exactly when some key is not a field name, before any missing field |
| ScheduleModel.FromToDict | app/models/schedule_model.py:27-47 | `from_dict(to_dict(s)) == s` |
| ScheduleModel.ToFromDict | app/models/schedule_model.py:27-47 | `to_dict(from_dict(d)) == d` for every dictionary of the shape `asdict` produces |
| ScheduleModel.ToDicts | app/services/schedule_service.py:85 | one dictionary per schedule, in order |
| ScheduleModel.FromToDicts | app/services/schedule_service.py:85-107 | a list converted to dictionaries and back is the same list |
| Sheets.FormatDateFields | app/utils/excel_parser.py:94-97 | a timestamp formats as `DD/MM/YYYY`, and its digit groups read back as the day, month and year |
| ExcelParser.SheetMeta | app/utils/excel_parser.py:37-50 | the sheet's metadata is read iff the sheet is non-empty and cells (0,14), (0,21), (4,0), (3,0) are in range; otherwise the sheet is skipped |
| ExcelParser.DataRows | app/utils/excel_parser.py:52 | one outcome per row from index 6 on, in row order |
| ExcelParser.RowRecord | app/utils/excel_parser.py:66-76 | a record only from a row whose start and end cells are non-blank and whose group resolves |
| ExcelParser.CountUnits | app/utils/excel_parser.py:80-83 | the loop's count is the number of column-17 cells from row 6 on that equal the group |
| ExcelParser.ParseRow | app/utils/excel_parser.py:53-114 | the loop body gives the row's record, or None where the code does `continue` |
| ExcelParser.ParseSheet | app/utils/excel_parser.py:52-114 | the records of the accepted data rows, in row order |
| ExcelParser.ParseExcelFile | app/utils/excel_parser.py:33-115 | the records of every sheet, sheet after sheet, skipped sheets contributing nothing |
| ExcelParser.RowAcceptedIff | app/utils/excel_parser.py:66-76 | a row yields a record iff start and end are present and non-blank after strip and a group resolves, from column 17 or from a non-blank block tag that passed the filter |
| ExcelParser.GroupFallback | app/utils/excel_parser.py:58-76 | with column 17 missing or blank, the group is the column-19 text, which contains no special tag |
| ExcelParser.UnitsBounds | app/utils/excel_parser.py:80-83 | `units` never exceeds the number of data rows, and is at least 1 when the group came from column 17 |
| ExcelParser.AreaSuffix | app/utils/excel_parser.py:88-93 | the area is `area + "/KIDS"` iff the program keyword is KIDS and the area is non-empty; otherwise the area |
| ExcelParser.MetaAreaName | app/utils/excel_parser.py:45 | the sheet's area is an area keyword or "" |
| ExcelParser.RecordFields | app/utils/excel_parser.py:78-107 | every record has one of the two shift labels, minutes "30" or "45", start/end without "a.m."/"p.m.", and a `DD/MM/YYYY` date when the date cell is a timestamp |
| ExcelParser.SheetRecordsFromDataRows | app/utils/excel_parser.py:52-114 | a sheet's records are exactly the records of its rows from index 6 on, no more of them than data rows |
| ExcelParser.WorkbookAppend | app/utils/excel_parser.py:34-115 | the records of two runs of sheets are the first run's records followed by the second's |
| ExcelParser.SkippedSheet | app/utils/excel_parser.py:42-50 | a sheet whose metadata cannot be read contributes nothing, and later sheets are still processed |
| LegacyParser.LegacyMetaOf | app/routes.py:60-64 | the metadata reads succeed iff the four cells are in range; otherwise IndexError |
| LegacyParser.LegacyDataRows | app/routes.py:67 | one outcome per row from index 6 on, in row order |
| LegacyParser.LegacyRowOutcome | app/routes.py:69-74 | the row raises IndexError exactly when the sheet has no column 25; a shift that does not parse raises only in app.py's strict copy |
| LegacyParser.LegacyParseRow | app/routes.py:69-98 | the loop body's outcome for the row: raised, skipped or built |
| LegacyParser.LegacyParseSheet | app.py:59-87 | the sheet's rows gathered in order, or the first exception |
| LegacyParser.LegacyReadSheet | app/routes.py:57-98 | one iteration of the sheet loop: metadata, then the rows |
| LegacyParser.ProcessExcelFile | app/routes.py:51-101 | the rows of every sheet in order, or the first exception, which aborts the whole file |
| LegacyParser.LegacyRowAccepted | app/routes.py:74 | a row is skipped iff one of start, end, group, program is NaN or ""; it is built iff all four are filled, the shift resolves and the date has `strftime` |
| LegacyParser.BlankIsFilled | app/routes.py:74 | a blank non-empty cell passes the legacy test but not the maintained one |
| LegacyParser.LegacyAreaKids | app/routes.py:81-82 | the area gets "/KIDS" whenever the program names KIDS, giving "None/KIDS" when the location had no keyword |
| LegacyParser.LegacyRowFields | app/routes.py:75-88 | every built row has minutes "30" or "45", one of the two shifts, a `DD/MM/YYYY` date and at least one unit |
| LegacyParser.StrictAgrees | app.py:41-43 | when app.py's extractor succeeds, the copies with the fallback produce the same rows |
| LegacyParser.LaxNoShiftError | app/routes.py:42-48 | the copies with the fallback never fail on an unparseable start time |
| LegacyParser.ShortSheetAborts | app/routes.py:60-64 | a sheet whose metadata cells are out of range aborts the whole file |
| LegacyParser.LegacyWorkbookAppend | app.py:87 | the rows of two runs of sheets are the first run's rows followed by the second's |
| SessionRepo.FileName | app/repositories/session_repo.py:31 | a session file is named `<id>.json` |
| SessionRepo.FileNameInjective | app/repositories/session_repo.py:31 | distinct ids name distinct files |
| SessionRepo.SweepMembers | app/repositories/session_repo.py:97-109 | a file survives the sweep iff it is not a `.json` file with `now - mtime > max_age`, and survivors keep their contents |
| SessionRepo.SweepIdempotent | app/repositories/session_repo.py:97-109 | a second sweep with the same clock removes nothing more |
| SessionRepo.SavedSessionExpires | app/repositories/session_repo.py:105 | a session written at `t` is removed by a sweep at `now` iff `now - t > max_age` |
| SessionRepo.SessionStore.Lookup | app/repositories/session_repo.py:51-54 | loading succeeds iff the folder exists and holds `<id>.json` |
| SessionRepo.SessionStore.SaveData | app/repositories/session_repo.py:28-34 | creates the folder, stores the data under a new id not already stored and returns it; loading that id gives the data; no other id changes |
| SessionRepo.SessionStore.LoadData | app/repositories/session_repo.py:37-54 | the stored data, or FileNotFoundError exactly when the folder or the file is missing |
| SessionRepo.SessionStore.UpdateData | app/repositories/session_repo.py:57-62 | overwrites or creates the file when the folder exists, after which loading gives the data; fails otherwise; no other id changes |
| SessionRepo.SessionStore.DeleteData | app/repositories/session_repo.py:65-72 | removes the file if present and never fails; loading it afterwards fails; no other id changes |
| SessionRepo.SessionStore.RemoveExpiredSessions | app/repositories/session_repo.py:83-112 | the folder afterwards is exactly the sweep of the folder before, and a missing folder stays empty |
| Temporary.TempStore.Stored | app/utils/temporary.py:21-28 | loading succeeds iff the folder exists and holds `<id>.json` |
| Temporary.TempStore.SaveTemporaryData | app/utils/temporary.py:8-18 | creates the folder if missing, stores the data under a new id not already stored and returns it; no other id changes |
| Temporary.TempStore.LoadTemporaryData | app/utils/temporary.py:21-28 | what was last stored, or FileNotFoundError when it is missing |
| Temporary.TempStore.UpdateTemporaryData | app/utils/temporary.py:31-36 | overwrites the entry when the folder exists, fails otherwise; no other id changes |
| Temporary.TempStore.DeleteTemporaryData | app/utils/temporary.py:39-43 | removes the entry only when it exists, so a second delete changes nothing |
| ScheduleService.LegacyFilterStricter | app/services/schedule_service.py:38-39 | every name the case-sensitive legacy filter accepts, the lower-casing one accepts too, and "A.XLSX" only the latter accepts |
| ScheduleService.IsXlsxUpload | app/services/schedule_service.py:38-39 | an accepted upload has a filename, at least five characters long |
| ScheduleService.MissingNameSkipped | app/services/schedule_service.py:38 | an upload without a filename counts as "" and is never parsed |
| ScheduleService.ProcessUploadedFiles | app/services/schedule_service.py:35-66 | saving every accepted upload under its secured name and parsing the saved paths gives the service's records, files taken in submission order |
| ScheduleService.DistinctNamesParseEachUpload | app/services/schedule_service.py:37-59 | when no two accepted uploads share a secured name, the result is each accepted upload's records, in order |
| ScheduleService.ProcessUploadsIndividually | app/services/schedule_service.py:37-59 | each accepted upload is parsed from its own content; a file that cannot be parsed adds nothing |
| ScheduleService.UnreadableUploadSkipped | app/services/schedule_service.py:53-59 | an upload that cannot be parsed contributes no records, and the other files' records remain |
| ScheduleService.ParseEachUploadAppend | app/services/schedule_service.py:37-59 | parsing uploads one by one, two batches in a row give the first batch's records followed by the second's |
| ScheduleService.CollidingUploads | app/services/schedule_service.py:37-59 | two accepted uploads secured to the same name yield the second's records twice, and the first's are lost |
| ScheduleService.LoadedSchedules | app/services/schedule_service.py:106-107 | a missing session is FileNotFoundError; an item `from_dict` rejects raises its error; otherwise `from_dict` applied to each item, in order |
| ScheduleService.SavedSchedulesLoad | app/services/schedule_service.py:85-107 | loading what was saved gives the schedules back |
| ScheduleService.LoadSchedules | app/services/schedule_service.py:92-107 | the loaded list converted item by item, or the store's error |
| ScheduleService.SaveSchedules | app/services/schedule_service.py:69-89 | with a truthy id, updates that entry and returns the id; otherwise saves under a new id not already stored and returns it; loading the result gives the schedules; no other entry changes |
| ScheduleService.DeleteSessionData | app/services/schedule_service.py:110-112 | the store's delete: the file is gone and loading it fails |
| Download.PyInt | app/routes.py:184 | `int(piece)` succeeds exactly when the stripped piece is an optionally signed, non-empty run of decimal digits, with the value of those digits, negated after `-`; otherwise it fails with the piece |
| Download.SignedNotationParses | app/routes.py:184 | `-` or `+` before the decimal notation of n reads back as -n or n |
| Outcomes.MapAllSpec | app/routes.py:184 | converting every element (`list(map(int, ...))`, and `[Schedule.from_dict(item) for item in data]` at app/services/schedule_service.py:107) succeeds iff every element converts, with one value per element in order; otherwise the error of the first element that fails, every element before it converting |
| Download.ParseIndices | app/routes.py:183-184 | an empty string is no indices; otherwise `int` of each comma-separated piece |
| Download.KeptPositions | app/routes.py:187 | the unlisted positions below n, strictly increasing |
| Download.KeepUndeletedSubmultiset | app/routes.py:187 | every kept record is one of the stored records, with no record kept more often than stored |
| Download.KeepUndeletedPositions | app/routes.py:187 | the kept records are the records at exactly the unlisted positions, in their original order |
| Download.KeptIff | app/routes.py:187 | a position is kept iff it is not listed |
| Download.KeepAll | app/routes.py:187 | listing no valid position keeps every record |
| Download.IgnoresOutOfRange | app/routes.py:187 | a negative or too-large index changes nothing |
| Download.KeepUndeletedShorter | app/routes.py:187 | never more records than stored, and as many iff no valid position is listed |
| Download.DeleteMiddle | app/routes.py:187 | deleting {1} from [A, B, C] gives [A, C] |
| Download.IndicesRoundTrip | app/routes.py:183-184 | positions joined by commas parse back to the same positions |
| Download.ParseSingleIndex | app/routes.py:183-184 | "1" parses to [1] |
| Download.DownloadProcessed | app.py:94-103 | no stored schedules is an error; a bad index raises; otherwise the result is the records at the unlisted positions (KeepUndeleted of the parsed indices), never more than stored, and an empty selection keeps them all |
| Download.ExportColumnsNameFields | app/routes.py:190-193 | the ten export headers name the record's fields in field order |
| ClientTime.Number | app/static/js/utils.js:3 | `Number` is never undefined, and a blank string is 0 |
| ClientTime.AdjustHour | app/static/js/utils.js:5-6 | no meridiem leaves the hour unchanged, and the hour stays a number iff it was one |
| ClientTime.ReadClock | app/static/js/utils.js:2-4 | the hour part is always defined (a missing minute part is undefined) |
| ClientTime.ParseTimeToMinutes | app/static/js/utils.js:1-8 | never undefined: a number exactly when both the hour and the minute part read as numbers, NaN otherwise |
| ClientTime.ConvertTo24HourFormat | app/static/js/utils.js:10-19 | the text is already trimmed, has no space (so no meridiem), is at least five characters long, and splits on ":" into exactly two parts |
| ClientTime.TextParser | app/static/js/utils.js:21-23 | for ASCII text: the same length, with no upper-case letter left |
| ClientTime.TextParserIdempotent | app/static/js/utils.js:21-23 | for ASCII text, lower-casing keeps the length and is idempotent |
| ClientTime.AdjustHourRange | app/static/js/utils.js:5-6 | for h in 1..12 with AM/PM the adjusted hour is h mod 12 plus 12 for PM, below 24 |
| ClientTime.WellFormedTime | app/static/js/utils.js:1-19 | `h:mm AM/PM` parses to (h mod 12 + 12·PM)·60 + mm, in [0, 1440), and converts to that hour and minute zero-padded |
| ClientTime.ReadConverted | app/static/js/utils.js:10-19 | the 24-hour text reads back as the hours and minutes it was written from, with non-numbers as NaN |
| ClientTime.ConvertThenParse | app/static/js/utils.js:1-19 | for every input, parsing `convertTo24HourFormat(x)` gives the same minutes as parsing `x` |
| DataTable.ColumnAt | app/static/js/dataTableManager.js:338-346 | a column's name is the trimmed header; it is a time column iff the header mentions "time" in any case; sortable iff not the first |
| DataTable.Columns | app/static/js/dataTableManager.js:338-346 | one column per header, in order |
| DataTable.RowDataCells | app/static/js/dataTableManager.js:348-351 | the data's keys are exactly the column names, and each holds the trimmed text of the last column of that name, or "" |
| DataTable.InitialRows | app/static/js/dataTableManager.js:347-362 | one row item per table row, with `originalIndex` its position and `selected` its check box |
| DataTable.CompareKeys | app/static/js/dataTableManager.js:36 | the comparison is -1, 0 or 1 |
| DataTable.CompareKeysAntisymmetric | app/static/js/dataTableManager.js:36 | swapping the values negates the comparison |
| DataTable.FindColumn | app/static/js/dataTableManager.js:32-33 | the column of that name, or none when no column has it |
| DataTable.CriterionCompare | app/static/js/dataTableManager.js:32-39 | one criterion's comparison is -1, 0 or 1 |
| DataTable.Compare | app/static/js/dataTableManager.js:30-42 | the comparator's result is -1, 0 or 1 |
| DataTable.CompareDecidedBy | app/static/js/dataTableManager.js:31-40 | the first criterion that tells two rows apart decides, negated for descending |
| DataTable.CompareTie | app/static/js/dataTableManager.js:41 | rows that no criterion tells apart compare equal |
| DataTable.CompareAntisymmetric | app/static/js/dataTableManager.js:30-42 | swapping the rows negates the comparison |
| DataTable.SortRows | app/static/js/dataTableManager.js:28-43 | one row out for each row in (SortRowsPermutes and SortRowsOrdered give the rest) |
| DataTable.SortRowsPermutes | app/static/js/dataTableManager.js:30 | sorting is a permutation of the rows |
| DataTable.SortRowsOrdered | app/static/js/dataTableManager.js:30-42 | after sorting no row compares greater than the next |
| DataTable.SortRowsKeepsOrdered | app/static/js/dataTableManager.js:30-42 | rows already in order are left where they are |
| DataTable.SortTwice | app/static/js/dataTableManager.js:30-42 | sorting twice is sorting once |
| DataTable.FindCriterion | app/static/js/dataTableManager.js:174-176 | the position of the criterion for that column, or none |
| DataTable.NextCriteria | app/static/js/dataTableManager.js:173-191 | shift-click flips an existing criterion in place or appends it ascending; plain click flips the sole criterion of that column, else replaces the criteria by it ascending; names stay distinct and the column is always among them |
| DataTable.PlainClickTwice | app/static/js/dataTableManager.js:185-190 | after a plain click, two more plain clicks on the same column restore the criteria |
| DataTable.SlotOf | app/static/js/dataTableManager.js:131 | a row's overlap key is its instructor, or "__NO_INSTRUCTOR__" when it has none |
| DataTable.ClashSymmetric | app/static/js/dataTableManager.js:139-145 | the overlap test is symmetric |
| DataTable.ClearOverlaps | app/static/js/dataTableManager.js:128 | every overlap flag is cleared and nothing else changes |
| DataTable.MarkOverlaps | app/static/js/dataTableManager.js:128-149 | a row is marked exactly when some other row of the same instructor key has an intersecting interval; nothing else changes |
| DataTable.MarkPairsOf | app/static/js/dataTableManager.js:135-148 | the inner loop marks the clashing pairs of row i with every later row |
| DataTable.IncludesIff | app/static/js/dataTableManager.js:154 | `includes` holds exactly when the text occurs at some position |
| DataTable.IncludesContains | app/static/js/dataTableManager.js:156 | `includes` from the start is substring containment |
| DataTable.ApplyFilters | app/static/js/dataTableManager.js:151-159 | each row's visibility is set to the three-filter test, and nothing else changes |
| DataTable.Filtered | app/static/js/dataTableManager.js:128-159 | one row out for each row in, in the same order (FilteredAt gives each row) |
| DataTable.FilteredAt | app/static/js/dataTableManager.js:128-159 | after the pass, a row is marked iff it overlaps another row; it is visible iff both text filters pass and overlap-only is off or it is marked; data, selection and original index are kept |
| DataTable.FilterRows | app/static/js/dataTableManager.js:124-159 | the two passes, on the trimmed and lower-cased filter texts, give the filtered rows |
| DataTable.InitialTable | app/static/js/dataTableManager.js:347-366 | at start-up every row is visible, keeps its check box's selection and has its position as original index |
| DataTable.NoFilterShowsAll | app/static/js/dataTableManager.js:151-158 | with empty filters and overlap-only off every row is visible |
| DataTable.ClashMarksBoth | app/static/js/dataTableManager.js:139-145 | two rows that clash are both marked |
| DataTable.CountWherePositive | app/static/js/dataTableManager.js:80-86 | the count is positive iff some row satisfies the test |
| DataTable.SelectAllState | app/static/js/dataTableManager.js:89-106 | checked iff some row is visible and all visible rows are selected; indeterminate iff some but not all visible rows are selected; never both |
| DataTable.SelectVisible | app/static/js/dataTableManager.js:227-229 | only visible rows change, and they take the box's value |
| DataTable.SelectVisibleState | app/static/js/dataTableManager.js:226-231 | with a visible row, select-all then shows the chosen value and is not indeterminate |
| DataTable.SelectedIndices | app/static/js/dataTableManager.js:242-244 | one index per selected row, and exactly the original indices of the selected rows |
| DataTable.DeleteKeepsUnselected | app/static/js/dataTableManager.js:241-249 | the server keeps a record iff no selected row has its original index |
| DataTable.SortedSelectionState | app/static/js/dataTableManager.js:192 | a permutation changes neither the selected count nor the select-all state |
| DataTable.Table.constructor | app/static/js/dataTableManager.js:334-366 | columns from the headers, no sort criteria, and the rows after the initial filter pass, with the counters consistent |
| DataTable.Table.UpdateSelectedCount | app/static/js/dataTableManager.js:79-107 | the counter is the number of selected rows, the delete form shows iff it is positive, and the select-all box matches the rows |
| DataTable.Table.SortData | app/static/js/dataTableManager.js:28-43 | no criteria leaves the rows; otherwise they are sorted by the criteria |
| DataTable.Table.HandleSortClick | app/static/js/dataTableManager.js:173-195 | the criteria step as a click does, the rows are sorted by them, and the counters stay consistent |
| DataTable.Table.OnFilterChange | app/static/js/dataTableManager.js:123-163 | the rows become the filtered rows and the counters are recomputed |
| DataTable.Table.ToggleRow | app/static/js/dataTableManager.js:197-208 | only that row's selection changes, and the counters are recomputed |
| DataTable.Table.ToggleSelectAll | app/static/js/dataTableManager.js:226-231 | only visible rows change selection; with a visible row the box shows the choice |
| DataTable.Table.DeleteSelected | app/static/js/dataTableManager.js:241-250 | submits iff some row is selected, and the submitted text parses back to the selected rows' original indices |

## Left out

- Reading workbooks (`pd.ExcelFile`, `pd.read_excel`): a workbook is a sequence of sheets, and a file that cannot be opened is an upload without content.
- Heuristics: `re` is not modelled. `\b`, `\s` and `re.IGNORECASE` are written out for ASCII only, so non-ASCII letters and whitespace are not word or space characters here.
- Strings.Strip: whitespace is ASCII only (space, tab, newline, carriage return, vertical tab, form feed). Python's `str.strip()` and JavaScript's `trim()` also remove Unicode spaces such as U+00A0, so a cell or filter text made only of those is blank in the program but not here.
- Strings.Lower: case folding is ASCII only. Python's `str.lower()` and JavaScript's `toLowerCase()` also fold non-ASCII letters ("Ñ" to "ñ", "İ" to two characters), so texts with such letters compare differently here.
- RowAcceptedIff: "non-blank after strip" uses the ASCII Strip, so a start, end or group cell holding only U+00A0 counts as present here, whereas `str(value).strip()` makes it blank and the row is skipped.
- FilteredAt: the text filters use the ASCII Lower and Strip, so a filter "muñoz" hides a row "MUÑOZ" here, whereas the browser's `toLowerCase()` shows it.
- FilterRows: the trimmed, lower-cased filter texts are computed with the ASCII Strip and Lower, so visibility can differ from the browser on non-ASCII text.
- TextParserIdempotent: the length and idempotence are proved for the ASCII Lower only. JavaScript's `"İ".toLowerCase()` is two characters long.
- TextParser: the lower-casing is the ASCII Lower, so non-ASCII upper-case letters stay as they are.
- `pd.to_datetime` and `strftime` are not modelled: time parsing is the `toDatetime` parameter, and a date cell is a timestamp or its literal text.
- The file system, JSON and pickle: the stores are maps from file names to contents. `json.JSONDecodeError` on a corrupt file is not modelled.
- SessionRepo.SessionStore.SaveData, Temporary.TempStore.SaveTemporaryData and ScheduleService.SaveSchedules: a `uuid.uuid4()` collision is not modelled. The new id is required not to be stored yet, so the case where a colliding id would overwrite an entry is excluded.
- SessionRepo.SessionStore.RemoveExpiredSessions: files vanishing between the listing and `getmtime` or `remove` are not modelled, because the model is sequential.
- ScheduleService.ProcessUploadedFiles: the `ThreadPoolExecutor`/`as_completed` order is not modelled. The result takes the files in submission order, whereas the source's cross-file order is unspecified.
- The removal of uploaded files after parsing, and the retry loop in app/routes.py, are file-system clean-up and are left out.
- Flask plumbing (routes, `session`, `render_template`, `send_file`, `redirect`, `abort`, `to_excel`) is left out. `download_processed` is modelled from the stored records and the form text onward.
- `int()` in `ParseIndices` does not accept `_` digit separators (`int("1_0")` is 10 in Python); those inputs are modelled as errors.
- ClientTime.Number: only blank strings and plain digit strings are numbers. Decimal points, signs, exponents and hexadecimal forms read as NaN here, so values outside the non-negative integers are not modelled.
- DataTable.SortRows: `Array.prototype.sort` is modelled as an insertion sort. The model proves the result is an ordered permutation. It does not state that rows comparing equal keep their order, although `Array.prototype.sort` is stable. When a NaN time key makes the comparator inconsistent, a JavaScript engine may order those rows differently.
- DataTable.MarkOverlaps: the grouping through the `byInstructor` object is modelled as the pairs of rows with equal keys, taken in row order. The marks are the same, because marking is order-independent.
- A table without "Start Time" or "End Time" columns makes the JavaScript throw (`undefined.trim()`). The model reads "" there instead, which parses to NaN and never clashes.
- Rows are values: the DOM row element, the `row.dataset.originalIndex` attribute, and aliasing between `rowsData` items and table rows are not modelled. A row click is modelled by its position (DataTable.Table.ToggleRow).
- The DOM side of the table is left out, as rendering rather than state: `render`, `updateSortHeaders`, the no-data row, the overlap counter, the context menu, the copy-row and copy-schedule clipboard actions, and event binding.
- `debounce` is timer plumbing and is left out.
- The clear-filters button is not a separate member. It resets the inputs and runs `onFilterChange`, which is DataTable.Table.OnFilterChange with empty texts and the overlap box off.
- app/static/js/main.js, the two scripts.js files and the configuration modules are UI glue and wiring, and are left out.

## Findings

| source | as written | input that shows it | evidently intended | confidence | as-written member | corrected member |
|---|---|---|---|---|---|---|
| app/services/schedule_service.py:37-59 | every accepted upload is saved to `secure_filename(name)` and the saved paths are parsed | two `.xlsx` uploads whose names secure to the same name, e.g. "a b.xlsx" and "a_b.xlsx": the second overwrites the first, the path is parsed twice, the second file's records appear twice and the first's are lost | each accepted upload contributes its own records once | not executed | ScheduleService.CollidingUploads | ScheduleService.ProcessUploadsIndividually |
