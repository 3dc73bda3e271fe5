/** `parse_excel_file` of app/utils/excel_parser.py: every sheet of a
    workbook whose metadata cells can be read yields one record per complete
    data row (row index 6 onwards), in sheet order and then row order. */
module ExcelParser {
  import opened Wrappers
  import opened Strings
  import opened Heuristics
  import opened Sheets
  import ScheduleModel
  import opened Outcomes

  /** The sheet-level cells read inside the `try`: the date at (0, 14), the
      area keyword of the location at (0, 21) or "", the instructor name at
      (4, 0) and the instructor code at (3, 0). */
  datatype Meta = Meta(date: Cell, areaName: string, instructor: Cell, code: Cell)

  /** None for an empty sheet and for a sheet where one of the four `df.iat`
      reads is out of range; both are skipped. */
  function SheetMeta(sh: Sheet): (r: Option<Meta>)
    ensures r.Some? <==> |sh.rows| >= 5 && sh.width >= 22
  {
    if IsEmpty(sh) then None
    else if !(InRange(sh, 0, 14) && InRange(sh, 0, 21) && InRange(sh, 4, 0) && InRange(sh, 3, 0)) then None
    else Some(Meta(At(sh, 0, 14), ExtractKeyword(Str(At(sh, 0, 21))).GetOr(""), At(sh, 4, 0), At(sh, 3, 0)))
  }

  /** `row.iloc[17] if len(row) > 17 else None`. */
  function GroupCell(sh: Sheet, r: nat): Cell {
    if sh.width > 17 then At(sh, r, 17) else None
  }

  /** The block cell (column 19) passed through the substring tag filter, or
      None when the cell is missing or NaN. */
  function BlockTag(sh: Sheet, r: nat): Option<string> {
    var raw := if sh.width > 19 then At(sh, r, 19) else None;
    if raw.Some? then FilterSpecialTagsContaining(Str(raw)) else None
  }

  /** The group of a row: column 17 when it is present and not blank, else the
      filtered block tag when that is not blank, else none (the row is
      skipped). */
  function ResolvedGroup(sh: Sheet, r: nat): Option<Value> {
    if Present(GroupCell(sh, r)) then GroupCell(sh, r)
    else
      match BlockTag(sh, r)
      case Some(b) => if Strip(b) != "" then Some(Text(b)) else None
      case None => None
  }

  /** `str(program_name)`, where the program is column 25 or Python's None. */
  function ProgramText(sh: Sheet, r: nat): string {
    if sh.width > 25 then Str(At(sh, r, 25)) else "None"
  }

  /** The number of rows in [lo, hi) whose column 17 equals `g`. */
  function CountBetween(sh: Sheet, g: Value, lo: nat, hi: nat): nat
    decreases hi
  {
    if hi <= lo then 0
    else CountBetween(sh, g, lo, hi - 1) + (if At(sh, hi - 1, 17) == Some(g) then 1 else 0)
  }

  /** `units`: the column-17 cells from row 6 on that equal the group, or 0
      when the sheet has no column 17 (the `except` branch). */
  function Units(sh: Sheet, g: Value): nat {
    if sh.width > 17 then CountBetween(sh, g, 6, |sh.rows|) else 0
  }

  /** The area of a record: the sheet's area with "/KIDS" appended when the
      program names KIDS and the area is not empty. */
  function AreaValue(areaName: string, program: string): string {
    if ExtractKeyword(program) == Some("KIDS") && areaName != "" then areaName + "/" + "KIDS"
    else areaName
  }

  /** The record built from an accepted row whose group is `g`. */
  function BuildRecord(sh: Sheet, m: Meta, r: nat, g: Value, toDatetime: string -> Option<ClockTime>): ScheduleModel.Schedule {
    var program := ProgramText(sh, r);
    var start := ExtractParenthesized(Str(At(sh, r, 0)));
    ScheduleModel.Schedule(
      FormatDate(m.date),
      DetermineShift(start, toDatetime),
      AreaValue(m.areaName, program),
      FormatTimePeriods(start),
      FormatTimePeriods(ExtractParenthesized(Str(At(sh, r, 3)))),
      Str(m.code),
      Str(m.instructor),
      Str(Some(g)),
      ExtractDuration(program).GetOr(""),
      Units(sh, g))
  }

  /** The record of data row r, or None when the row is skipped. */
  function RowRecord(sh: Sheet, m: Meta, r: nat, toDatetime: string -> Option<ClockTime>): (rec: Option<ScheduleModel.Schedule>)
    ensures rec.Some? ==> Present(At(sh, r, 0)) && Present(At(sh, r, 3)) && ResolvedGroup(sh, r).Some?
  {
    if !(Present(At(sh, r, 0)) && Present(At(sh, r, 3))) then None
    else
      match ResolvedGroup(sh, r)
      case None => None
      case Some(g) => Some(BuildRecord(sh, m, r, g, toDatetime))
  }

  /** The row outcomes of a sheet from row 6 on, in row order. */
  function DataRows(sh: Sheet, m: Meta, toDatetime: string -> Option<ClockTime>): (rs: seq<Option<ScheduleModel.Schedule>>)
    ensures |rs| == if |sh.rows| >= 6 then |sh.rows| - 6 else 0
    ensures forall i :: 0 <= i < |rs| ==> rs[i] == RowRecord(sh, m, 6 + i, toDatetime)
  {
    var n := if |sh.rows| >= 6 then |sh.rows| - 6 else 0;
    seq(n, i requires 0 <= i < n => RowRecord(sh, m, 6 + i, toDatetime))
  }

  /** The records of one sheet. */
  function SheetRecords(sh: Sheet, toDatetime: string -> Option<ClockTime>): seq<ScheduleModel.Schedule> {
    match SheetMeta(sh)
    case None => []
    case Some(m) => Somes(DataRows(sh, m, toDatetime))
  }

  /** The records of each sheet of a workbook. */
  function PerSheet(book: seq<Sheet>, toDatetime: string -> Option<ClockTime>): (rs: seq<seq<ScheduleModel.Schedule>>)
    ensures |rs| == |book|
    ensures forall i :: 0 <= i < |book| ==> rs[i] == SheetRecords(book[i], toDatetime)
  {
    seq(|book|, i requires 0 <= i < |book| => SheetRecords(book[i], toDatetime))
  }

  /** The records of a workbook, sheet after sheet. */
  function WorkbookRecords(book: seq<Sheet>, toDatetime: string -> Option<ClockTime>): seq<ScheduleModel.Schedule> {
    Flatten(PerSheet(book, toDatetime))
  }

  /** The per-sheet records of two runs of sheets are those of the first
      run followed by those of the second. */
  lemma PerSheetAppend(a: seq<Sheet>, b: seq<Sheet>, toDatetime: string -> Option<ClockTime>)
    ensures PerSheet(a + b, toDatetime) == PerSheet(a, toDatetime) + PerSheet(b, toDatetime)
  {
    var pa, pb, pab := PerSheet(a, toDatetime), PerSheet(b, toDatetime), PerSheet(a + b, toDatetime);
    forall i | 0 <= i < |pab| ensures pab[i] == (pa + pb)[i] {
      if i < |a| {
        assert (a + b)[i] == a[i];
      } else {
        assert (a + b)[i] == b[i - |a|];
      }
    }
    SeqExt(pab, pa + pb);
  }

  /** The column-17 count, `(df.iloc[6:][df.columns[17]] == group_name).sum()`. */
  method CountUnits(sh: Sheet, g: Value) returns (n: nat)
    ensures n == Units(sh, g)
  {
    n := 0;
    if sh.width > 17 {
      var k := 6;
      while k < |sh.rows|
        invariant 6 <= k && (k <= |sh.rows| || k == 6)
        invariant n == CountBetween(sh, g, 6, k)
      {
        if At(sh, k, 17) == Some(g) {
          n := n + 1;
        }
        k := k + 1;
      }
      if |sh.rows| < 6 {
        CountBetweenEmpty(sh, g, 6, |sh.rows|);
      }
    }
  }

  lemma CountBetweenEmpty(sh: Sheet, g: Value, lo: nat, hi: nat)
    requires hi <= lo
    ensures CountBetween(sh, g, lo, hi) == 0
  {}

  /** The body of the row loop: the record of row r, or None for `continue`. */
  method ParseRow(sh: Sheet, m: Meta, r: nat, toDatetime: string -> Option<ClockTime>)
    returns (record: Option<ScheduleModel.Schedule>)
    ensures record == RowRecord(sh, m, r, toDatetime)
  {
    var start := At(sh, r, 0);
    var end := At(sh, r, 3);
    var group := GroupCell(sh, r);
    var blockFiltered := BlockTag(sh, r);
    var program := ProgramText(sh, r);
    if !(Present(start) && Present(end)) {
      return None;
    }
    var groupName := group;
    if !Present(group) {
      if blockFiltered.Some? && Strip(blockFiltered.value) != "" {
        groupName := Some(Text(blockFiltered.value));
      } else {
        return None;
      }
    }
    assert groupName == ResolvedGroup(sh, r);
    var duration := ExtractDuration(program).GetOr("");
    var unitCount := CountUnits(sh, groupName.value);
    var startText := ExtractParenthesized(Str(start));
    var shift := DetermineShift(startText, toDatetime);
    var area := AreaValue(m.areaName, program);
    record := Some(ScheduleModel.Schedule(
      FormatDate(m.date), shift, area,
      FormatTimePeriods(startText),
      FormatTimePeriods(ExtractParenthesized(Str(end))),
      Str(m.code), Str(m.instructor), Str(groupName), duration, unitCount));
    assert record == Some(BuildRecord(sh, m, r, groupName.value, toDatetime));
  }

  lemma WorkbookSnoc(book: seq<Sheet>, i: nat, toDatetime: string -> Option<ClockTime>)
    requires i < |book|
    ensures WorkbookRecords(book[..i + 1], toDatetime) == WorkbookRecords(book[..i], toDatetime) + SheetRecords(book[i], toDatetime)
  {
    assert book[..i + 1] == book[..i] + [book[i]];
    PerSheetAppend(book[..i], [book[i]], toDatetime);
    FlattenSnoc(PerSheet(book[..i], toDatetime), SheetRecords(book[i], toDatetime));
  }

  /** The row loop of one sheet whose metadata was read. */
  method ParseSheet(sh: Sheet, m: Meta, toDatetime: string -> Option<ClockTime>) returns (records: seq<ScheduleModel.Schedule>)
    ensures records == Somes(DataRows(sh, m, toDatetime))
  {
    records := [];
    var r := 6;
    ghost var outcomes := DataRows(sh, m, toDatetime);
    while r < |sh.rows|
      invariant 6 <= r && r - 6 <= |outcomes|
      invariant records == Somes(outcomes[..r - 6])
    {
      var record := ParseRow(sh, m, r, toDatetime);
      RowStep(sh, m, toDatetime, r, record);
      records := records + AsSeq(record);
      r := r + 1;
    }
    assert outcomes[..r - 6] == outcomes;
  }

  /** One more row read adds its record, if any, to those before it. */
  lemma RowStep(sh: Sheet, m: Meta, toDatetime: string -> Option<ClockTime>, r: nat, record: Option<ScheduleModel.Schedule>)
    requires 6 <= r < |sh.rows| && record == RowRecord(sh, m, r, toDatetime)
    ensures Somes(DataRows(sh, m, toDatetime)[..r - 5]) == Somes(DataRows(sh, m, toDatetime)[..r - 6]) + AsSeq(record)
  {
    var outcomes := DataRows(sh, m, toDatetime);
    assert outcomes[r - 6] == record;
    TakeSnoc(outcomes, r - 6);
    SomesSnoc(outcomes[..r - 6], record);
  }

  /** `parse_excel_file`: a sheet whose metadata cannot be read is skipped. */
  method ParseExcelFile(book: seq<Sheet>, toDatetime: string -> Option<ClockTime>) returns (schedules: seq<ScheduleModel.Schedule>)
    ensures schedules == WorkbookRecords(book, toDatetime)
  {
    schedules := [];
    var i := 0;
    while i < |book|
      invariant i <= |book|
      invariant schedules == WorkbookRecords(book[..i], toDatetime)
    {
      var sh := book[i];
      WorkbookSnoc(book, i, toDatetime);
      var meta := SheetMeta(sh);
      if meta.Some? {
        var records := ParseSheet(sh, meta.value, toDatetime);
        schedules := schedules + records;
      }
      i := i + 1;
    }
    assert book[..|book|] == book;
  }

  // ------------------------------------------------------------- properties

  /** A data row yields a record exactly when its start and end are present
      and not blank and a group can be resolved, from column 17 or from a
      non-blank block tag that passed the filter. */
  lemma RowAcceptedIff(sh: Sheet, m: Meta, r: nat, toDatetime: string -> Option<ClockTime>)
    ensures RowRecord(sh, m, r, toDatetime).Some? <==>
      Present(At(sh, r, 0)) && Present(At(sh, r, 3))
      && (Present(GroupCell(sh, r)) || (BlockTag(sh, r).Some? && Strip(BlockTag(sh, r).value) != ""))
  {}

  /** A row whose column 17 is missing or blank takes as its group the text of
      its block cell, which contains none of the special tags. */
  lemma GroupFallback(sh: Sheet, m: Meta, r: nat, toDatetime: string -> Option<ClockTime>)
    requires RowRecord(sh, m, r, toDatetime).Some? && !Present(GroupCell(sh, r))
    ensures sh.width > 19 && At(sh, r, 19).Some?
    ensures RowRecord(sh, m, r, toDatetime).value.group == Str(At(sh, r, 19))
    ensures forall k :: 0 <= k < |SubstringTags| ==> !Contains(NormalizeTag(Str(At(sh, r, 19))), SubstringTags[k])
  {}

  lemma {:induction false} CountBetweenHit(sh: Sheet, g: Value, lo: nat, hi: nat, r: nat)
    requires lo <= r < hi && At(sh, r, 17) == Some(g)
    ensures CountBetween(sh, g, lo, hi) >= 1
    decreases hi
  {
    if r < hi - 1 {
      CountBetweenHit(sh, g, lo, hi - 1, r);
    }
  }

  lemma {:induction false} CountBetweenBound(sh: Sheet, g: Value, lo: nat, hi: nat)
    requires lo <= hi
    ensures CountBetween(sh, g, lo, hi) <= hi - lo
    decreases hi
  {
    if hi > lo {
      CountBetweenBound(sh, g, lo, hi - 1);
    }
  }

  /** When the group comes from column 17 the row counts itself, so `units`
      is at least 1; it never exceeds the number of data rows. */
  lemma UnitsBounds(sh: Sheet, m: Meta, r: nat, toDatetime: string -> Option<ClockTime>)
    requires 6 <= r < |sh.rows|
    requires RowRecord(sh, m, r, toDatetime).Some?
    ensures RowRecord(sh, m, r, toDatetime).value.units <= |sh.rows| - 6
    ensures Present(GroupCell(sh, r)) ==> RowRecord(sh, m, r, toDatetime).value.units >= 1
  {
    var g := ResolvedGroup(sh, r).value;
    CountBetweenBound(sh, g, 6, |sh.rows|);
    if Present(GroupCell(sh, r)) {
      CountBetweenHit(sh, g, 6, |sh.rows|, r);
    }
  }

  /** The area gets "/KIDS" exactly when the program names KIDS and the
      sheet's area is not empty; otherwise it is the sheet's area. */
  lemma AreaSuffix(areaName: string, program: string)
    ensures AreaValue(areaName, program) == areaName + "/KIDS" <==>
              ExtractKeyword(program) == Some("KIDS") && areaName != ""
    ensures AreaValue(areaName, program) != areaName + "/KIDS" ==> AreaValue(areaName, program) == areaName
  {
    if AreaValue(areaName, program) == areaName + "/KIDS" {
      assert |AreaValue(areaName, program)| != |areaName|;
    }
  }

  /** The sheet's area is an area keyword or empty. */
  lemma MetaAreaName(sh: Sheet)
    requires SheetMeta(sh).Some?
    ensures SheetMeta(sh).value.areaName == "" || SheetMeta(sh).value.areaName in AreaKeywords
  {}

  /** The fields every record carries: a date in `DD/MM/YYYY` form when the
      date cell is a timestamp, one of the two shift labels, a duration of
      "30" or "45", and start and end times without "a.m." or "p.m.". */
  lemma RecordFields(sh: Sheet, m: Meta, r: nat, toDatetime: string -> Option<ClockTime>)
    requires RowRecord(sh, m, r, toDatetime).Some?
    ensures var s := RowRecord(sh, m, r, toDatetime).value;
      && (s.shift == MorningShift || s.shift == AfternoonShift)
      && (s.minutes == "30" || s.minutes == "45")
      && !Contains(s.startTime, "a.m.") && !Contains(s.startTime, "p.m.")
      && !Contains(s.endTime, "a.m.") && !Contains(s.endTime, "p.m.")
      && (m.date.Some? && m.date.value.Stamp? ==> |s.date| == 10 && s.date[2] == '/' && s.date[5] == '/')
  {
    if m.date.Some? && m.date.value.Stamp? {
      FormatDateFields(m.date.value.date, m.date.value.repr);
    }
  }

  /** The records of a sheet are exactly the records of its data rows (index
      6 on), and there are no more records than data rows. */
  lemma SheetRecordsFromDataRows(sh: Sheet, toDatetime: string -> Option<ClockTime>)
    requires SheetMeta(sh).Some?
    ensures |sh.rows| >= 6 ==> |SheetRecords(sh, toDatetime)| <= |sh.rows| - 6
    ensures |sh.rows| < 6 ==> SheetRecords(sh, toDatetime) == []
    ensures forall s :: s in SheetRecords(sh, toDatetime) <==>
              exists r :: 6 <= r < |sh.rows| && RowRecord(sh, SheetMeta(sh).value, r, toDatetime) == Some(s)
  {
    var m := SheetMeta(sh).value;
    var outcomes := DataRows(sh, m, toDatetime);
    SomesLength(outcomes);
    SomesMembers(outcomes);
    forall s ensures s in SheetRecords(sh, toDatetime) <==>
              exists r :: 6 <= r < |sh.rows| && RowRecord(sh, m, r, toDatetime) == Some(s)
    {
      if s in SheetRecords(sh, toDatetime) {
        var i :| 0 <= i < |outcomes| && outcomes[i] == Some(s);
        assert RowRecord(sh, m, 6 + i, toDatetime) == Some(s);
      }
      if exists r :: 6 <= r < |sh.rows| && RowRecord(sh, m, r, toDatetime) == Some(s) {
        var r :| 6 <= r < |sh.rows| && RowRecord(sh, m, r, toDatetime) == Some(s);
        assert outcomes[r - 6] == Some(s);
      }
    }
  }

  /** The records of a workbook are those of its first sheets followed by
      those of the rest. */
  lemma WorkbookAppend(a: seq<Sheet>, b: seq<Sheet>, toDatetime: string -> Option<ClockTime>)
    ensures WorkbookRecords(a + b, toDatetime) == WorkbookRecords(a, toDatetime) + WorkbookRecords(b, toDatetime)
  {
    PerSheetAppend(a, b, toDatetime);
    FlattenAppend(PerSheet(a, toDatetime), PerSheet(b, toDatetime));
  }

  /** A sheet that is skipped contributes nothing, and the sheets after it
      are still read. */
  lemma SkippedSheet(a: seq<Sheet>, sh: Sheet, b: seq<Sheet>, toDatetime: string -> Option<ClockTime>)
    requires SheetMeta(sh).None?
    ensures WorkbookRecords(a + [sh] + b, toDatetime) == WorkbookRecords(a, toDatetime) + WorkbookRecords(b, toDatetime)
  {
    WorkbookAppend(a + [sh], b, toDatetime);
    SkippedLast(a, sh, toDatetime);
  }

  lemma SkippedLast(a: seq<Sheet>, sh: Sheet, toDatetime: string -> Option<ClockTime>)
    requires SheetMeta(sh).None?
    ensures WorkbookRecords(a + [sh], toDatetime) == WorkbookRecords(a, toDatetime)
  {
    PerSheetAppend(a, [sh], toDatetime);
    assert PerSheet([sh], toDatetime) == [[]];
    FlattenSnoc(PerSheet(a, toDatetime), []);
  }
}
