/** `process_excel_file` of app/routes.py, app/utils/functions.py,
    app/utils/process.py and app.py. The four copies read the same cells and
    build the same rows; app.py collects each sheet's rows in a buffer and
    uses the `determine_shift_by_time` without a fallback (`strictShift`).
    Any exception aborts the whole file. */
module LegacyParser {
  import opened Wrappers
  import opened Strings
  import opened Heuristics
  import opened Sheets
  import opened Outcomes

  /** The exceptions the legacy extractor can raise. */
  datatype LegacyError =
    | IndexOutOfRange  // `df.iat` or `row.iloc[25]` past the sheet
    | NoStrftime       // the date cell is not a timestamp
    | ShiftUnparsed    // app.py: `pd.to_datetime` of the start time failed

  /** A row as the legacy extractor builds it: the code, instructor and group
      are the raw cells, and the area may be Python's None. */
  datatype LegacyRow = LegacyRow(
    date: string,
    shift: string,
    area: Option<string>,
    startTime: string,
    endTime: string,
    code: Cell,
    instructor: Cell,
    group: Value,
    minutes: string,
    units: nat)

  datatype LegacyMeta = LegacyMeta(date: Cell, areaName: Option<string>, instructor: Cell, code: Cell)

  /** The four `df.iat` reads, which raise when out of range. */
  function LegacyMetaOf(sh: Sheet): (r: Result<LegacyMeta, LegacyError>)
    ensures r.Ok? <==> |sh.rows| >= 5 && sh.width >= 22
    ensures r.Err? ==> r.error == IndexOutOfRange
  {
    if !(InRange(sh, 0, 14) && InRange(sh, 0, 21) && InRange(sh, 4, 0) && InRange(sh, 3, 0)) then Err(IndexOutOfRange)
    else Ok(LegacyMeta(At(sh, 0, 14), ExtractKeyword(Str(At(sh, 0, 21))), At(sh, 4, 0), At(sh, 3, 0)))
  }

  /** `pd.notnull(value) and value != ""`: no strip. */
  predicate Filled(c: Cell) {
    c.Some? && c.value != Text("")
  }

  /** `f"{area_name}/KIDS"` when the program names KIDS, where a missing area
      prints as "None"; otherwise the area as it is. */
  function LegacyArea(areaName: Option<string>, program: string): Option<string> {
    if ExtractKeyword(program) == Some("KIDS") then Some(areaName.GetOr("None") + "/KIDS")
    else areaName
  }

  /** The outcome of data row r: an exception, a skipped row, or a row. */
  function LegacyRowOutcome(sh: Sheet, m: LegacyMeta, r: nat, toDatetime: string -> Option<ClockTime>, strictShift: bool)
    : (out: Result<Option<LegacyRow>, LegacyError>)
    ensures out == Err(IndexOutOfRange) <==> sh.width <= 25
    ensures out == Err(ShiftUnparsed) ==> strictShift
  {
    var start, end, group, program := At(sh, r, 0), At(sh, r, 3), At(sh, r, 17), At(sh, r, 25);
    if sh.width <= 25 then Err(IndexOutOfRange)
    else if !(Filled(start) && Filled(end) && Filled(group) && Filled(program)) then Ok(None)
    else
      var startText := ExtractParenthesized(Str(start));
      var shift := if strictShift then DetermineShiftStrict(startText, toDatetime) else Some(DetermineShift(startText, toDatetime));
      if shift.None? then Err(ShiftUnparsed)
      else if !(m.date.Some? && m.date.value.Stamp?) then Err(NoStrftime)
      else
        Ok(Some(LegacyRow(
          FormatDate(m.date),
          shift.value,
          LegacyArea(m.areaName, Str(program)),
          FormatTimePeriods(startText),
          FormatTimePeriods(ExtractParenthesized(Str(end))),
          m.code,
          m.instructor,
          group.value,
          ExtractDuration(Str(program)).GetOr(""),
          LegacyUnits(sh, group.value))))
  }

  /** `sum(df.iloc[6:][df.columns[17]] == group_name)`. */
  function LegacyUnits(sh: Sheet, g: Value): nat
    decreases |sh.rows|
  {
    CountFrom(sh, g, 6, |sh.rows|)
  }

  /** The number of rows in [lo, hi) whose column 17 equals `g`. */
  function CountFrom(sh: Sheet, g: Value, lo: nat, hi: nat): nat
    decreases hi
  {
    if hi <= lo then 0
    else CountFrom(sh, g, lo, hi - 1) + (if At(sh, hi - 1, 17) == Some(g) then 1 else 0)
  }

  /** The row outcomes of a sheet from row 6 on. */
  function LegacyDataRows(sh: Sheet, m: LegacyMeta, toDatetime: string -> Option<ClockTime>, strictShift: bool)
    : (rs: seq<Result<Option<LegacyRow>, LegacyError>>)
    ensures |rs| == if |sh.rows| >= 6 then |sh.rows| - 6 else 0
    ensures forall i :: 0 <= i < |rs| ==> rs[i] == LegacyRowOutcome(sh, m, 6 + i, toDatetime, strictShift)
  {
    var n := if |sh.rows| >= 6 then |sh.rows| - 6 else 0;
    seq(n, i requires 0 <= i < n => LegacyRowOutcome(sh, m, 6 + i, toDatetime, strictShift))
  }

  /** The rows of one sheet, or the first exception. */
  function LegacySheet(sh: Sheet, toDatetime: string -> Option<ClockTime>, strictShift: bool): Result<seq<LegacyRow>, LegacyError> {
    match LegacyMetaOf(sh)
    case Err(e) => Err(e)
    case Ok(m) => Gather(LegacyDataRows(sh, m, toDatetime, strictShift))
  }

  /** The per-sheet outcomes of a workbook. */
  function LegacySheets(book: seq<Sheet>, toDatetime: string -> Option<ClockTime>, strictShift: bool)
    : (rs: seq<Result<seq<LegacyRow>, LegacyError>>)
    ensures |rs| == |book|
    ensures forall i :: 0 <= i < |book| ==> rs[i] == LegacySheet(book[i], toDatetime, strictShift)
  {
    seq(|book|, i requires 0 <= i < |book| => LegacySheet(book[i], toDatetime, strictShift))
  }

  /** The rows of a workbook, sheet after sheet, or the first exception. */
  function LegacyWorkbook(book: seq<Sheet>, toDatetime: string -> Option<ClockTime>, strictShift: bool): Result<seq<LegacyRow>, LegacyError> {
    Concat(LegacySheets(book, toDatetime, strictShift))
  }

  /** The loop body for one row. */
  method LegacyParseRow(sh: Sheet, m: LegacyMeta, r: nat, toDatetime: string -> Option<ClockTime>, strictShift: bool)
    returns (outcome: Result<Option<LegacyRow>, LegacyError>)
    ensures outcome == LegacyRowOutcome(sh, m, r, toDatetime, strictShift)
  {
    if sh.width <= 25 {
      return Err(IndexOutOfRange);
    }
    var start, end, group, program := At(sh, r, 0), At(sh, r, 3), At(sh, r, 17), At(sh, r, 25);
    if !(Filled(start) && Filled(end) && Filled(group) && Filled(program)) {
      return Ok(None);
    }
    var duration := ExtractDuration(Str(program)).GetOr("");
    var unitCount := LegacyUnits(sh, group.value);
    var startText := ExtractParenthesized(Str(start));
    var shift: string;
    if strictShift {
      var parsed := DetermineShiftStrict(startText, toDatetime);
      if parsed.None? {
        return Err(ShiftUnparsed);
      }
      shift := parsed.value;
    } else {
      shift := DetermineShift(startText, toDatetime);
    }
    var area := LegacyArea(m.areaName, Str(program));
    if !(m.date.Some? && m.date.value.Stamp?) {
      return Err(NoStrftime);
    }
    outcome := Ok(Some(LegacyRow(
      FormatDate(m.date), shift, area,
      FormatTimePeriods(startText),
      FormatTimePeriods(ExtractParenthesized(Str(end))),
      m.code, m.instructor, group.value, duration, unitCount)));
  }

  /** The row loop of one sheet, collecting into the sheet's buffer
      (`processed_data` in app.py). */
  method LegacyParseSheet(sh: Sheet, m: LegacyMeta, toDatetime: string -> Option<ClockTime>, strictShift: bool)
    returns (result: Result<seq<LegacyRow>, LegacyError>)
    ensures result == Gather(LegacyDataRows(sh, m, toDatetime, strictShift))
  {
    ghost var outcomes := LegacyDataRows(sh, m, toDatetime, strictShift);
    var processed := [];
    var r := 6;
    while r < |sh.rows|
      invariant 6 <= r && r - 6 <= |outcomes|
      invariant Gather(outcomes[..r - 6]) == Ok(processed)
    {
      var outcome := LegacyParseRow(sh, m, r, toDatetime, strictShift);
      assert outcomes[r - 6] == outcome;
      TakeSnoc(outcomes, r - 6);
      GatherSnoc(outcomes[..r - 6], outcome);
      if outcome.Err? {
        GatherErrStops(outcomes, r - 5);
        return Err(outcome.error);
      }
      processed := processed + AsSeq(outcome.value);
      r := r + 1;
    }
    assert outcomes[..r - 6] == outcomes;
    return Ok(processed);
  }

  /** One iteration of the sheet loop: the metadata reads, then the rows. */
  method LegacyReadSheet(sh: Sheet, toDatetime: string -> Option<ClockTime>, strictShift: bool)
    returns (outcome: Result<seq<LegacyRow>, LegacyError>)
    ensures outcome == LegacySheet(sh, toDatetime, strictShift)
  {
    var meta := LegacyMetaOf(sh);
    if meta.Err? {
      return Err(meta.error);
    }
    outcome := LegacyParseSheet(sh, meta.value, toDatetime, strictShift);
  }

  /** `process_excel_file`. */
  method ProcessExcelFile(book: seq<Sheet>, toDatetime: string -> Option<ClockTime>, strictShift: bool)
    returns (result: Result<seq<LegacyRow>, LegacyError>)
    ensures result == LegacyWorkbook(book, toDatetime, strictShift)
  {
    ghost var sheets := LegacySheets(book, toDatetime, strictShift);
    var allSchedules := [];
    var i := 0;
    while i < |book|
      invariant i <= |book|
      invariant Concat(sheets[..i]) == Ok(allSchedules)
    {
      TakeSnoc(sheets, i);
      var outcome := LegacyReadSheet(book[i], toDatetime, strictShift);
      assert sheets[i] == outcome;
      ConcatSnoc(sheets[..i], outcome);
      if outcome.Err? {
        ConcatErrStops(sheets, i + 1);
        return Err(outcome.error);
      }
      allSchedules := allSchedules + outcome.value;
      i := i + 1;
    }
    assert sheets[..i] == sheets;
    return Ok(allSchedules);
  }

  /** Once a prefix of a scan has raised, the scan reports that error. */
  lemma {:induction false} GatherErrStops<T, E>(xs: seq<Result<Option<T>, E>>, k: nat)
    requires k <= |xs| && Gather(xs[..k]).Err?
    ensures Gather(xs) == Gather(xs[..k])
    decreases |xs| - k
  {
    if k < |xs| {
      TakeSnoc(xs, k);
      GatherSnoc(xs[..k], xs[k]);
      GatherErrStops(xs, k + 1);
    } else {
      assert xs[..k] == xs;
    }
  }

  lemma {:induction false} ConcatErrStops<T, E>(xs: seq<Result<seq<T>, E>>, k: nat)
    requires k <= |xs| && Concat(xs[..k]).Err?
    ensures Concat(xs) == Concat(xs[..k])
    decreases |xs| - k
  {
    if k < |xs| {
      TakeSnoc(xs, k);
      ConcatSnoc(xs[..k], xs[k]);
      ConcatErrStops(xs, k + 1);
    } else {
      assert xs[..k] == xs;
    }
  }

  // ------------------------------------------------------------- properties

  /** A data row is skipped exactly when the row can be read and one of
      start, end, group and program is NaN or the empty string (a blank
      string is kept); it yields a row exactly when all four are filled, the
      shift can be determined and the date cell is a timestamp. */
  lemma LegacyRowAccepted(sh: Sheet, m: LegacyMeta, r: nat, toDatetime: string -> Option<ClockTime>, strictShift: bool)
    ensures LegacyRowOutcome(sh, m, r, toDatetime, strictShift) == Ok(None) <==>
      sh.width > 25 && !(Filled(At(sh, r, 0)) && Filled(At(sh, r, 3)) && Filled(At(sh, r, 17)) && Filled(At(sh, r, 25)))
    ensures (LegacyRowOutcome(sh, m, r, toDatetime, strictShift).Ok? && LegacyRowOutcome(sh, m, r, toDatetime, strictShift).value.Some?) <==>
      sh.width > 25 && Filled(At(sh, r, 0)) && Filled(At(sh, r, 3)) && Filled(At(sh, r, 17)) && Filled(At(sh, r, 25))
      && (strictShift ==> toDatetime(ExtractParenthesized(Str(At(sh, r, 0)))).Some?)
      && m.date.Some? && m.date.value.Stamp?
  {}

  /** A blank but non-empty cell passes the legacy test and fails the
      maintained one, which strips. */
  lemma BlankIsFilled(t: string)
    requires t != "" && AllSpace(t)
    ensures Filled(Some(Text(t))) && !Present(Some(Text(t)))
  {
    StripEmptyIff(t);
  }

  /** The area gets "/KIDS" whenever the program names KIDS, even when the
      location named no area; then it reads "None/KIDS". */
  lemma LegacyAreaKids(areaName: Option<string>, program: string)
    ensures ExtractKeyword(program) == Some("KIDS") ==> LegacyArea(areaName, program) == Some(areaName.GetOr("None") + "/KIDS")
    ensures ExtractKeyword(program) != Some("KIDS") ==> LegacyArea(areaName, program) == areaName
    ensures ExtractKeyword(program) == Some("KIDS") && areaName.None? ==> LegacyArea(areaName, program) == Some("None/KIDS")
  {
    assert "None" + "/KIDS" == "None/KIDS";
  }

  lemma {:induction false} CountFromHit(sh: Sheet, g: Value, lo: nat, hi: nat, r: nat)
    requires lo <= r < hi && At(sh, r, 17) == Some(g)
    ensures CountFrom(sh, g, lo, hi) >= 1
    decreases hi
  {
    if r < hi - 1 {
      CountFromHit(sh, g, lo, hi - 1, r);
    }
  }

  /** Every row built carries a duration of "30" or "45", one of the two
      shift labels, a `DD/MM/YYYY` date, and at least one unit (its own
      group cell). */
  lemma LegacyRowFields(sh: Sheet, m: LegacyMeta, r: nat, toDatetime: string -> Option<ClockTime>, strictShift: bool)
    requires 6 <= r < |sh.rows|
    requires LegacyRowOutcome(sh, m, r, toDatetime, strictShift).Ok?
    requires LegacyRowOutcome(sh, m, r, toDatetime, strictShift).value.Some?
    ensures var row := LegacyRowOutcome(sh, m, r, toDatetime, strictShift).value.value;
      && (row.minutes == "30" || row.minutes == "45")
      && (row.shift == MorningShift || row.shift == AfternoonShift)
      && |row.date| == 10 && row.date[2] == '/' && row.date[5] == '/'
      && row.units >= 1
  {
    FormatDateFields(m.date.value.date, m.date.value.repr);
    CountFromHit(sh, At(sh, r, 17).value, 6, |sh.rows|, r);
  }

  /** A row that app.py builds is the row the other copies build. */
  lemma StrictRowAgrees(sh: Sheet, m: LegacyMeta, r: nat, toDatetime: string -> Option<ClockTime>)
    requires LegacyRowOutcome(sh, m, r, toDatetime, true).Ok?
    ensures LegacyRowOutcome(sh, m, r, toDatetime, false) == LegacyRowOutcome(sh, m, r, toDatetime, true)
  {}

  lemma StrictRowsAgree(sh: Sheet, m: LegacyMeta, toDatetime: string -> Option<ClockTime>)
    requires Gather(LegacyDataRows(sh, m, toDatetime, true)).Ok?
    ensures LegacyDataRows(sh, m, toDatetime, false) == LegacyDataRows(sh, m, toDatetime, true)
  {
    var strict := LegacyDataRows(sh, m, toDatetime, true);
    var lax := LegacyDataRows(sh, m, toDatetime, false);
    GatherOkIff(strict);
    forall i | 0 <= i < |strict| ensures lax[i] == strict[i] {
      assert strict[i].Ok?;
      assert strict[i] == LegacyRowOutcome(sh, m, 6 + i, toDatetime, true);
      StrictRowAgrees(sh, m, 6 + i, toDatetime);
    }
    SeqExt(lax, strict);
  }

  lemma StrictSheetAgrees(sh: Sheet, toDatetime: string -> Option<ClockTime>)
    requires LegacySheet(sh, toDatetime, true).Ok?
    ensures LegacySheet(sh, toDatetime, false) == LegacySheet(sh, toDatetime, true)
  {
    var m := LegacyMetaOf(sh).value;
    assert LegacySheet(sh, toDatetime, true) == Gather(LegacyDataRows(sh, m, toDatetime, true));
    StrictRowsAgree(sh, m, toDatetime);
  }

  /** When app.py's extractor succeeds, the other copies produce the same
      rows; so whenever they raise, app.py's raises too. */
  lemma StrictAgrees(book: seq<Sheet>, toDatetime: string -> Option<ClockTime>)
    requires LegacyWorkbook(book, toDatetime, true).Ok?
    ensures LegacyWorkbook(book, toDatetime, false) == LegacyWorkbook(book, toDatetime, true)
  {
    var strict := LegacySheets(book, toDatetime, true);
    var lax := LegacySheets(book, toDatetime, false);
    ConcatOkIff(strict);
    forall i | 0 <= i < |book| ensures lax[i] == strict[i] {
      StrictSheetAgrees(book[i], toDatetime);
    }
    SeqExt(lax, strict);
  }

  lemma LaxRowNoShiftError(sh: Sheet, m: LegacyMeta, r: nat, toDatetime: string -> Option<ClockTime>)
    ensures LegacyRowOutcome(sh, m, r, toDatetime, false) != Err(ShiftUnparsed)
  {}

  lemma {:induction false} LaxSheetNoShiftError(sh: Sheet, toDatetime: string -> Option<ClockTime>)
    ensures LegacySheet(sh, toDatetime, false) != Err(ShiftUnparsed)
  {
    if LegacyMetaOf(sh).Ok? && LegacySheet(sh, toDatetime, false).Err? {
      var m := LegacyMetaOf(sh).value;
      var rows := LegacyDataRows(sh, m, toDatetime, false);
      GatherErrFrom(rows);
      var i :| 0 <= i < |rows| && rows[i] == Err(Gather(rows).error);
      LaxRowNoShiftError(sh, m, 6 + i, toDatetime);
    }
  }

  /** Only app.py's copy can fail on an unparseable start time. */
  lemma LaxNoShiftError(book: seq<Sheet>, toDatetime: string -> Option<ClockTime>)
    ensures LegacyWorkbook(book, toDatetime, false) != Err(ShiftUnparsed)
  {
    var sheets := LegacySheets(book, toDatetime, false);
    if Concat(sheets) == Err(ShiftUnparsed) {
      ConcatErrSource(sheets);
      var i :| 0 <= i < |sheets| && sheets[i] == Err(ShiftUnparsed);
      LaxSheetNoShiftError(book[i], toDatetime);
    }
  }

  lemma {:induction false} ConcatErrSource<T, E>(xs: seq<Result<seq<T>, E>>)
    requires Concat(xs).Err?
    ensures exists i :: 0 <= i < |xs| && xs[i] == Err(Concat(xs).error)
    decreases |xs|
  {
    var init := xs[..|xs| - 1];
    if Concat(init).Err? {
      ConcatErrSource(init);
      var i :| 0 <= i < |init| && init[i] == Err(Concat(init).error);
      assert xs[i] == init[i];
    } else {
      assert xs[|xs| - 1] == Err(Concat(xs).error);
    }
  }

  /** A sheet whose metadata cells are out of range (an empty sheet among
      them) makes the whole file fail, whatever the other sheets hold. */
  lemma ShortSheetAborts(a: seq<Sheet>, sh: Sheet, b: seq<Sheet>, toDatetime: string -> Option<ClockTime>, strictShift: bool)
    requires |sh.rows| < 5 || sh.width < 22
    ensures LegacyWorkbook(a + [sh] + b, toDatetime, strictShift).Err?
  {
    var sheets := LegacySheets(a + [sh] + b, toDatetime, strictShift);
    assert (a + [sh] + b)[|a|] == sh;
    assert sheets[|a|].Err?;
    ConcatOkIff(sheets);
  }

  /** The rows of two workbooks read one after the other are the rows of
      the first followed by those of the second. */
  lemma LegacyWorkbookAppend(a: seq<Sheet>, b: seq<Sheet>, toDatetime: string -> Option<ClockTime>, strictShift: bool)
    requires LegacyWorkbook(a, toDatetime, strictShift).Ok? && LegacyWorkbook(b, toDatetime, strictShift).Ok?
    ensures LegacyWorkbook(a + b, toDatetime, strictShift) ==
      Ok(LegacyWorkbook(a, toDatetime, strictShift).value + LegacyWorkbook(b, toDatetime, strictShift).value)
  {
    var sa, sb := LegacySheets(a, toDatetime, strictShift), LegacySheets(b, toDatetime, strictShift);
    var sab := LegacySheets(a + b, toDatetime, strictShift);
    forall i | 0 <= i < |sab| ensures sab[i] == (sa + sb)[i] {
      if i < |a| {
        assert (a + b)[i] == a[i];
      } else {
        assert (a + b)[i] == b[i - |a|];
      }
    }
    SeqExt(sab, sa + sb);
    ConcatAppend(sa, sb);
  }
}
