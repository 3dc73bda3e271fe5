/** The row-deletion step of `download_processed` in app/routes.py and
    app.py: the form field `selected_rows` is parsed into indices, and every
    record whose position is not listed is kept, in order. */
module Download {
  import opened Wrappers
  import opened Strings
  import ScheduleModel
  import opened Outcomes

  datatype ParseError = InvalidLiteral(piece: string)

  /** The digits of a numeral: the text after an optional leading sign. */
  function Unsigned(t: string): (r: string)
    ensures |r| >= |t| - 1
  {
    if |t| > 0 && (t[0] == '+' || t[0] == '-') then t[1..] else t
  }

  /** An optionally signed, non-empty run of decimal digits. */
  predicate IsNumeral(t: string) {
    |Unsigned(t)| > 0 && AllDigits(Unsigned(t))
  }

  /** The value a numeral denotes: its digits, negated after a `-`. */
  function NumeralValue(t: string): int
    requires IsNumeral(t)
  {
    if t[0] == '-' then 0 - DigitsValue(Unsigned(t)) else DigitsValue(Unsigned(t))
  }

  /** Python's `int(piece)` on a string: surrounding whitespace, an optional
      sign, then at least one decimal digit. */
  function PyInt(piece: string): (r: Result<int, ParseError>)
    ensures r.Ok? <==> IsNumeral(Strip(piece))
    ensures r.Ok? ==> r.value == NumeralValue(Strip(piece))
    ensures r.Err? ==> r.error == InvalidLiteral(piece)
  {
    var t := Strip(piece);
    if |t| > 0 && (t[0] == '+' || t[0] == '-') then
      if |t| > 1 && AllDigits(t[1..]) then
        Ok(if t[0] == '-' then 0 - DigitsValue(t[1..]) else DigitsValue(t[1..]))
      else Err(InvalidLiteral(piece))
    else if |t| > 0 && AllDigits(t) then Ok(DigitsValue(t))
    else Err(InvalidLiteral(piece))
  }

  /** A minus sign before the notation of `n` reads as `-n`, and a plus sign
      as `n`. */
  lemma SignedNotationParses(n: nat)
    ensures PyInt("-" + NatToString(n)) == Ok(0 - n)
    ensures PyInt("+" + NatToString(n)) == Ok(n as int)
  {
    SignParses('-', n);
    SignParses('+', n);
  }

  /** One sign character before the notation of `n`. */
  lemma SignParses(sign: char, n: nat)
    requires sign == '-' || sign == '+'
    ensures PyInt([sign] + NatToString(n)) == Ok(if sign == '-' then 0 - n else n)
  {
    var t := NatToString(n);
    var s := [sign] + t;
    NatToStringValue(n);
    assert IsDigit(t[|t| - 1]);
    assert s[1..] == t;
    StripKeeps(s);
    assert Unsigned(s) == t;
  }

  /** The indices sent in `selected_rows`: none for an empty string, otherwise
      `list(map(int, ...))` of the comma-separated pieces, which raises at
      the first piece that is not a number. */
  function ParseIndices(selected: string): (r: Result<seq<int>, ParseError>)
    ensures selected == "" ==> r == Ok([])
    ensures selected != "" ==> r == MapAll(Split(selected, ','), PyInt)
  {
    if selected == "" then Ok([]) else MapAll(Split(selected, ','), PyInt)
  }

  /** `[row for idx, row in enumerate(records) if idx not in deleted]`. */
  function KeepUndeleted<T>(records: seq<T>, deleted: seq<int>): seq<T>
    decreases |records|
  {
    if records == [] then []
    else
      var n := |records| - 1;
      KeepUndeleted(records[..n], deleted) + (if n in deleted then [] else [records[n]])
  }

  /** Deleting only removes records: every kept record was stored, and no
      record is kept more often than it was stored. */
  lemma {:induction false} KeepUndeletedSubmultiset<T>(records: seq<T>, deleted: seq<int>)
    ensures multiset(KeepUndeleted(records, deleted)) <= multiset(records)
    decreases |records|
  {
    if records != [] {
      var n := |records| - 1;
      KeepUndeletedSubmultiset(records[..n], deleted);
      assert records == records[..n] + [records[n]];
    }
  }

  /** The positions below `n` that are not listed, in increasing order. */
  function KeptPositions(n: nat, deleted: seq<int>): (r: seq<nat>)
    ensures forall j :: 0 <= j < |r| ==> r[j] < n && r[j] !in deleted
    ensures forall i :: 0 <= i < n && i !in deleted ==> i in r
    ensures forall j, k :: 0 <= j < k < |r| ==> r[j] < r[k]
    decreases n
  {
    if n == 0 then []
    else KeptPositions(n - 1, deleted) + (if n - 1 in deleted then [] else [n - 1])
  }

  /** The kept records are the records at the kept positions: exactly the
      positions not listed, in their original order. */
  lemma {:induction false} KeepUndeletedPositions<T>(records: seq<T>, deleted: seq<int>)
    ensures |KeepUndeleted(records, deleted)| == |KeptPositions(|records|, deleted)|
    ensures forall j :: 0 <= j < |KeptPositions(|records|, deleted)| ==>
      KeepUndeleted(records, deleted)[j] == records[KeptPositions(|records|, deleted)[j]]
    decreases |records|
  {
    if records != [] {
      var n := |records| - 1;
      var init := records[..n];
      KeepUndeletedPositions(init, deleted);
      var prev, kept := KeptPositions(n, deleted), KeepUndeleted(init, deleted);
      if n in deleted {
        assert KeptPositions(|records|, deleted) == prev;
        assert KeepUndeleted(records, deleted) == kept;
      } else {
        assert KeptPositions(|records|, deleted) == prev + [n];
        assert KeepUndeleted(records, deleted) == kept + [records[n]];
      }
    }
  }

  /** A position is kept exactly when it is not listed. */
  lemma KeptIff(n: nat, deleted: seq<int>, i: nat)
    requires i < n
    ensures i in KeptPositions(n, deleted) <==> i !in deleted
  {
    var r := KeptPositions(n, deleted);
    if i in r {
      var j :| 0 <= j < |r| && r[j] == i;
      assert r[j] !in deleted;
    }
  }

  /** Listing no index keeps every record. */
  lemma {:induction false} KeepAll<T>(records: seq<T>, deleted: seq<int>)
    requires forall i :: 0 <= i < |records| ==> i !in deleted
    ensures KeepUndeleted(records, deleted) == records
    decreases |records|
  {
    if records != [] {
      var n := |records| - 1;
      KeepAll(records[..n], deleted);
      assert records[..n] + [records[n]] == records;
    }
  }

  /** An index outside the records (negative or too large) changes nothing. */
  lemma {:induction false} IgnoresOutOfRange<T>(records: seq<T>, deleted: seq<int>, x: int)
    requires x < 0 || x >= |records|
    ensures KeepUndeleted(records, deleted + [x]) == KeepUndeleted(records, deleted)
    decreases |records|
  {
    if records != [] {
      var n := |records| - 1;
      IgnoresOutOfRange(records[..n], deleted, x);
      assert n in deleted + [x] <==> n in deleted;
    }
  }

  /** Never more records than were stored. */
  lemma {:induction false} KeepUndeletedShorter<T>(records: seq<T>, deleted: seq<int>)
    ensures |KeepUndeleted(records, deleted)| <= |records|
    ensures |KeepUndeleted(records, deleted)| == |records| <==> forall i :: 0 <= i < |records| ==> i !in deleted
    decreases |records|
  {
    if records != [] {
      var n := |records| - 1;
      KeepUndeletedShorter(records[..n], deleted);
    }
  }

  /** Deleting position 1 from three records keeps the first and the third. */
  lemma DeleteMiddle<T>(a: T, b: T, c: T)
    ensures KeepUndeleted([a, b, c], [1]) == [a, c]
  {
    assert [a, b, c][..2] == [a, b];
    assert [a, b][..1] == [a];
    assert [a][..0] == [];
    assert KeepUndeleted([a], [1]) == [a];
    assert KeepUndeleted([a, b], [1]) == [a];
  }

  /** The decimal notations of a list of positions. */
  function Notations(indices: seq<nat>): (r: seq<string>)
    ensures |r| == |indices|
    ensures forall k :: 0 <= k < |r| ==> r[k] == NatToString(indices[k])
  {
    seq(|indices|, k requires 0 <= k < |indices| => NatToString(indices[k]))
  }

  /** The notation of a position has no comma and reads back as it. */
  lemma NotationParses(n: nat)
    ensures ',' !in NatToString(n)
    ensures PyInt(NatToString(n)) == Ok(n as int)
  {
    var t := NatToString(n);
    NatToStringValue(n);
    assert IsDigit(t[0]) && IsDigit(t[|t| - 1]);
    StripKeeps(t);
    assert t[0] != '+' && t[0] != '-';
    assert forall i :: 0 <= i < |t| ==> t[i] != ',';
  }

  /** A non-empty join of notations is not the empty string. */
  lemma JoinNotEmpty(parts: seq<string>)
    requires |parts| > 0 && |parts[0]| > 0
    ensures Join(parts, ",") != ""
  {
    if |parts| > 1 {
      assert Join(parts, ",") == parts[0] + "," + Join(parts[1..], ",");
    }
  }

  /** Positions written out joined by commas parse back to the same
      positions. */
  lemma IndicesRoundTrip(indices: seq<nat>)
    requires |indices| > 0
    ensures ParseIndices(Join(Notations(indices), ",")) == Ok(indices)
  {
    var parts := Notations(indices);
    forall k | 0 <= k < |parts|
      ensures ',' !in parts[k]
      ensures PyInt(parts[k]) == Ok(indices[k] as int)
    {
      NotationParses(indices[k]);
    }
    var s := Join(parts, ",");
    SplitJoin(parts, ',');
    assert [','] == ",";
    assert Split(s, ',') == parts;
    NatToStringValue(indices[0]);
    JoinNotEmpty(parts);
    MapAllValues(parts, PyInt, indices);
  }

  /** The form value "1" lists position 1. */
  lemma ParseSingleIndex(selected: string)
    requires selected == "1"
    ensures ParseIndices(selected) == Ok([1])
  {
    IndicesRoundTrip([1]);
    assert NatToString(1) == selected;
    assert Notations([1]) == [selected];
  }

  datatype DownloadError = NoData | BadIndices(cause: ParseError)

  /** The records `download_processed` exports: none stored is an error (a
      400 in app.py, a redirect in app/routes.py), a bad index raises, and
      otherwise the unlisted records remain in order. */
  function DownloadProcessed<T>(stored: Option<seq<T>>, selected: string): (r: Result<seq<T>, DownloadError>)
    ensures stored.None? ==> r == Err(NoData)
    ensures stored.Some? ==> (r.Ok? <==> ParseIndices(selected).Ok?)
    ensures r.Ok? ==> r.value == KeepUndeleted(stored.value, ParseIndices(selected).value)
    ensures r.Ok? ==> |r.value| <= |stored.value|
    ensures stored.Some? && selected == "" ==> r == Ok(stored.value)
  {
    match stored
    case None => Err(NoData)
    case Some(records) =>
      match ParseIndices(selected)
      case Err(e) => Err(BadIndices(e))
      case Ok(deleted) =>
        KeepUndeletedShorter(records, deleted);
        if selected == "" then
          KeepAll(records, deleted);
          Ok(KeepUndeleted(records, deleted))
        else Ok(KeepUndeleted(records, deleted))
  }

  /** The header of the exported sheet, one name per record field in record
      order. */
  const ExportColumns: seq<string> :=
    ["Date", "Shift", "Area", "Start Time", "End Time", "Code", "Instructor", "Group", "Minutes", "Units"]

  /** A field name as a header reads it once lower-cased: `_` is a space. */
  function Spaced(field: string): (r: string)
    ensures |r| == |field|
  {
    seq(|field|, i requires 0 <= i < |field| => if field[i] == '_' then ' ' else field[i])
  }

  /** The k-th export header names the k-th field of the record. */
  lemma ExportColumnsNameFields()
    ensures |ExportColumns| == |ScheduleModel.FieldNames|
    ensures forall k :: 0 <= k < |ExportColumns| ==> Lower(ExportColumns[k]) == Spaced(ScheduleModel.FieldNames[k])
  {
    assert Lower("Start Time") == Spaced("start_time");
    assert Lower("End Time") == Spaced("end_time");
  }
}
