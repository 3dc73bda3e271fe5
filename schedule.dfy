/** The `Schedule` record of app/models/schedule_model.py and its dictionary
    form: `to_dict` is `dataclasses.asdict`, `from_dict` is `cls(**data)`. */
module ScheduleModel {
  import opened Wrappers
  import opened Outcomes

  /** One class-schedule entry. Every field is a string except `units`. */
  datatype Schedule = Schedule(
    date: string,
    shift: string,
    area: string,
    startTime: string,
    endTime: string,
    code: string,
    instructor: string,
    group: string,
    minutes: string,
    units: int)

  /** A value of the dictionary form: JSON strings and integers. */
  datatype Field = Str(s: string) | Int(i: int)

  type Dict = map<string, Field>

  /** The dataclass field names, in declaration order. */
  const FieldNames: seq<string> :=
    ["date", "shift", "area", "start_time", "end_time", "code", "instructor", "group", "minutes", "units"]

  /** Why `cls(**data)` refuses a dictionary. */
  datatype ConstructError = MissingField | UnexpectedField

  /** The value `asdict` stores under a field name. */
  function FieldValue(s: Schedule, name: string): Field {
    if name == "date" then Str(s.date)
    else if name == "shift" then Str(s.shift)
    else if name == "area" then Str(s.area)
    else if name == "start_time" then Str(s.startTime)
    else if name == "end_time" then Str(s.endTime)
    else if name == "code" then Str(s.code)
    else if name == "instructor" then Str(s.instructor)
    else if name == "group" then Str(s.group)
    else if name == "minutes" then Str(s.minutes)
    else Int(s.units)
  }

  /** `asdict`. */
  function ToDict(s: Schedule): (d: Dict)
    ensures d.Keys == set k | k in FieldNames
    ensures forall k :: k in d && k != "units" ==> d[k].Str?
    ensures "units" in d && d["units"] == Int(s.units)
  {
    map k | k in FieldNames :: FieldValue(s, k)
  }

  /** The string a field holds, whatever its kind (a dataclass does not check
      the types of the values it is given). */
  function AsString(f: Field): string {
    match f
    case Str(s) => s
    case Int(_) => ""
  }

  function AsInt(f: Field): int {
    match f
    case Int(i) => i
    case Str(_) => 0
  }

  /** `Schedule(**data)`: fails on a key that is not a field name and on a
      field name that is not a key. */
  function FromDict(d: Dict): Result<Schedule, ConstructError> {
    if exists k :: k in d && k !in FieldNames then Err(UnexpectedField)
    else if !HasFields(d) then Err(MissingField)
    else
      Ok(Schedule(
        AsString(d["date"]), AsString(d["shift"]), AsString(d["area"]),
        AsString(d["start_time"]), AsString(d["end_time"]), AsString(d["code"]),
        AsString(d["instructor"]), AsString(d["group"]), AsString(d["minutes"]),
        AsInt(d["units"])))
  }

  /** A key that is not a field name is reported before a missing field. */
  lemma FromDictUnexpectedIff(d: Dict)
    ensures FromDict(d) == Err(UnexpectedField) <==> exists k :: k in d && k !in FieldNames
  {
  }

  /** Every field name is a key. */
  predicate HasFields(d: Dict) {
    "date" in d && "shift" in d && "area" in d && "start_time" in d && "end_time" in d
    && "code" in d && "instructor" in d && "group" in d && "minutes" in d && "units" in d
  }

  lemma HasFieldsIff(d: Dict)
    ensures HasFields(d) <==> forall i :: 0 <= i < |FieldNames| ==> FieldNames[i] in d
  {
    if forall i :: 0 <= i < |FieldNames| ==> FieldNames[i] in d {
      assert FieldNames[0] in d && FieldNames[1] in d && FieldNames[2] in d && FieldNames[3] in d;
      assert FieldNames[4] in d && FieldNames[5] in d && FieldNames[6] in d;
      assert FieldNames[7] in d && FieldNames[8] in d && FieldNames[9] in d;
    }
  }

  /** A map's keys are the names of a list exactly when every key is listed
      and every listed name is a key. */
  lemma KeysAre<V>(d: map<string, V>, names: seq<string>)
    ensures d.Keys == (set k | k in names) <==>
      (forall k :: k in d ==> k in names) && (forall i :: 0 <= i < |names| ==> names[i] in d)
  {
    if (forall k :: k in d ==> k in names) && (forall i :: 0 <= i < |names| ==> names[i] in d) {
      forall k | k in names ensures k in d {
        var i :| 0 <= i < |names| && names[i] == k;
      }
    }
  }

  /** Construction succeeds exactly when the keys are the field names. */
  lemma FromDictOkIff(d: Dict)
    ensures FromDict(d).Ok? <==> d.Keys == set k | k in FieldNames
  {
    HasFieldsIff(d);
    KeysAre(d, FieldNames);
  }

  /** A dictionary has the shape `asdict` produces: exactly the field names,
      strings everywhere except an integer under "units". */
  predicate WellShaped(d: Dict) {
    d.Keys == (set k | k in FieldNames)
    && (forall k :: k in d && k != "units" ==> d[k].Str?)
    && "units" in d && d["units"].Int?
  }

  /** `from_dict(to_dict(s)) == s`. */
  lemma FromToDict(s: Schedule)
    ensures FromDict(ToDict(s)) == Ok(s)
  {
    var d := ToDict(s);
    FromDictOkIff(d);
    assert AsString(d["date"]) == s.date && AsString(d["shift"]) == s.shift;
    assert AsString(d["area"]) == s.area && AsString(d["start_time"]) == s.startTime;
    assert AsString(d["end_time"]) == s.endTime && AsString(d["code"]) == s.code;
    assert AsString(d["instructor"]) == s.instructor && AsString(d["group"]) == s.group;
    assert AsString(d["minutes"]) == s.minutes;
  }

  /** `to_dict(from_dict(d)) == d` for every dictionary of the right shape. */
  lemma ToFromDict(d: Dict)
    requires WellShaped(d)
    ensures FromDict(d).Ok? && ToDict(FromDict(d).value) == d
  {
    FromDictOkIff(d);
    var s := FromDict(d).value;
    var e := ToDict(s);
    forall k | k in d ensures k in e && e[k] == d[k] {
      assert k in FieldNames;
      FieldRoundTrip(d, s, k);
    }
  }

  /** Each value of a well-shaped dictionary is what `asdict` stores under
      its key for the record built from it. */
  lemma FieldRoundTrip(d: Dict, s: Schedule, k: string)
    requires WellShaped(d) && FromDict(d) == Ok(s) && k in d
    ensures FieldValue(s, k) == d[k]
  {
    assert k in FieldNames;
    var i :| 0 <= i < |FieldNames| && FieldNames[i] == k;
    if i == 0 { assert k == "date"; }
    else if i == 1 { assert k == "shift"; }
    else if i == 2 { assert k == "area"; }
    else if i == 3 { assert k == "start_time"; }
    else if i == 4 { assert k == "end_time"; }
    else if i == 5 { assert k == "code"; }
    else if i == 6 { assert k == "instructor"; }
    else if i == 7 { assert k == "group"; }
    else if i == 8 { assert k == "minutes"; }
    else { assert k == "units"; }
  }

  /** `[s.to_dict() for s in schedules]`. */
  function ToDicts(ss: seq<Schedule>): (ds: seq<Dict>)
    ensures |ds| == |ss|
    ensures forall i :: 0 <= i < |ss| ==> ds[i] == ToDict(ss[i])
  {
    seq(|ss|, i requires 0 <= i < |ss| => ToDict(ss[i]))
  }

  /** `[Schedule.from_dict(item) for item in data]`: the first item that does
      not construct raises. */
  function FromDicts(ds: seq<Dict>): Result<seq<Schedule>, ConstructError> {
    MapAll(ds, FromDict)
  }

  /** Converting a list to dictionaries and back gives the list, in order. */
  lemma FromToDicts(ss: seq<Schedule>)
    ensures FromDicts(ToDicts(ss)) == Ok(ss)
  {
    var ds := ToDicts(ss);
    forall k | 0 <= k < |ds| ensures FromDict(ds[k]) == Ok(ss[k]) {
      FromToDict(ss[k]);
    }
    MapAllValues(ds, FromDict, ss);
  }
}
