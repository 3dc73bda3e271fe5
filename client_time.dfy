/** The clock helpers of app/static/js/utils.js: a `h:mm AM` text to minutes
    since midnight, the same text to a 24-hour `HH:MM`, and the lower-casing
    text key used for sorting and filtering. */
module ClientTime {
  import opened Wrappers
  import opened Strings

  /** The JavaScript values these helpers produce: a number (only the
      non-negative integers a digit string can denote), `NaN`, or
      `undefined` (a missing array element). */
  datatype JsValue = Num(n: nat) | NaN | Undefined

  /** `Number(s)`: surrounding whitespace is ignored, the empty string is 0,
      a digit string is its value and anything else is `NaN`. */
  function Number(s: string): (r: JsValue)
    ensures r != Undefined
    ensures Strip(s) == "" ==> r == Num(0)
  {
    var t := Strip(s);
    if AllDigits(t) then Num(DigitsValue(t)) else NaN
  }

  /** `String(v)`. */
  function JsString(v: JsValue): string {
    match v
    case Num(n) => NatToString(n)
    case NaN => "NaN"
    case Undefined => "undefined"
  }

  /** The meridiem rule shared by both converters: `PM` before 12 adds 12,
      `12 AM` is hour 0, and any other (or no) meridiem leaves the hour. */
  function AdjustHour(h: JsValue, meridiem: Option<string>): (r: JsValue)
    ensures meridiem.None? ==> r == h
    ensures r.Num? <==> h.Num?
  {
    if meridiem == Some("PM") && h.Num? && h.n < 12 then Num(h.n + 12)
    else if meridiem == Some("AM") && h == Num(12) then Num(0)
    else h
  }

  /** The hours and minutes both converters read from a time text: the text
      is trimmed and split on " ", the first piece split on ":" and each half
      passed to `Number`; the second piece, when present, is the meridiem. */
  datatype Clock = Clock(hours: JsValue, minutes: JsValue)

  function ReadClock(timeStr: string): (c: Clock)
    ensures c.hours != Undefined
  {
    var parts := Split(Strip(timeStr), ' ');
    var fields := Split(parts[0], ':');
    var meridiem := if |parts| > 1 then Some(parts[1]) else None;
    Clock(AdjustHour(Number(fields[0]), meridiem), if |fields| > 1 then Number(fields[1]) else Undefined)
  }

  /** `parseTimeToMinutes`: `hh * 60 + mm`, which is `NaN` as soon as either
      part is not a number. */
  function ParseTimeToMinutes(timeStr: string): (r: JsValue)
    ensures r != Undefined
    ensures r.Num? <==> ReadClock(timeStr).hours.Num? && ReadClock(timeStr).minutes.Num?
  {
    var c := ReadClock(timeStr);
    if c.hours.Num? && c.minutes.Num? then Num(c.hours.n * 60 + c.minutes.n) else NaN
  }

  /** `convertTo24HourFormat`: both parts written out and padded to two
      characters with "0". */
  function ConvertTo24HourFormat(timeStr: string): (r: string)
    ensures |r| >= 5 && ' ' !in r && Strip(r) == r
    ensures |Split(r, ':')| == 2
  {
    var c := ReadClock(timeStr);
    var hs, ms := PadLeft(JsString(c.hours), 2, '0'), PadLeft(JsString(c.minutes), 2, '0');
    PaddedPlain(c.hours);
    PaddedPlain(c.minutes);
    PlainPair(hs, ms);
    hs + ":" + ms
  }

  /** `textParser`. */
  function TextParser(s: string): (r: string)
    ensures |r| == |s|
    ensures forall i :: 0 <= i < |r| ==> !('A' <= r[i] <= 'Z')
  {
    Lower(s)
  }

  /** Lower-casing twice is lower-casing once, so sorting keys and filter
      texts agree however often they are normalised. */
  lemma TextParserIdempotent(s: string)
    ensures TextParser(TextParser(s)) == TextParser(s)
    ensures |TextParser(s)| == |s|
  {}

  // ---------------------------------------------------------- well-formed input

  /** For a 12-hour clock hour and an `AM`/`PM` meridiem, the adjusted hour
      is the hour of the day. */
  lemma AdjustHourRange(h: nat, meridiem: string)
    requires 1 <= h <= 12 && (meridiem == "AM" || meridiem == "PM")
    ensures AdjustHour(Num(h), Some(meridiem)).Num?
    ensures AdjustHour(Num(h), Some(meridiem)).n == h % 12 + (if meridiem == "PM" then 12 else 0)
    ensures AdjustHour(Num(h), Some(meridiem)).n < 24
  {}

  /** Two pieces joined by a separator that occurs in neither split back. */
  lemma SplitPair(a: string, b: string, sep: char)
    requires sep !in a && sep !in b
    ensures Split(a + [sep] + b, sep) == [a, b]
  {
    assert [a, b][1..] == [b];
    assert Join([a, b], [sep]) == a + [sep] + b;
    SplitJoin([a, b], sep);
  }

  /** How `ReadClock` takes apart a trimmed text whose pieces are known. */
  lemma ReadClockPieces(timeStr: string, hm: string, meridiem: Option<string>, hs: string, ms: string)
    requires Strip(timeStr) == timeStr
    requires Split(timeStr, ' ') == (if meridiem.Some? then [hm, meridiem.value] else [hm])
    requires Split(hm, ':') == [hs, ms]
    ensures ReadClock(timeStr) == Clock(AdjustHour(Number(hs), meridiem), Number(ms))
  {}

  /** Letters, digits and `_` only. */
  predicate Plain(s: string) {
    forall i :: 0 <= i < |s| ==> IsWordChar(s[i])
  }

  /** `hh:mm` made of plain parts is already trimmed, has no space, and
      splits on ":" into its two parts. */
  lemma PlainPair(hs: string, ms: string)
    requires |hs| > 0 && |ms| > 0 && Plain(hs) && Plain(ms)
    ensures ' ' !in hs + [':'] + ms
    ensures Strip(hs + [':'] + ms) == hs + [':'] + ms
    ensures Split(hs + [':'] + ms, ':') == [hs, ms]
  {
    var out := hs + [':'] + ms;
    assert forall i :: 0 <= i < |out| ==> IsWordChar(out[i]) || out[i] == ':';
    assert ':' !in hs && ':' !in ms;
    assert IsWordChar(out[0]) && IsWordChar(out[|out| - 1]);
    StripKeeps(out);
    SplitPair(hs, ms, ':');
  }

  /** A digit string is read as its value. */
  lemma NumberOfDigits(s: string)
    requires |s| > 0 && AllDigits(s)
    ensures Number(s) == Num(DigitsValue(s))
  {
    assert IsDigit(s[0]) && IsDigit(s[|s| - 1]);
    StripKeeps(s);
  }

  /** `hh:mm AM`: trimmed already, and split on " " into time and meridiem. */
  lemma WithMeridiem(hm: string, meridiem: string)
    requires |hm| > 0 && ' ' !in hm && !IsSpace(hm[0])
    requires meridiem == "AM" || meridiem == "PM"
    ensures Strip(hm + [' '] + meridiem) == hm + [' '] + meridiem
    ensures Split(hm + [' '] + meridiem, ' ') == [hm, meridiem]
  {
    var t := hm + [' '] + meridiem;
    assert t[0] == hm[0];
    assert t[|t| - 1] == 'M';
    StripKeeps(t);
    SplitPair(hm, meridiem, ' ');
  }

  /** A time written `h:mm AM` or `h:mm PM` with `h` in 1..12 and `mm` below
      60 is read as minutes since midnight, in [0, 1440), and converts to the
      24-hour `HH:MM` of the same instant. */
  lemma WellFormedTime(timeStr: string, h: nat, m: nat, meridiem: string)
    requires 1 <= h <= 12 && m < 60 && (meridiem == "AM" || meridiem == "PM")
    requires timeStr == NatToString(h) + [':'] + PadLeft(NatToString(m), 2, '0') + [' '] + meridiem
    ensures ParseTimeToMinutes(timeStr).Num?
    ensures ParseTimeToMinutes(timeStr).n == (h % 12 + (if meridiem == "PM" then 12 else 0)) * 60 + m
    ensures ParseTimeToMinutes(timeStr).n < 1440
    ensures ConvertTo24HourFormat(timeStr) ==
      PadLeft(NatToString(h % 12 + (if meridiem == "PM" then 12 else 0)), 2, '0') + ":" + PadLeft(NatToString(m), 2, '0')
  {
    var hs := NatToString(h);
    var ms := PadLeft(NatToString(m), 2, '0');
    NatToStringValue(h);
    PaddedNatValue(m, 2);
    assert Plain(hs) && Plain(ms);
    PlainPair(hs, ms);
    var hm := hs + [':'] + ms;
    assert hm[0] == hs[0];
    WithMeridiem(hm, meridiem);
    NumberOfDigits(hs);
    NumberOfDigits(ms);
    AdjustHourRange(h, meridiem);
    ReadClockPieces(timeStr, hm, Some(meridiem), hs, ms);
    ParseOfClock(timeStr, Clock(AdjustHour(Num(h), Some(meridiem)), Num(m)));
  }

  // ------------------------------------------------------- the two agree

  /** The characters `String` and `padStart` produce: digits and letters. */
  lemma PaddedPlain(v: JsValue)
    ensures Plain(PadLeft(JsString(v), 2, '0'))
  {
    if v.Num? {
      PaddedNatValue(v.n, 2);
    }
  }

  /** Reading back a written-out part gives the number, and `NaN` for
      anything that was not one. */
  lemma NumberOfPadded(v: JsValue)
    ensures Number(PadLeft(JsString(v), 2, '0')) == if v.Num? then v else NaN
  {
    var s := PadLeft(JsString(v), 2, '0');
    PaddedPlain(v);
    assert IsWordChar(s[0]) && IsWordChar(s[|s| - 1]);
    StripKeeps(s);
    match v {
      case Num(n) =>
        PaddedNatValue(n, 2);
      case NaN =>
        assert s == "NaN";
        assert !IsDigit(s[0]);
      case Undefined =>
        assert s == "undefined";
        assert !IsDigit(s[0]);
    }
  }

  /** A part that is not a number reads back as `NaN`. */
  function AsNumber(v: JsValue): JsValue {
    if v.Num? then v else NaN
  }

  /** Reading the 24-hour text gives back the hours and minutes it was
      written from. */
  lemma ReadConverted(timeStr: string)
    ensures ReadClock(ConvertTo24HourFormat(timeStr)) ==
      Clock(AsNumber(ReadClock(timeStr).hours), AsNumber(ReadClock(timeStr).minutes))
  {
    var c := ReadClock(timeStr);
    var hs := PadLeft(JsString(c.hours), 2, '0');
    var ms := PadLeft(JsString(c.minutes), 2, '0');
    assert ConvertTo24HourFormat(timeStr) == hs + [':'] + ms;
    PaddedPlain(c.hours);
    PaddedPlain(c.minutes);
    PlainPair(hs, ms);
    var out := hs + [':'] + ms;
    assert Split(out, ' ') == [out];
    NumberOfPadded(c.hours);
    NumberOfPadded(c.minutes);
    ReadClockPieces(out, out, None, hs, ms);
  }

  /** Parsing the 24-hour text `convertTo24HourFormat` produces gives the
      same minutes as parsing the original text, for every input: `HH:MM`
      is `H * 60 + M` minutes, and `NaN` stays `NaN`. */
  lemma ConvertThenParse(timeStr: string)
    ensures ParseTimeToMinutes(ConvertTo24HourFormat(timeStr)) == ParseTimeToMinutes(timeStr)
  {
    var c := ReadClock(timeStr);
    var out := ConvertTo24HourFormat(timeStr);
    ReadConverted(timeStr);
    ParseOfClock(out, Clock(AsNumber(c.hours), AsNumber(c.minutes)));
    ParseOfClock(timeStr, c);
  }

  lemma ParseOfClock(timeStr: string, c: Clock)
    requires ReadClock(timeStr) == c
    ensures ParseTimeToMinutes(timeStr) == if c.hours.Num? && c.minutes.Num? then Num(c.hours.n * 60 + c.minutes.n) else NaN
  {}
}
