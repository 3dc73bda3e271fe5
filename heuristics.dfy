/** The text heuristics of app/utils/time_utils.py and app/utils/text_utils.py.
    The copies in app/routes.py, app/utils/functions.py, app/utils/process.py
    and app.py are textually the same functions and are modelled by the same
    members, except app.py's shift classifier, which has no fallback
    (DetermineShiftStrict). */
module Heuristics {
  import opened Wrappers
  import opened Strings

  // ------------------------------------------ extract_parenthesized_schedule

  /** Where the lazy group `(.*?)\)` that starts after an opening parenthesis
      at k-1 ends: the first `)` at or after k, unless a newline (which `.`
      does not match) comes first. */
  function CloseAfter(s: string, k: nat): (r: Option<nat>)
    requires k <= |s|
    ensures r.Some? ==> k <= r.value < |s| && s[r.value] == ')'
    ensures r.Some? ==> forall m :: k <= m < r.value ==> s[m] != ')' && s[m] != '\n'
    ensures r.None? ==> forall m :: k <= m < |s| && s[m] == ')' ==> exists n :: k <= n < m && s[n] == '\n'
    decreases |s| - k
  {
    if k == |s| then None
    else if s[k] == ')' then Some(k)
    else if s[k] == '\n' then None
    else CloseAfter(s, k + 1)
  }

  /** The groups `re.findall(r"\((.*?)\)", s)` returns, scanning from i: a
      successful match resumes after its `)`, a failed one at the next
      character. */
  function ParenGroups(s: string, i: nat): (r: seq<string>)
    requires i <= |s|
    decreases |s| - i
  {
    if i == |s| then []
    else if s[i] == '(' then
      match CloseAfter(s, i + 1)
      case Some(j) => [s[i + 1..j]] + ParenGroups(s, j + 1)
      case None => ParenGroups(s, i + 1)
    else ParenGroups(s, i + 1)
  }

  /** `extract_parenthesized_schedule`: the parenthesised pieces joined by
      ", ", or the text itself when there are none. */
  function ExtractParenthesized(text: string): (r: string)
    ensures !HasGroupFrom(text, 0) ==> r == text
    ensures HasGroupFrom(text, 0) ==> ')' !in r && '\n' !in r
  {
    var groups := ParenGroups(text, 0);
    ParenGroupsEmptyIff(text, 0);
    ParenGroupsClean(text, 0);
    JoinAvoids(groups, ", ", ')');
    JoinAvoids(groups, ", ", '\n');
    if |groups| > 0 then Join(groups, ", ") else text
  }

  /** A `(`...`)` pair the regex can match: no newline between them. */
  predicate GroupAt(s: string, k: nat, m: nat) {
    k < m < |s| && s[k] == '(' && s[m] == ')' && forall n :: k < n < m ==> s[n] != '\n'
  }

  predicate HasGroupFrom(s: string, i: nat) {
    exists k, m | i <= k < m < |s| :: GroupAt(s, k, m)
  }

  /** Every extracted piece lies between a `(` and the first `)` after it, so
      it contains neither `)` nor a newline. */
  lemma {:induction false} ParenGroupsClean(s: string, i: nat)
    requires i <= |s|
    ensures forall g :: g in ParenGroups(s, i) ==> ')' !in g && '\n' !in g
    decreases |s| - i
  {
    if i < |s| {
      if s[i] == '(' && CloseAfter(s, i + 1).Some? {
        var j := CloseAfter(s, i + 1).value;
        ParenGroupsClean(s, j + 1);
        var g := s[i + 1..j];
        forall n | 0 <= n < |g| ensures g[n] != ')' && g[n] != '\n' {
          assert g[n] == s[i + 1 + n];
        }
      } else {
        ParenGroupsClean(s, i + 1);
      }
    }
  }

  /** `findall` finds nothing exactly when the text holds no matchable
      `(`...`)` pair. */
  lemma {:induction false} ParenGroupsEmptyIff(s: string, i: nat)
    requires i <= |s|
    ensures ParenGroups(s, i) == [] <==> !HasGroupFrom(s, i)
    decreases |s| - i
  {
    if i < |s| {
      if s[i] == '(' && CloseAfter(s, i + 1).Some? {
        var j := CloseAfter(s, i + 1).value;
        assert GroupAt(s, i, j);
      } else {
        ParenGroupsEmptyIff(s, i + 1);
        if HasGroupFrom(s, i) {
          var k, m :| i <= k < m < |s| && GroupAt(s, k, m);
          // k == i is impossible: the `)` at m would have closed a group at i
          if k != i {
            assert HasGroupFrom(s, i + 1);
          }
        }
        if HasGroupFrom(s, i + 1) {
          var k, m :| i + 1 <= k < m < |s| && GroupAt(s, k, m);
          assert HasGroupFrom(s, i);
        }
      }
    }
  }

    // ----------------------------------------------- extract_keyword_from_text

  /** The area keywords, in the order the scan tries them. */
  const AreaKeywords: seq<string> := ["CORPORATE", "HUB", "LA MOLINA", "BAW", "KIDS"]

  /** `re.search(rf"\b{kw}\b", text, re.IGNORECASE)` matches at position i,
      for a keyword `kw` in upper case that starts and ends with a word
      character. */
  predicate WordAt(text: string, kw: string, i: nat) {
    i + |kw| <= |text| && Upper(text[i..i + |kw|]) == kw
    && (i == 0 || !IsWordChar(text[i - 1]))
    && (i + |kw| == |text| || !IsWordChar(text[i + |kw|]))
  }

  /** `kw` occurs in `text` as a whole word, ignoring case. */
  predicate HasWord(text: string, kw: string) {
    exists i | 0 <= i <= |text| :: WordAt(text, kw, i)
  }

  /** The first of `kws` that occurs in `text` as a whole word. */
  function FirstKeyword(text: string, kws: seq<string>): (r: Option<string>)
    ensures r.None? <==> forall k :: 0 <= k < |kws| ==> !HasWord(text, kws[k])
    ensures r.Some? ==> exists k :: 0 <= k < |kws| && kws[k] == r.value && HasWord(text, r.value)
                          && forall e :: 0 <= e < k ==> !HasWord(text, kws[e])
  {
    if kws == [] then None
    else if HasWord(text, kws[0]) then Some(kws[0])
    else
      var r := FirstKeyword(text, kws[1..]);
      assert forall k :: 1 <= k < |kws| ==> kws[1..][k - 1] == kws[k];
      r
  }

  /** `extract_keyword_from_text`: None when no area keyword occurs as a
      whole word, else the first one in list order that does. */
  function ExtractKeyword(text: string): (r: Option<string>)
    ensures r.None? <==> forall k :: 0 <= k < |AreaKeywords| ==> !HasWord(text, AreaKeywords[k])
    ensures r.Some? ==> r.value in AreaKeywords && HasWord(text, r.value)
    ensures r.Some? ==> forall k :: 0 <= k < |AreaKeywords| && AreaKeywords[k] == r.value ==>
                          forall e :: 0 <= e < k ==> !HasWord(text, AreaKeywords[e])
  {
    FirstKeyword(text, AreaKeywords)
  }

  // --------------------------------------------- extract_duration_or_keyword

  /** The duration keywords, in the order the scan tries them. */
  const DurationKeywords: seq<string> := ["30", "45", "60", "CEIBAL", "KIDS"]

  /** The loop of `extract_duration_or_keyword` over the remaining keywords:
      CEIBAL and KIDS answer "45" without looking at the text, a whole-word
      60 answers "30", and 30 or 45 answer themselves. */
  function ScanDuration(text: string, kws: seq<string>): Option<string> {
    if kws == [] then None
    else if kws[0] == "CEIBAL" || kws[0] == "KIDS" then Some("45")
    else if kws[0] == "60" && HasWord(text, kws[0]) then Some("30")
    else if HasWord(text, kws[0]) then Some(kws[0])
    else ScanDuration(text, kws[1..])
  }

  /** `extract_duration_or_keyword`. The scan always reaches CEIBAL, so the
      result is never None: it is "30" when a whole-word 30 occurs, or a 60
      occurs without a 45, and "45" otherwise. */
  function ExtractDuration(text: string): (r: Option<string>)
    ensures r == Some("30") || r == Some("45")
    ensures r == Some("30") <==> HasWord(text, "30") || (HasWord(text, "60") && !HasWord(text, "45"))
  {
    var tail := ["CEIBAL", "KIDS"];
    assert ScanDuration(text, tail) == Some("45");
    assert ScanDuration(text, ["60"] + tail) == if HasWord(text, "60") then Some("30") else Some("45");
    assert ScanDuration(text, ["45", "60"] + tail)
        == if HasWord(text, "45") then Some("45") else ScanDuration(text, ["60"] + tail);
    assert DurationKeywords == ["30"] + (["45", "60"] + tail);
    ScanDuration(text, DurationKeywords)
  }

  // ------------------------------------------------------ filter_special_tags

  /** The tags time_utils filters on, already normalised. */
  const SubstringTags: seq<string> := ["@corp", "@lima2", "@lcbulevarartigas"]

  /** Lower-cased, then every whitespace character removed. */
  function NormalizeTag(text: string): string {
    RemoveSpaces(Lower(text))
  }

  /** `filter_special_tags` of app/utils/time_utils.py: None when the
      normalised text contains one of the tags anywhere, else the text. */
  function FilterSpecialTagsContaining(text: string): (r: Option<string>)
    ensures r.None? <==> exists k | 0 <= k < |SubstringTags| :: Contains(NormalizeTag(text), SubstringTags[k])
    ensures r.Some? ==> r.value == text
  {
    if exists k | 0 <= k < |SubstringTags| :: Contains(NormalizeTag(text), SubstringTags[k]) then None
    else Some(text)
  }

  /** The tag groups of app/utils/text_utils.py, before splitting on `|`. */
  const TagGroups: seq<string> := ["@Corp", "@Lima 2 | lima2 | @Lima Corporate", "@LC Bulevar Artigas", "@Argentina"]

  /** The set comprehension of text_utils: every `|`-separated variant of
      every group, whitespace removed and lower-cased. */
  function SpecialTagSet(): set<string> {
    set g, v | g in TagGroups && v in Split(g, '|') :: Lower(RemoveSpaces(v))
  }

  /** `filter_special_tags` of app/utils/text_utils.py: None only when the
      normalised text is exactly one of the tags. */
  function FilterSpecialTagsExact(text: string): (r: Option<string>)
    ensures r.None? <==> NormalizeTag(text) in ExactTags
    ensures r.Some? ==> r.value == text
  {
    SpecialTagSetValue();
    if NormalizeTag(text) in SpecialTagSet() then None else Some(text)
  }

  /** The value of the tag set, written out. */
  const ExactTags: set<string> := {"@corp", "@lima2", "lima2", "@limacorporate", "@lcbulevarartigas", "@argentina"}

  lemma SplitCorp()
    ensures Split(TagGroups[0], '|') == [TagGroups[0]]
  {}

  lemma SplitLima()
    ensures Split(TagGroups[1], '|') == ["@Lima 2 ", " lima2 ", " @Lima Corporate"]
  {
    var parts := ["@Lima 2 ", " lima2 ", " @Lima Corporate"];
    assert Join(parts, "|") == TagGroups[1];
    SplitJoin(parts, '|');
  }

  lemma SplitArtigas()
    ensures Split(TagGroups[2], '|') == [TagGroups[2]]
  {
    var a, b, c := "@LC", "Bulevar", "Artigas";
    assert TagGroups[2] == (a + ([' '] + b)) + ([' '] + c);
    assert '|' !in a && '|' !in b && '|' !in c;
  }

  lemma SplitArgentina()
    ensures Split(TagGroups[3], '|') == [TagGroups[3]]
  {}

  // The normal form of each variant. Each takes the variant as a parameter
  // so that the solver does not expand RemoveSpaces over a literal.

  lemma NormalCorp(v: string)
    requires v == "@Corp"
    ensures Lower(RemoveSpaces(v)) == "@corp"
  {
    RemoveSpacesKeeps(v);
  }

  lemma JoinedLima2(v: string)
    requires v == "@Lima 2 "
    ensures RemoveSpaces(v) == "@Lima" + "2"
  {
    var a, b := "@Lima", "2";
    assert v == (a + ([' '] + b)) + [' '];
    RemoveSpacesAppend(a + ([' '] + b), [' ']);
    RemoveSpacesBlank();
    RemoveSpacesTwoWords(a, b);
  }

  lemma NormalLima2(v: string)
    requires v == "@Lima 2 "
    ensures Lower(RemoveSpaces(v)) == "@lima2"
  {
    JoinedLima2(v);
    var w := "@Lima" + "2";
    assert Lower(w) == "@lima2";
  }

  lemma JoinedBareLima(v: string)
    requires v == " lima2 "
    ensures RemoveSpaces(v) == "lima2"
  {
    var a := v[1..6];
    assert a == "lima2";
    assert v == [' '] + (a + [' ']);
    RemoveSpacesAppend([' '], a + [' ']);
    RemoveSpacesAppend(a, [' ']);
    RemoveSpacesBlank();
    RemoveSpacesKeeps(a);
  }

  lemma NormalBareLima(v: string)
    requires v == " lima2 "
    ensures Lower(RemoveSpaces(v)) == "lima2"
  {
    JoinedBareLima(v);
    var w := "lima2";
    assert Lower(w) == w;
  }

  lemma JoinedLimaCorporateWords(w: string)
    requires w == "@Lima Corporate"
    ensures RemoveSpaces(w) == "@Lima" + "Corporate"
  {
    var a, b := "@Lima", "Corporate";
    assert w == a + ([' '] + b);
    RemoveSpacesTwoWords(a, b);
  }

  lemma JoinedLimaCorporate(v: string)
    requires v == " @Lima Corporate"
    ensures RemoveSpaces(v) == "@Lima" + "Corporate"
  {
    var w := v[1..];
    assert v == [' '] + w;
    assert w == "@Lima Corporate";
    RemoveSpacesAppend([' '], w);
    RemoveSpacesBlank();
    JoinedLimaCorporateWords(w);
  }

  lemma NormalLimaCorporate(v: string)
    requires v == " @Lima Corporate"
    ensures Lower(RemoveSpaces(v)) == "@limacorporate"
  {
    JoinedLimaCorporate(v);
    var w := "@Lima" + "Corporate";
    assert Lower(w) == "@limacorporate";
  }

  lemma JoinedArtigas(v: string)
    requires v == "@LC Bulevar Artigas"
    ensures RemoveSpaces(v) == "@LC" + "Bulevar" + "Artigas"
  {
    var a, b, c := "@LC", "Bulevar", "Artigas";
    assert v == (a + ([' '] + b)) + ([' '] + c);
    RemoveSpacesThreeWords(a, b, c);
  }

  lemma NormalArtigas(v: string)
    requires v == "@LC Bulevar Artigas"
    ensures Lower(RemoveSpaces(v)) == "@lcbulevarartigas"
  {
    JoinedArtigas(v);
    var w := "@LC" + "Bulevar" + "Artigas";
    assert Lower(w) == "@lcbulevarartigas";
  }

  lemma NormalArgentina(v: string)
    requires v == "@Argentina"
    ensures Lower(RemoveSpaces(v)) == "@argentina"
  {
    RemoveSpacesKeeps(v);
  }

  lemma LimaVariantNormal(v: string)
    requires v in Split(TagGroups[1], '|')
    ensures Lower(RemoveSpaces(v)) in ExactTags
  {
    SplitLima();
    var parts := Split(TagGroups[1], '|');
    assert |parts| == 3;
    var k :| 0 <= k < 3 && v == parts[k];
    if k == 0 { assert v == "@Lima 2 "; NormalLima2(v); }
    else if k == 1 { assert v == " lima2 "; NormalBareLima(v); }
    else { assert v == " @Lima Corporate"; NormalLimaCorporate(v); }
  }

  lemma VariantNormal(g: string, v: string)
    requires g in TagGroups && v in Split(g, '|')
    ensures Lower(RemoveSpaces(v)) in ExactTags
  {
    if g == TagGroups[0] { SplitCorp(); NormalCorp(v); }
    else if g == TagGroups[1] { LimaVariantNormal(v); }
    else if g == TagGroups[2] { SplitArtigas(); NormalArtigas(v); }
    else { SplitArgentina(); NormalArgentina(v); }
  }

  lemma TagFromVariant(x: string, g: string, v: string)
    requires g in TagGroups && v in Split(g, '|') && Lower(RemoveSpaces(v)) == x
    ensures x in SpecialTagSet()
  {}

  lemma SpecialTagSetWithin()
    ensures SpecialTagSet() <= ExactTags
  {
    forall x | x in SpecialTagSet() ensures x in ExactTags {
      var g, v :| g in TagGroups && v in Split(g, '|') && x == Lower(RemoveSpaces(v));
      VariantNormal(g, v);
    }
  }

  lemma CoversSingles()
    ensures "@corp" in SpecialTagSet() && "@lcbulevarartigas" in SpecialTagSet() && "@argentina" in SpecialTagSet()
  {
    SplitCorp();
    NormalCorp(TagGroups[0]);
    TagFromVariant("@corp", TagGroups[0], TagGroups[0]);
    SplitArtigas();
    NormalArtigas(TagGroups[2]);
    TagFromVariant("@lcbulevarartigas", TagGroups[2], TagGroups[2]);
    SplitArgentina();
    NormalArgentina(TagGroups[3]);
    TagFromVariant("@argentina", TagGroups[3], TagGroups[3]);
  }

  lemma CoversLima()
    ensures "@lima2" in SpecialTagSet() && "lima2" in SpecialTagSet() && "@limacorporate" in SpecialTagSet()
  {
    SplitLima();
    var lima := Split(TagGroups[1], '|');
    NormalLima2(lima[0]);
    TagFromVariant("@lima2", TagGroups[1], lima[0]);
    NormalBareLima(lima[1]);
    TagFromVariant("lima2", TagGroups[1], lima[1]);
    NormalLimaCorporate(lima[2]);
    TagFromVariant("@limacorporate", TagGroups[1], lima[2]);
  }

  lemma SpecialTagSetCovers()
    ensures ExactTags <= SpecialTagSet()
  {
    CoversSingles();
    CoversLima();
  }

  /** Splitting the groups on `|`, removing whitespace and lower-casing gives
      exactly six tags. */
  lemma SpecialTagSetValue()
    ensures SpecialTagSet() == ExactTags
  {
    SpecialTagSetWithin();
    SpecialTagSetCovers();
  }

  lemma CorpSuffixNormal(t: string)
    requires t == "@corp x"
    ensures NormalizeTag(t) == "@corp" + "x"
  {
    assert Lower(t) == "@corp" + ([' '] + "x");
    RemoveSpacesTwoWords("@corp", "x");
  }

  lemma CorpSuffixNotExact(n: string)
    requires n == "@corp" + "x"
    ensures n !in ExactTags
  {
    assert |n| == 6 && n[1] == 'c';
    assert n != "@lima2" by { assert "@lima2"[1] == 'l'; }
  }

  /** The substring variant drops a text that merely contains a tag. */
  lemma CorpSuffixDroppedBySubstring()
    ensures FilterSpecialTagsContaining("@corp x") == None
  {
    CorpSuffixNormal("@corp x");
    assert OccursAt(NormalizeTag("@corp x"), SubstringTags[0], 0);
  }

  /** The exact variant keeps a text that is longer than every tag it
      resembles. */
  lemma CorpSuffixKeptByExact()
    ensures FilterSpecialTagsExact("@corp x") == Some("@corp x")
  {
    CorpSuffixNormal("@corp x");
    SpecialTagSetValue();
    CorpSuffixNotExact(NormalizeTag("@corp x"));
  }

  /** The exact variant drops "lima2", which is one of its variants... */
  lemma BareLimaDroppedByExact()
    ensures FilterSpecialTagsExact("lima2") == None
  {
    SpecialTagSetValue();
    BareLimaNormal("lima2");
  }

  /** ...while the substring variant keeps it: no tag there occurs in it. */
  lemma BareLimaKeptBySubstring()
    ensures FilterSpecialTagsContaining("lima2") == Some("lima2")
  {
    BareLimaNormal("lima2");
    NoTagIn(NormalizeTag("lima2"));
  }

  lemma BareLimaNormal(t: string)
    requires t == "lima2"
    ensures NormalizeTag(t) == t
  {
    assert Lower(t) == t;
    RemoveSpacesKeeps(t);
  }

  lemma NoTagIn(n: string)
    requires n == "lima2"
    ensures forall k | 0 <= k < |SubstringTags| :: !Contains(n, SubstringTags[k])
  {
    assert !OccursAt(n, SubstringTags[0], 0) by { assert n[0] != SubstringTags[0][0]; }
    assert |SubstringTags[1]| > |n| && |SubstringTags[2]| > |n|;
  }

  // ------------------------------------------------------ format_time_periods

  /** `string.replace("a.m.", "AM").replace("p.m.", "PM")`: no "a.m." and no
      "p.m." survive the formatting. */
  function FormatTimePeriods(s: string): (r: string)
    ensures !Contains(r, "a.m.") && !Contains(r, "p.m.")
  {
    var s1 := Replace(s, "a.m.", "AM");
    ReplaceRemoves(s, "a.m.", "AM");
    ReplaceKeepsAbsent(s1, "p.m.", "PM", "a.m.");
    ReplaceRemoves(s1, "p.m.", "PM");
    Replace(s1, "p.m.", "PM")
  }

  /** Text without either marker is left as it is. */
  lemma FormatTimePeriodsUnchanged(s: string)
    requires !Contains(s, "a.m.") && !Contains(s, "p.m.")
    ensures FormatTimePeriods(s) == s
  {
    ReplaceAbsent(s, "a.m.", "AM");
    ReplaceAbsent(s, "p.m.", "PM");
  }

  /** Formatting twice is formatting once. */
  lemma FormatTimePeriodsIdempotent(s: string)
    ensures FormatTimePeriods(FormatTimePeriods(s)) == FormatTimePeriods(s)
  {
    FormatTimePeriodsUnchanged(FormatTimePeriods(s));
  }

  // -------------------------------------------------- determine_shift_by_time

  type Hour = h: nat | h < 24
  type Minute = m: nat | m < 60

  /** A clock time as `pd.to_datetime` yields it; parsing itself is a
      parameter of the members that need it. */
  datatype ClockTime = ClockTime(hour: Hour, minute: Minute)

  const MorningShift: string := "P. ZUÑIGA"
  const AfternoonShift: string := "H. GARCIA"

  /** `strftime("%H:%M")`. */
  function HourMinute(t: ClockTime): string {
    PadLeft(NatToString(t.hour), 2, '0') + ":" + PadLeft(NatToString(t.minute), 2, '0')
  }

  /** Two-digit zero padding of a number below 100. */
  lemma PadTwo(n: nat)
    requires n < 100
    ensures PadLeft(NatToString(n), 2, '0') == [DigitChar(n / 10), DigitChar(n % 10)]
  {
    if n >= 10 {
      assert NatToString(n / 10) == [DigitChar(n / 10)];
    }
  }

  /** The string comparison `"%H:%M" < "14:00"` is the clock comparison
      "before 14:00". */
  lemma HourMinuteBeforeTwo(t: ClockTime)
    ensures LexLess(HourMinute(t), "14:00") <==> t.hour * 60 + t.minute < 840
  {
    PadTwo(t.hour);
    PadTwo(t.minute);
    var h := HourMinute(t);
    assert h == [DigitChar(t.hour / 10), DigitChar(t.hour % 10), ':', DigitChar(t.minute / 10), DigitChar(t.minute % 10)];
    var f := "14:00";
    assert f == ['1', '4', ':', '0', '0'];
    if t.hour / 10 == 1 {
      assert h[1..] == [DigitChar(t.hour % 10), ':', DigitChar(t.minute / 10), DigitChar(t.minute % 10)];
      if t.hour == 14 {
        assert h[1..][1..][1..] == [DigitChar(t.minute / 10), DigitChar(t.minute % 10)];
        assert f[1..][1..][1..] == ['0', '0'];
      }
    }
  }

  /** `determine_shift_by_time`: the morning label when the parsed time is
      before 14:00, the afternoon label otherwise, including when parsing
      fails (the `except` branch). */
  function DetermineShift(startTime: string, toDatetime: string -> Option<ClockTime>): (r: string)
    ensures r == MorningShift || r == AfternoonShift
    ensures r == MorningShift <==>
              toDatetime(startTime).Some? &&
              toDatetime(startTime).value.hour * 60 + toDatetime(startTime).value.minute < 840
  {
    match toDatetime(startTime)
    case None => AfternoonShift
    case Some(t) =>
      HourMinuteBeforeTwo(t);
      if LexLess(HourMinute(t), "14:00") then MorningShift else AfternoonShift
  }

  /** The copy in app.py, which has no `try`: a start time that does not parse
      raises (None here); otherwise it agrees with DetermineShift. */
  function DetermineShiftStrict(startTime: string, toDatetime: string -> Option<ClockTime>): (r: Option<string>)
    ensures r.None? <==> toDatetime(startTime).None?
    ensures r.Some? ==> r.value == DetermineShift(startTime, toDatetime)
  {
    match toDatetime(startTime)
    case None => None
    case Some(t) => Some(if LexLess(HourMinute(t), "14:00") then MorningShift else AfternoonShift)
  }
}
