/** Character and string operations shared by the Python back end and the
    JavaScript client. Where Python and JavaScript consult Unicode tables
    (whitespace, case mapping, word characters) this module uses their ASCII
    part. */
module Strings {
  import opened Wrappers

  /** Whitespace as `str.strip`, the regex class `\s` and `String.trim` see it
      within ASCII. */
  predicate IsSpace(c: char) {
    c == ' ' || c == '\t' || c == '\n' || c == '\r' || c == '\U{000B}' || c == '\U{000C}'
  }

  /** A character of the regex class `\w`, within ASCII. */
  predicate IsWordChar(c: char) {
    ('a' <= c <= 'z') || ('A' <= c <= 'Z') || ('0' <= c <= '9') || c == '_'
  }

  predicate IsDigit(c: char) {
    '0' <= c <= '9'
  }

  predicate AllDigits(s: string) {
    forall i :: 0 <= i < |s| ==> IsDigit(s[i])
  }

  function UpperChar(c: char): char {
    if 'a' <= c <= 'z' then (c as int - 32) as char else c
  }

  function LowerChar(c: char): char {
    if 'A' <= c <= 'Z' then (c as int + 32) as char else c
  }

  /** `str.upper()` restricted to ASCII letters. */
  function Upper(s: string): (r: string)
    ensures |r| == |s|
  {
    seq(|s|, i requires 0 <= i < |s| => UpperChar(s[i]))
  }

  /** `str.lower()` / `String.toLowerCase()` restricted to ASCII letters. */
  function Lower(s: string): (r: string)
    ensures |r| == |s|
  {
    seq(|s|, i requires 0 <= i < |s| => LowerChar(s[i]))
  }

  // ---------------------------------------------------------------- trimming

  function TrimLeft(s: string): (r: string)
    ensures |r| <= |s| && r == s[|s| - |r|..]
    ensures r == [] || !IsSpace(r[0])
    ensures forall i :: 0 <= i < |s| - |r| ==> IsSpace(s[i])
  {
    if |s| > 0 && IsSpace(s[0]) then TrimLeft(s[1..]) else s
  }

  function TrimRight(s: string): (r: string)
    ensures |r| <= |s| && r == s[..|r|]
    ensures r == [] || !IsSpace(r[|r| - 1])
    ensures forall i :: |r| <= i < |s| ==> IsSpace(s[i])
  {
    if |s| > 0 && IsSpace(s[|s| - 1]) then TrimRight(s[..|s| - 1]) else s
  }

  /** `str.strip()` / `String.trim()`. */
  function Strip(s: string): string {
    TrimRight(TrimLeft(s))
  }

  predicate AllSpace(s: string) {
    forall i :: 0 <= i < |s| ==> IsSpace(s[i])
  }

  /** A string strips to nothing exactly when it is all whitespace. */
  lemma StripEmptyIff(s: string)
    ensures Strip(s) == [] <==> AllSpace(s)
  {
    var l := TrimLeft(s);
    if Strip(s) == [] {
      assert l == [];
    } else {
      var r := Strip(s);
      assert r[0] == l[0] == s[|s| - |l|];
    }
  }

  /** A string that neither starts nor ends with whitespace strips to
      itself. */
  lemma StripKeeps(s: string)
    requires s == [] || (!IsSpace(s[0]) && !IsSpace(s[|s| - 1]))
    ensures Strip(s) == s
  {
    if |s| > 0 {
      assert !IsSpace(s[0]);
      assert TrimLeft(s) == s;
      assert !IsSpace(s[|s| - 1]);
      assert TrimRight(s) == s;
    }
  }

  /** `re.sub(r"\s+", "", s)`: every whitespace character removed. */
  function RemoveSpaces(s: string): (r: string)
    ensures forall i :: 0 <= i < |r| ==> !IsSpace(r[i])
    ensures |r| <= |s|
  {
    if s == [] then []
    else (if IsSpace(s[0]) then [] else [s[0]]) + RemoveSpaces(s[1..])
  }

  /** Removing whitespace works piece by piece. */
  lemma {:induction false} RemoveSpacesAppend(a: string, b: string)
    ensures RemoveSpaces(a + b) == RemoveSpaces(a) + RemoveSpaces(b)
  {
    if a == [] {
      assert a + b == b;
    } else {
      assert (a + b)[1..] == a[1..] + b;
      RemoveSpacesAppend(a[1..], b);
    }
  }

  /** Text without whitespace is left as it is. */
  lemma {:induction false} RemoveSpacesKeeps(s: string)
    requires forall i :: 0 <= i < |s| ==> !IsSpace(s[i])
    ensures RemoveSpaces(s) == s
  {
    if s != [] {
      RemoveSpacesKeeps(s[1..]);
    }
  }

  /** A single blank disappears. */
  lemma RemoveSpacesBlank()
    ensures RemoveSpaces([' ']) == []
  {
    assert [' '][1..] == [];
  }

  /** Two words separated by one blank are joined. */
  lemma RemoveSpacesTwoWords(a: string, b: string)
    requires forall i :: 0 <= i < |a| ==> !IsSpace(a[i])
    requires forall i :: 0 <= i < |b| ==> !IsSpace(b[i])
    ensures RemoveSpaces(a + ([' '] + b)) == a + b
  {
    calc {
      RemoveSpaces(a + ([' '] + b));
      { RemoveSpacesAppend(a, [' '] + b); }
      RemoveSpaces(a) + RemoveSpaces([' '] + b);
      { RemoveSpacesAppend([' '], b); RemoveSpacesBlank(); assert [] + RemoveSpaces(b) == RemoveSpaces(b); }
      RemoveSpaces(a) + RemoveSpaces(b);
      { RemoveSpacesKeeps(a); RemoveSpacesKeeps(b); }
      a + b;
    }
  }

  /** Three words separated by single blanks are joined. */
  lemma RemoveSpacesThreeWords(a: string, b: string, c: string)
    requires forall i :: 0 <= i < |a| ==> !IsSpace(a[i])
    requires forall i :: 0 <= i < |b| ==> !IsSpace(b[i])
    requires forall i :: 0 <= i < |c| ==> !IsSpace(c[i])
    ensures RemoveSpaces((a + ([' '] + b)) + ([' '] + c)) == a + b + c
  {
    calc {
      RemoveSpaces((a + ([' '] + b)) + ([' '] + c));
      { RemoveSpacesAppend(a + ([' '] + b), [' '] + c); }
      RemoveSpaces(a + ([' '] + b)) + RemoveSpaces([' '] + c);
      { RemoveSpacesTwoWords(a, b); }
      (a + b) + RemoveSpaces([' '] + c);
      { RemoveSpacesAppend([' '], c); RemoveSpacesBlank(); RemoveSpacesKeeps(c); assert [] + c == c; }
      (a + b) + c;
    }
  }

  // -------------------------------------------------------- substring search

  predicate OccursAt(s: string, t: string, i: nat) {
    i + |t| <= |s| && s[i..i + |t|] == t
  }

  /** Python's `t in s`, JavaScript's `s.includes(t)`. */
  predicate Contains(s: string, t: string) {
    exists i | 0 <= i <= |s| :: OccursAt(s, t, i)
  }

  predicate StartsWith(s: string, t: string) {
    OccursAt(s, t, 0)
  }

  predicate EndsWith(s: string, t: string) {
    |t| <= |s| && s[|s| - |t|..] == t
  }

  // ------------------------------------------------------------ replacement

  /** Python's `s.replace(pat, rep)`: every non-overlapping occurrence of
      `pat`, found left to right, replaced by `rep`. */
  function Replace(s: string, pat: string, rep: string): string
    requires |pat| > 0
    decreases |s|
  {
    if |s| < |pat| then s
    else if s[..|pat|] == pat then rep + Replace(s[|pat|..], pat, rep)
    else [s[0]] + Replace(s[1..], pat, rep)
  }

  /** No character of `rep` occurs in `q`. */
  predicate Disjoint(rep: string, q: string) {
    forall i, j :: 0 <= i < |rep| && 0 <= j < |q| ==> rep[i] != q[j]
  }

  /** Replacing leaves a string without the pattern unchanged. */
  lemma {:induction false} ReplaceAbsent(s: string, pat: string, rep: string)
    requires |pat| > 0 && !Contains(s, pat)
    ensures Replace(s, pat, rep) == s
    decreases |s|
  {
    if |s| >= |pat| {
      assert !OccursAt(s, pat, 0);
      ShiftAbsent(s, pat, 1);
      ReplaceAbsent(s[1..], pat, rep);
    }
  }

  /** A suffix of a string without `q` has no `q` either. */
  lemma ShiftAbsent(s: string, q: string, k: nat)
    requires k <= |s| && !Contains(s, q)
    ensures !Contains(s[k..], q)
  {
    forall i | 0 <= i <= |s[k..]| ensures !OccursAt(s[k..], q, i) {
      assert !OccursAt(s, q, i + k);
      if i + |q| <= |s[k..]| {
        assert s[k..][i..i + |q|] == s[i + k..i + k + |q|];
      }
    }
  }

  /** If the replaced string begins with `w` and `w` avoids the first
      character of `rep`, the original already began with `w`. */
  lemma {:induction false} ReplacePrefix(t: string, pat: string, rep: string, w: string)
    requires |pat| > 0 && |rep| > 0
    requires forall j :: 0 <= j < |w| ==> w[j] != rep[0]
    ensures StartsWith(Replace(t, pat, rep), w) ==> StartsWith(t, w)
    decreases |t|
  {
    var o := Replace(t, pat, rep);
    if |w| > 0 && |t| >= |pat| {
      if t[..|pat|] == pat {
        assert o[0] == rep[0];
      } else {
        var o' := Replace(t[1..], pat, rep);
        assert o == [t[0]] + o';
        ReplacePrefix(t[1..], pat, rep, w[1..]);
        if |w| <= |o| {
          assert o[..|w|] == [t[0]] + o'[..|w| - 1];
        }
        if |w| <= |t| {
          assert t[..|w|] == [t[0]] + t[1..][..|w| - 1];
        }
      }
    }
  }

  /** The output of `Replace` next to a copied first character or a
      replaced pattern, for the two recursive cases. */
  lemma ReplaceStep(s: string, pat: string, rep: string, q: string)
    requires |pat| > 0 && |rep| > 0 && |q| > 0 && |s| >= |pat|
    requires Disjoint(rep, q)
    requires !Contains(Replace(if s[..|pat|] == pat then s[|pat|..] else s[1..], pat, rep), q)
    requires s[..|pat|] != pat ==> !StartsWith(s, q)
    ensures !Contains(Replace(s, pat, rep), q)
  {
    if s[..|pat|] == pat {
      var o' := Replace(s[|pat|..], pat, rep);
      assert Replace(s, pat, rep) == rep + o';
      PrependDisjointAbsent(rep, o', q);
    } else {
      var o' := Replace(s[1..], pat, rep);
      assert Replace(s, pat, rep) == [s[0]] + o';
      forall j | 0 <= j < |q[1..]| ensures q[1..][j] != rep[0] {
        assert q[1..][j] == q[j + 1];
      }
      ReplacePrefix(s[1..], pat, rep, q[1..]);
      ConsNotStarting(s, o', q);
      ConsAbsent(s[0], o', q);
    }
  }

  /** A string that shares no character with `q` put before one without `q`
      makes none. */
  lemma PrependDisjointAbsent(rep: string, o': string, q: string)
    requires |q| > 0 && Disjoint(rep, q) && !Contains(o', q)
    ensures !Contains(rep + o', q)
  {
    var o := rep + o';
    forall i | 0 <= i <= |o| ensures !OccursAt(o, q, i) {
      if i < |rep| {
        assert o[i] == rep[i];
      } else {
        assert !OccursAt(o', q, i - |rep|);
        if i + |q| <= |o| {
          assert o[i..i + |q|] == o'[i - |rep|..i - |rep| + |q|];
        }
      }
    }
  }

  /** A character put before a string without `q` makes a `q` only at the
      front. */
  lemma ConsAbsent(c: char, o': string, q: string)
    requires !Contains(o', q) && !StartsWith([c] + o', q)
    ensures !Contains([c] + o', q)
  {
    var o := [c] + o';
    forall i | 1 <= i <= |o| ensures !OccursAt(o, q, i) {
      assert !OccursAt(o', q, i - 1);
      if i + |q| <= |o| {
        assert o[i..i + |q|] == o'[i - 1..i - 1 + |q|];
      }
    }
  }

  /** A character before `t` starts with `q` exactly when it is the first
      character of `q` and `t` starts with the rest. */
  lemma ConsStartsWith(c: char, t: string, q: string)
    requires |q| > 0
    ensures StartsWith([c] + t, q) <==> c == q[0] && StartsWith(t, q[1..])
  {
    assert q == [q[0]] + q[1..];
    if |q| <= |t| + 1 {
      assert ([c] + t)[..|q|] == [c] + t[..|q| - 1];
    }
  }

  /** When `s` does not start with `q`, and `o'` starts with the rest of `q`
      only if the rest of `s` does, `s[0]` before `o'` does not start with `q`. */
  lemma ConsNotStarting(s: string, o': string, q: string)
    requires |s| > 0 && |q| > 0 && !StartsWith(s, q)
    requires StartsWith(o', q[1..]) ==> StartsWith(s[1..], q[1..])
    ensures !StartsWith([s[0]] + o', q)
  {
    ConsStartsWith(s[0], o', q);
    ConsStartsWith(s[0], s[1..], q);
    assert [s[0]] + s[1..] == s;
  }

  /** Replacing `pat` by a `rep` that shares no character with `q` cannot
      create an occurrence of `q`. */
  lemma {:induction false} ReplaceKeepsAbsent(t: string, pat: string, rep: string, q: string)
    requires |pat| > 0 && |rep| > 0 && |q| > 0
    requires Disjoint(rep, q)
    requires !Contains(t, q)
    ensures !Contains(Replace(t, pat, rep), q)
    decreases |t|
  {
    if |t| >= |pat| {
      var k := if t[..|pat|] == pat then |pat| else 1;
      ShiftAbsent(t, q, k);
      ReplaceKeepsAbsent(t[k..], pat, rep, q);
      assert !OccursAt(t, q, 0);
      ReplaceStep(t, pat, rep, q);
    }
  }

  /** After `s.replace(pat, rep)` no `pat` is left, provided `rep` shares no
      character with `pat`. */
  lemma {:induction false} ReplaceRemoves(s: string, pat: string, rep: string)
    requires |pat| > 0 && |rep| > 0 && Disjoint(rep, pat)
    ensures !Contains(Replace(s, pat, rep), pat)
    decreases |s|
  {
    if |s| < |pat| {
      assert Replace(s, pat, rep) == s;
    } else {
      var k := if s[..|pat|] == pat then |pat| else 1;
      ReplaceRemoves(s[k..], pat, rep);
      ReplaceStep(s, pat, rep, pat);
    }
  }

  // ------------------------------------------------------ joining, splitting

  /** Python's `sep.join(parts)`, JavaScript's `parts.join(sep)`. */
  function Join(parts: seq<string>, sep: string): string {
    if |parts| == 0 then ""
    else if |parts| == 1 then parts[0]
    else parts[0] + sep + Join(parts[1..], sep)
  }

  /** A character in no part and not in the separator is not in the join. */
  lemma {:induction false} JoinAvoids(parts: seq<string>, sep: string, c: char)
    requires c !in sep
    requires forall k :: 0 <= k < |parts| ==> c !in parts[k]
    ensures c !in Join(parts, sep)
    decreases |parts|
  {
    if |parts| > 1 {
      JoinAvoids(parts[1..], sep, c);
    }
  }

  function IndexOf(s: string, c: char): (i: nat)
    requires c in s
    ensures i < |s| && s[i] == c && c !in s[..i]
  {
    if s[0] == c then 0 else 1 + IndexOf(s[1..], c)
  }

  /** Python's `s.split(sep)` / JavaScript's `s.split(sep)` on a one-character
      separator: the pieces between separators, empty pieces included. */
  function Split(s: string, sep: char): (r: seq<string>)
    ensures |r| > 0
    decreases |s|
  {
    if sep in s then
      var i := IndexOf(s, sep);
      [s[..i]] + Split(s[i + 1..], sep)
    else [s]
  }

  /** Splitting a join on a separator that occurs in no part gives the parts
      back. */
  lemma {:induction false} SplitJoin(parts: seq<string>, sep: char)
    requires |parts| > 0
    requires forall k :: 0 <= k < |parts| ==> sep !in parts[k]
    ensures Split(Join(parts, [sep]), sep) == parts
  {
    if |parts| > 1 {
      var rest := Join(parts[1..], [sep]);
      var s := Join(parts, [sep]);
      assert s == parts[0] + [sep] + rest;
      assert s[..|parts[0]|] == parts[0];
      assert s[|parts[0]|] == sep;
      var i := IndexOf(s, sep);
      assert i == |parts[0]|;
      assert s[i + 1..] == rest;
      SplitJoin(parts[1..], sep);
    }
  }

  // ---------------------------------------------------------------- numbers

  function DigitChar(d: nat): (c: char)
    requires d < 10
    ensures IsDigit(c)
  {
    ('0' as int + d) as char
  }

  function DigitValue(c: char): nat
    requires IsDigit(c)
  {
    c as int - '0' as int
  }

  /** Decimal notation of a natural number (Python's `str`, JavaScript's
      `String`), without leading zeros. */
  function NatToString(n: nat): (r: string)
    ensures |r| > 0
    decreases n
  {
    if n < 10 then [DigitChar(n)] else NatToString(n / 10) + [DigitChar(n % 10)]
  }

  /** The value of a string of decimal digits. */
  function DigitsValue(s: string): nat
    requires AllDigits(s)
  {
    if s == [] then 0 else 10 * DigitsValue(s[..|s| - 1]) + DigitValue(s[|s| - 1])
  }

  /** A natural number is the value of its decimal notation. */
  lemma {:induction false} NatToStringValue(n: nat)
    ensures AllDigits(NatToString(n)) && DigitsValue(NatToString(n)) == n
    decreases n
  {
    if n >= 10 {
      NatToStringValue(n / 10);
      var s := NatToString(n);
      assert s[..|s| - 1] == NatToString(n / 10);
    }
  }

  function Pow10(k: nat): (r: nat)
    ensures r >= 1
  {
    if k == 0 then 1 else 10 * Pow10(k - 1)
  }

  /** A number below 10^k has at most k digits. */
  lemma {:induction false} NatToStringLength(n: nat, k: nat)
    requires k >= 1 && n < Pow10(k)
    ensures |NatToString(n)| <= k
    decreases n
  {
    if n >= 10 {
      NatToStringLength(n / 10, k - 1);
    }
  }

  /** `s.padStart(width, c)` / Python's `%02d`-style padding on the left. */
  function PadLeft(s: string, width: nat, c: char): (r: string)
    ensures |r| >= width && |r| >= |s|
  {
    if |s| >= width then s else seq(width - |s|, _ => c) + s
  }

  /** Leading zeros do not change the value of a digit string. */
  lemma {:induction false} LeadingZerosValue(k: nat, s: string)
    requires AllDigits(s)
    ensures AllDigits(seq(k, _ => '0') + s)
    ensures DigitsValue(seq(k, _ => '0') + s) == DigitsValue(s)
    decreases |s|
  {
    var z := seq(k, _ => '0');
    if s == [] {
      assert z + s == z;
      ZerosValue(k);
    } else {
      var t := z + s;
      assert t[..|t| - 1] == z + s[..|s| - 1];
      LeadingZerosValue(k, s[..|s| - 1]);
    }
  }

  lemma {:induction false} ZerosValue(k: nat)
    ensures AllDigits(seq(k, _ => '0')) && DigitsValue(seq(k, _ => '0')) == 0
  {
    if k > 0 {
      assert seq(k, _ => '0')[..k - 1] == seq(k - 1, _ => '0');
      ZerosValue(k - 1);
    }
  }

  /** A zero-padded decimal notation still denotes the number. */
  lemma PaddedNatValue(n: nat, width: nat)
    ensures AllDigits(PadLeft(NatToString(n), width, '0'))
    ensures DigitsValue(PadLeft(NatToString(n), width, '0')) == n
  {
    NatToStringValue(n);
    var s := NatToString(n);
    if |s| < width {
      LeadingZerosValue(width - |s|, s);
    }
  }

  // ------------------------------------------------------------- comparison

  /** String `<` in Python and JavaScript: lexicographic by character code. */
  predicate LexLess(a: string, b: string)
    decreases |a|
  {
    if |a| == 0 then |b| > 0
    else if |b| == 0 then false
    else if a[0] != b[0] then a[0] < b[0]
    else LexLess(a[1..], b[1..])
  }

  /** String `<` is asymmetric. */
  lemma {:induction false} LexLessAsymmetric(a: string, b: string)
    ensures LexLess(a, b) ==> !LexLess(b, a)
    decreases |a|
  {
    if |a| > 0 && |b| > 0 && a[0] == b[0] {
      LexLessAsymmetric(a[1..], b[1..]);
    }
  }
}
