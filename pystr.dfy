/**
 * The behaviour of Python's `str` methods that the status-page code relies on,
 * over Dafny strings (sequences of Unicode scalar values, as a Python `str` is
 * a sequence of code points, so lengths agree). Letter case, digits and word
 * characters are ASCII only, where Python's Unicode-aware `str.lower()`, `\d`,
 * `\w` and `\b` accept more; whitespace is Python's full `str.isspace()` set.
 */
module PyStr {
  import opened Wrappers

  // ----- characters -----

  /** `c.isspace()`; also exactly the characters `\s` matches in a str pattern. */
  predicate IsSpace(c: char) {
    c == ' ' || '\t' <= c <= '\r' || '\U{1c}' <= c <= '\U{1f}' || c == '\U{85}' || c == '\U{a0}'
    || c == '\U{1680}' || '\U{2000}' <= c <= '\U{200a}' || c == '\U{2028}' || c == '\U{2029}'
    || c == '\U{202f}' || c == '\U{205f}' || c == '\U{3000}'
  }

  /** An ASCII decimal digit; Python's `\d` also accepts the other Unicode decimal digits. */
  predicate IsDigit(c: char) { '0' <= c <= '9' }

  predicate IsHexDigit(c: char) { '0' <= c <= '9' || 'a' <= c <= 'f' || 'A' <= c <= 'F' }

  /**
   * An ASCII letter, digit or underscore. Python's `\w` (and so `\b`) in a str
   * pattern also accepts every other Unicode letter and digit, such as 'é'.
   */
  predicate IsWordChar(c: char) { 'a' <= c <= 'z' || 'A' <= c <= 'Z' || IsDigit(c) || c == '_' }

  function LowerChar(c: char): char {
    if 'A' <= c <= 'Z' then (c as int + 32) as char else c
  }

  function UpperChar(c: char): char {
    if 'a' <= c <= 'z' then (c as int - 32) as char else c
  }

  // ----- predicates on strings -----

  /** Every character of s is whitespace (so "" qualifies). */
  predicate AllSpace(s: string) {
    forall i :: 0 <= i < |s| ==> IsSpace(s[i])
  }

  /** s neither starts nor ends with whitespace. */
  predicate IsStripped(s: string) {
    s == [] || (!IsSpace(s[0]) && !IsSpace(s[|s| - 1]))
  }

  /** t is a contiguous part of s. */
  predicate IsInfix(t: string, s: string) {
    exists a, b | 0 <= a <= b <= |s| :: s[a..b] == t
  }

  /** `s.endswith(suffix)`. */
  predicate EndsWith(s: string, suffix: string) {
    |suffix| <= |s| && s[|s| - |suffix|..] == suffix
  }

  /** pat occurs in s starting at index i. */
  predicate OccursAt(s: string, pat: string, i: nat) {
    i + |pat| <= |s| && s[i..i + |pat|] == pat
  }

  // ----- strip, lower, upper -----

  /** The end of the run of whitespace starting at i (`\s*` taken greedily). */
  function SkipSpaces(s: string, i: nat): (j: nat)
    requires i <= |s|
    ensures i <= j <= |s| && (j == |s| || !IsSpace(s[j]))
    ensures forall k :: i <= k < j ==> IsSpace(s[k])
    decreases |s| - i
  {
    if i < |s| && IsSpace(s[i]) then SkipSpaces(s, i + 1) else i
  }

  /** The start of the run of whitespace that ends s[..e], not going below a. */
  function TrimEnd(s: string, a: nat, e: nat): (b: nat)
    requires a <= e <= |s|
    ensures a <= b <= e && (b == a || !IsSpace(s[b - 1]))
    ensures forall k :: b <= k < e ==> IsSpace(s[k])
    decreases e
  {
    if e > a && IsSpace(s[e - 1]) then TrimEnd(s, a, e - 1) else e
  }

  /** `s.strip()`: s with the whitespace at both ends removed. */
  function Strip(s: string): (r: string)
    ensures IsStripped(r)
    ensures IsInfix(r, s)
    ensures r == [] <==> AllSpace(s)
  {
    var a := SkipSpaces(s, 0);
    var b := TrimEnd(s, a, |s|);
    assert a < |s| ==> !IsSpace(s[a]) && a < b;
    s[a..b]
  }

  /** A part of a part of s is a part of s. */
  lemma InfixTransitive(u: string, t: string, s: string)
    requires IsInfix(u, t) && IsInfix(t, s)
    ensures IsInfix(u, s)
  {
    var a, b :| 0 <= a <= b <= |s| && s[a..b] == t;
    var c, d :| 0 <= c <= d <= |t| && t[c..d] == u;
    assert |s[a + c..a + d]| == |u|;
    forall i | 0 <= i < |u| ensures s[a + c..a + d][i] == u[i] {
      assert u[i] == t[c + i] == s[a + c + i];
    }
    assert s[a + c..a + d] == u;
  }

  /** Stripping a string that has no whitespace at its ends leaves it unchanged. */
  lemma StripStripped(s: string)
    requires IsStripped(s)
    ensures Strip(s) == s
  {
  }

  /** A run of whitespace from i that stops at j is exactly what SkipSpaces finds. */
  lemma {:induction false} SkipSpacesTo(s: string, i: nat, j: nat)
    requires i <= j <= |s|
    requires forall k :: i <= k < j ==> IsSpace(s[k])
    requires j == |s| || !IsSpace(s[j])
    ensures SkipSpaces(s, i) == j
    decreases j - i
  {
    if i < j {
      SkipSpacesTo(s, i + 1, j);
    }
  }

  /** A run of whitespace that starts at b and ends e is exactly what TrimEnd finds. */
  lemma {:induction false} TrimEndTo(s: string, a: nat, e: nat, b: nat)
    requires a <= b <= e <= |s|
    requires forall k :: b <= k < e ==> IsSpace(s[k])
    requires b == a || !IsSpace(s[b - 1])
    ensures TrimEnd(s, a, e) == b
    decreases e
  {
    if b < e {
      TrimEndTo(s, a, e - 1, b);
    }
  }

  /** Whitespace around a stripped, non-empty string is all that strip removes. */
  lemma StripAround(p: string, m: string, q: string)
    requires AllSpace(p) && AllSpace(q)
    requires m != [] && IsStripped(m)
    ensures Strip(p + m + q) == m
  {
    var s := p + m + q;
    assert s[|p|] == m[0];
    SkipSpacesTo(s, 0, |p|);
    assert s[|p| + |m| - 1] == m[|m| - 1];
    assert forall k :: |p| + |m| <= k < |s| ==> s[k] == q[k - |p| - |m|];
    TrimEndTo(s, |p|, |s|, |p| + |m|);
    assert s[|p|..|p| + |m|] == m;
  }

  /** `s.lower()`, for ASCII letters. */
  function Lower(s: string): (r: string)
    ensures |r| == |s| && forall i :: 0 <= i < |s| ==> r[i] == LowerChar(s[i])
  {
    seq(|s|, i requires 0 <= i < |s| => LowerChar(s[i]))
  }

  /** `s.upper()`, for ASCII letters. */
  function Upper(s: string): (r: string)
    ensures |r| == |s| && forall i :: 0 <= i < |s| ==> r[i] == UpperChar(s[i])
  {
    seq(|s|, i requires 0 <= i < |s| => UpperChar(s[i]))
  }

  // ----- searching, replacing, splitting, joining -----

  function IndexFrom(s: string, pat: string, i: nat): (r: Option<nat>)
    ensures r.Some? ==> i <= r.value && OccursAt(s, pat, r.value)
    ensures r.Some? ==> forall j :: i <= j < r.value ==> !OccursAt(s, pat, j)
    ensures r.None? ==> forall j: nat :: i <= j ==> !OccursAt(s, pat, j)
    decreases |s| - i
  {
    if i + |pat| > |s| then None
    else if OccursAt(s, pat, i) then Some(i)
    else IndexFrom(s, pat, i + 1)
  }

  /** `s.find(pat)`, with None for -1: the least index at which pat occurs in s. */
  function IndexOf(s: string, pat: string): (r: Option<nat>)
    ensures r.Some? ==> OccursAt(s, pat, r.value) && forall j :: 0 <= j < r.value ==> !OccursAt(s, pat, j)
    ensures r.None? ==> forall j: nat :: !OccursAt(s, pat, j)
  {
    IndexFrom(s, pat, 0)
  }

  /** `pat in s`. */
  predicate Contains(s: string, pat: string) {
    IndexOf(s, pat).Some?
  }

  /** `s.replace(pat, rep)`: every occurrence of pat, scanning left to right without overlaps, becomes rep. */
  function ReplaceAll(s: string, pat: string, rep: string): string
    requires pat != []
    decreases |s|
  {
    if |s| < |pat| then s
    else if s[..|pat|] == pat then rep + ReplaceAll(s[|pat|..], pat, rep)
    else [s[0]] + ReplaceAll(s[1..], pat, rep)
  }

  /** Replacing one character by one character rewrites s position by position. */
  lemma {:induction false} ReplaceCharAt(s: string, c: char, d: char)
    ensures |ReplaceAll(s, [c], [d])| == |s|
    ensures forall i :: 0 <= i < |s| ==> ReplaceAll(s, [c], [d])[i] == if s[i] == c then d else s[i]
    decreases |s|
  {
    if |s| > 0 {
      ReplaceCharAt(s[1..], c, d);
      var t := ReplaceAll(s[1..], [c], [d]);
      assert ReplaceAll(s, [c], [d]) == [if s[0] == c then d else s[0]] + t;
    }
  }

  /** A pattern that occurs nowhere is not replaced. */
  lemma {:induction false} ReplaceAbsent(s: string, pat: string, rep: string)
    requires pat != []
    requires forall j: nat :: !OccursAt(s, pat, j)
    ensures ReplaceAll(s, pat, rep) == s
    decreases |s|
  {
    if |s| >= |pat| {
      assert !OccursAt(s, pat, 0);
      assert s[..|pat|] != pat;
      forall j: nat ensures !OccursAt(s[1..], pat, j) {
        assert !OccursAt(s, pat, j + 1);
        if j + |pat| <= |s| - 1 {
          assert s[1..][j..j + |pat|] == s[j + 1..j + 1 + |pat|];
        }
      }
      ReplaceAbsent(s[1..], pat, rep);
    }
  }

  /** `sep.join(parts)`. */
  function Join(sep: string, parts: seq<string>): string
  {
    if parts == [] then ""
    else if |parts| == 1 then parts[0]
    else parts[0] + sep + Join(sep, parts[1..])
  }

  /** Joining non-empty strings with no whitespace at their ends gives a string with none at its ends. */
  lemma {:induction false} JoinStripped(sep: string, parts: seq<string>)
    requires forall i :: 0 <= i < |parts| ==> parts[i] != [] && IsStripped(parts[i])
    ensures IsStripped(Join(sep, parts))
    ensures Join(sep, parts) == [] <==> parts == []
    ensures parts != [] ==> Join(sep, parts)[0] == parts[0][0]
  {
    if |parts| > 1 {
      JoinStripped(sep, parts[1..]);
      var rest := Join(sep, parts[1..]);
      assert Join(sep, parts) == parts[0] + sep + rest;
      assert (parts[0] + sep + rest)[0] == parts[0][0];
    }
  }

  function CharIndex(s: string, c: char): (r: Option<nat>)
    ensures r.Some? ==> r.value < |s| && s[r.value] == c && c !in s[..r.value]
    ensures r.None? ==> c !in s
  {
    if s == [] then None
    else if s[0] == c then Some(0)
    else match CharIndex(s[1..], c)
      case None => None
      case Some(i) =>
        assert s[..i + 1] == [s[0]] + s[1..][..i];
        Some(i + 1)
  }

  /** `s.split(sep)` for a one-character separator: the pieces between the separators. */
  function Split(s: string, sep: char): (r: seq<string>)
    ensures |r| >= 1
    decreases |s|
  {
    match CharIndex(s, sep)
    case None => [s]
    case Some(i) => [s[..i]] + Split(s[i + 1..], sep)
  }

  /** The pieces hold no separator, and joining them with it gives s back. */
  lemma {:induction false} SplitRoundTrip(s: string, sep: char)
    ensures forall i :: 0 <= i < |Split(s, sep)| ==> sep !in Split(s, sep)[i]
    ensures Join([sep], Split(s, sep)) == s
    decreases |s|
  {
    match CharIndex(s, sep)
    case None =>
    case Some(i) =>
      var rest := Split(s[i + 1..], sep);
      SplitRoundTrip(s[i + 1..], sep);
      assert Split(s, sep) == [s[..i]] + rest;
      assert Join([sep], [s[..i]] + rest) == s[..i] + [sep] + Join([sep], rest);
      assert s == s[..i] + [sep] + s[i + 1..];
  }

  /** `s.split(sep)` for a separator of any length: the pieces between its occurrences, found left to right. */
  function SplitOn(s: string, sep: string): (r: seq<string>)
    requires sep != []
    ensures |r| >= 1
    ensures |r| >= 2 <==> Contains(s, sep)
    decreases |s|
  {
    match IndexOf(s, sep)
    case None => [s]
    case Some(i) => [s[..i]] + SplitOn(s[i + |sep|..], sep)
  }

  /** Joining the pieces with the separator gives s back. */
  lemma {:induction false} SplitOnRoundTrip(s: string, sep: string)
    requires sep != []
    ensures Join(sep, SplitOn(s, sep)) == s
    decreases |s|
  {
    match IndexOf(s, sep)
    case None =>
    case Some(i) =>
      var rest := SplitOn(s[i + |sep|..], sep);
      SplitOnRoundTrip(s[i + |sep|..], sep);
      assert SplitOn(s, sep) == [s[..i]] + rest;
      assert Join(sep, [s[..i]] + rest) == s[..i] + sep + Join(sep, rest);
      assert s == s[..i] + sep + s[i + |sep|..];
  }

  // ----- digits and int() -----

  /** `s.isdigit()`, for ASCII digits: non-empty and all digits. */
  predicate IsDigits(s: string) {
    |s| > 0 && forall i :: 0 <= i < |s| ==> IsDigit(s[i])
  }

  /** The decimal value of a string of digits. */
  function DigitsValue(s: string): nat
    requires forall i :: 0 <= i < |s| ==> IsDigit(s[i])
  {
    if s == [] then 0
    else
      assert IsDigit(s[|s| - 1]);
      DigitsValue(s[..|s| - 1]) * 10 + (s[|s| - 1] as int - '0' as int)
  }

  /** Digits, with single underscores allowed between two digits, as Python's int() accepts them. */
  predicate GroupedDigits(s: string)
    decreases |s|
  {
    |s| > 0 && IsDigit(s[0]) &&
    (|s| == 1 || (s[1] == '_' && GroupedDigits(s[2..])) || (s[1] != '_' && GroupedDigits(s[1..])))
  }

  function RemoveUnderscores(s: string): (r: string)
    ensures forall i :: 0 <= i < |r| ==> r[i] != '_'
  {
    if s == [] then [] else (if s[0] == '_' then [] else [s[0]]) + RemoveUnderscores(s[1..])
  }

  lemma {:induction false} GroupedDigitsAreDigits(s: string)
    requires GroupedDigits(s)
    ensures IsDigits(RemoveUnderscores(s))
    decreases |s|
  {
    if |s| > 1 {
      if s[1] == '_' {
        GroupedDigitsAreDigits(s[2..]);
        assert RemoveUnderscores(s) == [s[0]] + RemoveUnderscores(s[2..]);
      } else {
        GroupedDigitsAreDigits(s[1..]);
      }
    }
  }

  /** `int(s)` for a str argument; None where Python raises ValueError. */
  function PyInt(s: string): Option<int>
  {
    var t := Strip(s);
    var body := if |t| > 0 && (t[0] == '-' || t[0] == '+') then t[1..] else t;
    if GroupedDigits(body) then
      GroupedDigitsAreDigits(body);
      var v := DigitsValue(RemoveUnderscores(body));
      var n: int := if t[0] == '-' then -(v as int) else v;
      Some(n)
    else None
  }

  /** A digit string is its own value under int(), as `h.isdigit()` followed by `int(h)` relies on. */
  lemma {:induction false} PyIntOfDigits(s: string)
    requires IsDigits(s)
    ensures PyInt(s) == Some(DigitsValue(s))
  {
    assert !IsSpace(s[0]) && !IsSpace(s[|s| - 1]);
    StripStripped(s);
    assert s[0] != '-' && s[0] != '+';
    DigitsGrouped(s);
    DigitsKeepUnderscoreFree(s);
  }

  lemma {:induction false} DigitsGrouped(s: string)
    requires IsDigits(s)
    ensures GroupedDigits(s)
    decreases |s|
  {
    if |s| > 1 {
      DigitsGrouped(s[1..]);
    }
  }

  lemma {:induction false} DigitsKeepUnderscoreFree(s: string)
    requires forall i :: 0 <= i < |s| ==> IsDigit(s[i])
    ensures RemoveUnderscores(s) == s
    decreases |s|
  {
    if s != [] {
      DigitsKeepUnderscoreFree(s[1..]);
    }
  }
}
