/**
 * The multi-skin extractor of `EpsonHTMLParser`: model, printer status,
 * ink and maintenance levels, the network and Wi-Fi Direct key/value
 * tables and the MAC address, each read from the parsed status page.
 * Each regular expression of the original is written out as a scanner.
 */
module Parser {
  import opened Wrappers
  import opened PyStr
  import opened Dom
  import opened Dicts

  /** Statuses longer than this keep their trailing period. */
  const MaxStatusLength := 40

  const VendorPrefix := "Epson "

  // ----- regular-expression building blocks -----

  /** The end of the run of digits starting at i (`\d+` taken greedily, when non-empty). */
  function SkipDigits(s: string, i: nat): (j: nat)
    requires i <= |s|
    ensures i <= j <= |s| && (j == |s| || !IsDigit(s[j]))
    ensures forall k :: i <= k < j ==> IsDigit(s[k])
    decreases |s| - i
  {
    if i < |s| && IsDigit(s[i]) then SkipDigits(s, i + 1) else i
  }

  // ----- _height_from_style -----

  /** The text the height pattern is searched in: the style lower-cased, a list style joined by spaces first. */
  function StyleText(v: AttrValue): string {
    match v
    case Str(s) => Lower(s)
    case Multi(parts) => Lower(Join(" ", parts))
  }

  /** The group `(\d+)` at position b: the value of the digit run there, absent when there is none. */
  function DigitGroup(s: string, b: nat): (r: Option<nat>)
    requires b <= |s|
  {
    var c := SkipDigits(s, b);
    if c == b then None
    else
      assert forall k :: 0 <= k < |s[b..c]| ==> IsDigit(s[b..c][k]);
      Some(DigitsValue(s[b..c]))
  }

  /** The pattern `height\s*:\s*(\d+)` tried at position i of s: the value of its digit group. */
  function HeightMatchAt(s: string, i: nat): (r: Option<nat>)
    ensures r.Some? ==> OccursAt(s, "height", i)
  {
    if !OccursAt(s, "height", i) then None
    else
      var a := SkipSpaces(s, i + 6);
      if a == |s| || s[a] != ':' then None
      else DigitGroup(s, SkipSpaces(s, a + 1))
  }

  /** Every character of s[x..y] is whitespace: a match of `\s*` from x to y. */
  predicate SpaceRun(s: string, x: nat, y: nat) {
    x <= y <= |s| && forall k :: x <= k < y ==> IsSpace(s[k])
  }

  /** A run of digits from i that stops at j is exactly what SkipDigits finds. */
  lemma {:induction false} SkipDigitsTo(s: string, i: nat, j: nat)
    requires i <= j <= |s|
    requires forall k :: i <= k < j ==> IsDigit(s[k])
    requires j == |s| || !IsDigit(s[j])
    ensures SkipDigits(s, i) == j
    decreases j - i
  {
    if i < j {
      SkipDigitsTo(s, i + 1, j);
    }
  }

  /**
   * `height\s*:\s*(\d+)` matches at i, with its digit group at s[b..c]; the
   * group is greedy, so it ends where the digits do.
   */
  predicate HeightPatternAt(s: string, i: nat, b: nat, c: nat) {
    OccursAt(s, "height", i) &&
    (exists a: nat | i + 6 <= a < b :: SpaceRun(s, i + 6, a) && SpaceRun(s, a + 1, b) && s[a] == ':') &&
    b < c <= |s| && (forall k :: b <= k < c ==> IsDigit(s[k])) && (c == |s| || !IsDigit(s[c]))
  }

  /** The scanner succeeds exactly where the pattern matches, and yields the value of the group it matched. */
  lemma HeightMatchAtIsPattern(s: string, i: nat)
    ensures HeightMatchAt(s, i).Some? <==> exists b: nat, c: nat :: HeightPatternAt(s, i, b, c)
    ensures forall b: nat, c: nat :: HeightPatternAt(s, i, b, c) ==> HeightMatchAt(s, i) == Some(DigitsValue(s[b..c]))
  {
    if HeightMatchAt(s, i).Some? {
      HeightMatchFindsPattern(s, i);
    }
    forall b: nat, c: nat | HeightPatternAt(s, i, b, c) ensures HeightMatchAt(s, i) == Some(DigitsValue(s[b..c])) {
      HeightPatternIsFound(s, i, b, c);
    }
  }

  /** Where the scanner succeeds, the pattern matches with the group the scanner read. */
  lemma HeightMatchFindsPattern(s: string, i: nat)
    requires HeightMatchAt(s, i).Some?
    ensures exists b: nat, c: nat :: HeightPatternAt(s, i, b, c)
  {
    var a := SkipSpaces(s, i + 6);
    var b := SkipSpaces(s, a + 1);
    var c := SkipDigits(s, b);
    assert HeightPatternAt(s, i, b, c);
  }

  /** Where the pattern matches, the scanner reads the same runs and so the same group. */
  lemma HeightPatternIsFound(s: string, i: nat, b: nat, c: nat)
    requires HeightPatternAt(s, i, b, c)
    ensures HeightMatchAt(s, i) == Some(DigitsValue(s[b..c]))
  {
    var a: nat :| i + 6 <= a < b && SpaceRun(s, i + 6, a) && SpaceRun(s, a + 1, b) && s[a] == ':';
    HeightRunsAreFound(s, i, a, b, c);
  }

  lemma HeightRunsAreFound(s: string, i: nat, a: nat, b: nat, c: nat)
    requires OccursAt(s, "height", i) && i + 6 <= a < b
    requires SpaceRun(s, i + 6, a) && SpaceRun(s, a + 1, b) && s[a] == ':'
    requires b < c <= |s| && (forall k :: b <= k < c ==> IsDigit(s[k])) && (c == |s| || !IsDigit(s[c]))
    ensures HeightMatchAt(s, i) == Some(DigitsValue(s[b..c]))
  {
    assert IsDigit(s[b]);
    HeightColonAt(s, i, a, b);
    DigitGroupAt(s, b, c);
  }

  /** After "height", a space run, ":" and a space run ending at b, the scanner reads the group at b. */
  lemma HeightColonAt(s: string, i: nat, a: nat, b: nat)
    requires OccursAt(s, "height", i) && i + 6 <= a < b
    requires SpaceRun(s, i + 6, a) && SpaceRun(s, a + 1, b) && s[a] == ':'
    requires b == |s| || !IsSpace(s[b])
    ensures HeightMatchAt(s, i) == DigitGroup(s, b)
  {
    SkipSpacesTo(s, i + 6, a);
    SkipSpacesTo(s, a + 1, b);
  }

  /** A run of digits from b that stops at c is the group read at b. */
  lemma DigitGroupAt(s: string, b: nat, c: nat)
    requires b < c <= |s| && (forall k :: b <= k < c ==> IsDigit(s[k])) && (c == |s| || !IsDigit(s[c]))
    ensures DigitGroup(s, b) == Some(DigitsValue(s[b..c]))
  {
    SkipDigitsTo(s, b, c);
  }

  /** `re.search` of the height pattern from position i: the first position where it matches. */
  function FirstHeightMatch(s: string, i: nat): (r: Option<nat>)
    requires i <= |s|
    ensures r.Some? ==> i <= r.value <= |s| && HeightMatchAt(s, r.value).Some?
    ensures r.Some? ==> forall k :: i <= k < r.value ==> HeightMatchAt(s, k).None?
    ensures r.None? ==> forall k :: i <= k <= |s| ==> HeightMatchAt(s, k).None?
    decreases |s| - i
  {
    if HeightMatchAt(s, i).Some? then Some(i)
    else if i == |s| then None
    else FirstHeightMatch(s, i + 1)
  }

  /** `_height_from_style`: the pixel height written in an element's style attribute. */
  function HeightFromStyle(style: Option<AttrValue>): Option<nat> {
    match style
    case None => None
    case Some(v) =>
      var s := StyleText(v);
      match FirstHeightMatch(s, 0)
      case None => None
      case Some(p) => HeightMatchAt(s, p)
  }

  /** The style height is the value at the leftmost place the pattern matches, and absent when it matches nowhere or there is no style. */
  lemma HeightFromStyleIsFirstMatch(style: Option<AttrValue>)
    ensures style.None? ==> HeightFromStyle(style).None?
    ensures style.Some? ==> var s := StyleText(style.value);
      (HeightFromStyle(style).None? <==> forall k :: 0 <= k <= |s| ==> HeightMatchAt(s, k).None?) &&
      (HeightFromStyle(style).Some? ==>
         exists p :: 0 <= p <= |s| && HeightFromStyle(style) == HeightMatchAt(s, p) &&
                     forall k :: 0 <= k < p ==> HeightMatchAt(s, k).None?)
  {
  }

  // ----- _clean_key -----

  /** `_clean_key`: drop "\xa0:", turn " :" into ":", strip, then drop one trailing ":" and strip again. */
  function CleanKey(t: string): (r: string)
    ensures IsStripped(r)
  {
    DropColon(Strip(JoinColons(t)))
  }

  /** The two replacements `_clean_key` starts with. */
  function JoinColons(t: string): string {
    ReplaceAll(ReplaceAll(t, "\U{a0}:", ""), " :", ":")
  }

  /** Drop one trailing colon and strip again; a key without one is kept as it is. */
  function DropColon(u: string): (r: string)
    requires IsStripped(u)
    ensures IsStripped(r)
    ensures EndsWith(u, ":") ==> r == Strip(u[..|u| - 1]) && |r| < |u|
    ensures !EndsWith(u, ":") ==> r == u
  {
    if EndsWith(u, ":") then Strip(u[..|u| - 1]) else u
  }

  /** An occurrence of a two-character pattern is the two characters in a row. */
  lemma PairAt(s: string, a: char, b: char, j: nat)
    ensures OccursAt(s, [a, b], j) <==> j + 2 <= |s| && s[j] == a && s[j + 1] == b
  {
    if j + 2 <= |s| {
      assert s[j..j + 2][0] == s[j] && s[j..j + 2][1] == s[j + 1];
    }
  }

  /** Replacing pat in u + pat, when it first occurs at the end, replaces that one occurrence. */
  lemma {:induction false} ReplaceAtEnd(u: string, pat: string, rep: string)
    requires pat != []
    requires forall j :: 0 <= j < |u| ==> !OccursAt(u + pat, pat, j)
    ensures ReplaceAll(u + pat, pat, rep) == u + rep
    decreases |u|
  {
    var s := u + pat;
    if u == [] {
      assert s[..|pat|] == pat && s[|pat|..] == [];
    } else {
      assert !OccursAt(s, pat, 0);
      assert s[..|pat|] != pat;
      assert s[1..] == u[1..] + pat;
      forall j | 0 <= j < |u[1..]| ensures !OccursAt(u[1..] + pat, pat, j) {
        assert !OccursAt(s, pat, j + 1);
        assert (u[1..] + pat)[j..j + |pat|] == s[j + 1..j + 1 + |pat|];
      }
      ReplaceAtEnd(u[1..], pat, rep);
      assert u + rep == [u[0]] + (u[1..] + rep);
    }
  }

  /** In a string with no colon, no "<c>:" occurs. */
  lemma NoColonPair(k: string, c: char)
    requires ':' !in k
    ensures forall j: nat :: !OccursAt(k, [c, ':'], j)
  {
    forall j: nat ensures !OccursAt(k, [c, ':'], j) {
      PairAt(k, c, ':', j);
    }
  }

  /** In a colon-free string ending in anything but c, followed by a colon, "<c>:" does not occur. */
  lemma NoColonPairBeforeColon(k: string, c: char)
    requires ':' !in k && (k == [] || k[|k| - 1] != c)
    ensures forall j: nat :: !OccursAt(k + [':'], [c, ':'], j)
  {
    forall j: nat ensures !OccursAt(k + [':'], [c, ':'], j) {
      PairAt(k + [':'], c, ':', j);
      if j + 1 < |k| {
        assert (k + [':'])[j + 1] == k[j + 1];
      } else if j < |k| {
        assert (k + [':'])[j] == k[|k| - 1];
      }
    }
  }

  /** In a colon-free string ending in anything but c, followed by "<c>:", that pair occurs first at the end. */
  lemma ColonPairOnlyAtEnd(k: string, c: char)
    requires ':' !in k && (k == [] || k[|k| - 1] != c)
    ensures forall j :: 0 <= j < |k| ==> !OccursAt(k + [c, ':'], [c, ':'], j)
  {
    forall j | 0 <= j < |k| ensures !OccursAt(k + [c, ':'], [c, ':'], j) {
      PairAt(k + [c, ':'], c, ':', j);
      if j + 1 < |k| {
        assert (k + [c, ':'])[j + 1] == k[j + 1];
      } else {
        assert (k + [c, ':'])[j] == k[|k| - 1];
      }
    }
  }

  /** The two replacements of `_clean_key` leave a colon-free key unchanged. */
  lemma CleanKeyReplacesNothing(k: string)
    requires ':' !in k
    ensures ReplaceAll(k, "\U{a0}:", "") == k && ReplaceAll(k, " :", ":") == k
    ensures JoinColons(k) == k
  {
    NoColonPair(k, '\U{a0}');
    ReplaceAbsent(k, "\U{a0}:", "");
    NoColonPair(k, ' ');
    ReplaceAbsent(k, " :", ":");
  }

  lemma CleanKeyPlain(k: string)
    requires IsStripped(k) && ':' !in k
    ensures CleanKey(k) == k
  {
    CleanKeyReplacesNothing(k);
    StripStripped(k);
    assert !EndsWith(k, ":") by {
      if |k| >= 1 { assert k[|k| - 1..][0] == k[|k| - 1]; }
    }
  }

  lemma CleanKeyColon(k: string)
    requires IsStripped(k) && ':' !in k
    ensures JoinColons(k + ":") == k + ":"
    ensures CleanKey(k + ":") == k
  {
    var kc := k + ":";
    NoColonPairBeforeColon(k, '\U{a0}');
    ReplaceAbsent(kc, "\U{a0}:", "");
    NoColonPairBeforeColon(k, ' ');
    ReplaceAbsent(kc, " :", ":");
    assert IsStripped(kc) by { if k != [] { assert kc[0] == k[0]; } }
    StripStripped(kc);
    StripStripped(k);
    assert kc[..|kc| - 1] == k;
  }

  lemma CleanKeySpaceColon(k: string)
    requires IsStripped(k) && ':' !in k
    ensures CleanKey(k + " :") == k
  {
    var ks := k + " :";
    assert ks == (k + " ") + [':'];
    NoColonPairBeforeColon(k + " ", '\U{a0}');
    ReplaceAbsent(ks, "\U{a0}:", "");
    ColonPairOnlyAtEnd(k, ' ');
    ReplaceAtEnd(k, " :", ":");
    assert JoinColons(ks) == k + ":";
    CleanKeyColon(k);
  }

  lemma CleanKeyNbspColon(k: string)
    requires IsStripped(k) && ':' !in k
    ensures CleanKey(k + "\U{a0}:") == k
  {
    ColonPairOnlyAtEnd(k, '\U{a0}');
    ReplaceAtEnd(k, "\U{a0}:", "");
    assert k + "" == k;
    CleanKeyReplacesNothing(k);
    assert JoinColons(k + "\U{a0}:") == k;
    CleanKeyPlain(k);
  }

  /** A key with no colon and no surrounding whitespace survives cleaning as itself, with a colon, " :" or "\xa0:" after it. */
  lemma CleanKeyDropsColon(k: string)
    requires IsStripped(k) && ':' !in k
    ensures CleanKey(k) == k
    ensures CleanKey(k + ":") == k
    ensures CleanKey(k + " :") == k
    ensures CleanKey(k + "\U{a0}:") == k
  {
    CleanKeyPlain(k);
    CleanKeyColon(k);
    CleanKeySpaceColon(k);
    CleanKeyNbspColon(k);
  }

  // ----- _clean_status -----

  /** `s` starts, ignoring case, with "printer" or "scanner". */
  predicate HasStatusWord(s: string) {
    |s| >= 7 && (Lower(s[..7]) == "printer" || Lower(s[..7]) == "scanner")
  }

  /** The end of the match of `\s*[:\-]?\s*` from position i, taken greedily. */
  function SeparatorEnd(s: string, i: nat): (n: nat)
    requires i <= |s|
    ensures i <= n <= |s| && (n == |s| || !IsSpace(s[n]))
  {
    var b := SkipSpaces(s, i);
    var c := if b < |s| && (s[b] == ':' || s[b] == '-') then b + 1 else b;
    SkipSpaces(s, c)
  }

  /**
   * The length of the text matched by `^(?:printer|scanner)\s+status\s*[:\-]?\s*`,
   * ignoring case, at the start of s; 0 when there is no match.
   */
  function StatusLabelLength(s: string): (n: nat)
    ensures n <= |s|
    ensures n > 0 ==> n == |s| || !IsSpace(s[n])
    ensures !HasStatusWord(s) ==> n == 0
  {
    if !HasStatusWord(s) then 0
    else
      var a := SkipSpaces(s, 7);
      if a == 7 || a + 6 > |s| || Lower(s[a..a + 6]) != "status" then 0
      else SeparatorEnd(s, a + 6)
  }

  /** s[x..y] matches `\s*[:\-]?\s*`. */
  predicate SeparatorRun(s: string, x: nat, y: nat) {
    SpaceRun(s, x, y) ||
    exists c: nat | x <= c < y :: SpaceRun(s, x, c) && SpaceRun(s, c + 1, y) && (s[c] == ':' || s[c] == '-')
  }

  /** s[..m] is a match of `(?:printer|scanner)\s+status\s*[:\-]?\s*`, ignoring case. */
  predicate StatusLabelMatch(s: string, m: nat) {
    HasStatusWord(s) &&
    exists a: nat | 7 < a && a + 6 <= m <= |s| ::
      SpaceRun(s, 7, a) && Lower(s[a..a + 6]) == "status" && SeparatorRun(s, a + 6, m)
  }

  /**
   * The label is found exactly when the pattern matches at the start, and its
   * length is that of the longest match, as the greedy pattern takes.
   */
  lemma StatusLabelLengthIsLongestMatch(s: string)
    ensures StatusLabelLength(s) > 0 <==> exists m: nat :: StatusLabelMatch(s, m)
    ensures StatusLabelLength(s) > 0 ==> StatusLabelMatch(s, StatusLabelLength(s))
    ensures forall m: nat :: StatusLabelMatch(s, m) ==> m <= StatusLabelLength(s)
  {
    var n := StatusLabelLength(s);
    if n > 0 {
      StatusLabelFound(s);
    }
    forall m: nat | StatusLabelMatch(s, m) ensures m <= n {
      var a: nat :| 7 < a && a + 6 <= m <= |s| &&
        SpaceRun(s, 7, a) && Lower(s[a..a + 6]) == "status" && SeparatorRun(s, a + 6, m);
      StatusLabelBound(s, m, a);
    }
  }

  /** What the scanner finds is a match of the label pattern. */
  lemma StatusLabelFound(s: string)
    requires StatusLabelLength(s) > 0
    ensures StatusLabelMatch(s, StatusLabelLength(s))
  {
    var a := SkipSpaces(s, 7);
    assert HasStatusWord(s) && 7 < a && a + 6 <= |s| && Lower(s[a..a + 6]) == "status";
    assert StatusLabelLength(s) == SeparatorEnd(s, a + 6);
    SeparatorEndIsLongest(s, a + 6);
    assert SpaceRun(s, 7, a);
  }

  /** Any match of the label pattern ends no later than the one the scanner finds. */
  lemma StatusLabelBound(s: string, m: nat, a: nat)
    requires HasStatusWord(s) && 7 < a && a + 6 <= m <= |s|
    requires SpaceRun(s, 7, a) && Lower(s[a..a + 6]) == "status" && SeparatorRun(s, a + 6, m)
    ensures m <= StatusLabelLength(s)
  {
    assert LowerChar(s[a..a + 6][0]) == 's' && s[a..a + 6][0] == s[a];
    SkipSpacesTo(s, 7, a);
    assert StatusLabelLength(s) == SeparatorEnd(s, a + 6);
    SeparatorEndIsLongest(s, a + 6);
  }

  /** The separator scanner ends a match of its pattern, and no match from the same place is longer. */
  lemma SeparatorEndIsLongest(s: string, i: nat)
    requires i <= |s|
    ensures SeparatorRun(s, i, SeparatorEnd(s, i))
    ensures forall m: nat :: SeparatorRun(s, i, m) ==> m <= SeparatorEnd(s, i)
  {
    var b := SkipSpaces(s, i);
    var n := SeparatorEnd(s, i);
    if b < |s| && (s[b] == ':' || s[b] == '-') {
      assert SpaceRun(s, i, b) && SpaceRun(s, b + 1, n);
    } else {
      assert SpaceRun(s, i, n);
    }
    forall m: nat | SeparatorRun(s, i, m) ensures m <= n {
      if !SpaceRun(s, i, m) {
        var c: nat :| i <= c < m && SpaceRun(s, i, c) && SpaceRun(s, c + 1, m) && (s[c] == ':' || s[c] == '-');
        SkipSpacesTo(s, i, c);
      }
    }
  }

  /** The status text after stripping and removing its label, before the trailing-period rule. */
  function StatusBody(s: string): string {
    var t := Strip(s);
    t[StatusLabelLength(t)..]
  }

  /** Drop one trailing period from a status of at most MaxStatusLength characters. */
  function DropPeriod(u: string): (v: string)
    ensures v == u || (u != [] && v == u[..|u| - 1])
  {
    if |u| <= MaxStatusLength && EndsWith(u, ".") then u[..|u| - 1] else u
  }

  /**
   * `_clean_status`: strip, remove a "Printer Status:" style label, drop
   * one trailing period when at most MaxStatusLength characters remain; ""
   * becomes None.
   */
  function CleanStatus(s: string): (r: Option<string>)
    ensures r != Some("")
    ensures s == "" ==> r.None?
    ensures r.Some? ==> IsInfix(r.value, s) && !IsSpace(r.value[0])
  {
    if s == "" then None
    else
      var v := DropPeriod(StatusBody(s));
      CleanStatusPart(s, StatusBody(s), v);
      if v == "" then None else Some(v)
  }

  lemma CleanStatusPart(s: string, u: string, v: string)
    requires u == StatusBody(s)
    requires v == u || (u != [] && v == u[..|u| - 1])
    ensures v != [] ==> IsInfix(v, s) && !IsSpace(v[0])
  {
    var t := Strip(s);
    var n := StatusLabelLength(t);
    if v != [] {
      assert t[n..][..|v|] == t[n..n + |v|];
      assert IsInfix(v, t);
      InfixTransitive(v, t, s);
      assert v[0] == t[n];
    }
  }

  /** A status with no surrounding whitespace and no label is its own body. */
  lemma StatusBodyUnlabelled(s: string)
    requires IsStripped(s) && !HasStatusWord(s)
    ensures StatusBody(s) == s
  {
    StripStripped(s);
  }

  /** A non-empty text not ending in a period keeps its last character. */
  lemma DropPeriodKeeps(p: string)
    requires p != [] && p[|p| - 1] != '.'
    ensures DropPeriod(p) == p
  {
    assert !EndsWith(p, ".") by { assert p[|p| - 1..][0] == p[|p| - 1]; }
  }

  lemma DropPeriodOf(p: string)
    ensures |p| < MaxStatusLength ==> DropPeriod(p + ".") == p
    ensures |p| >= MaxStatusLength ==> DropPeriod(p + ".") == p + "."
  {
    assert EndsWith(p + ".", ".");
    assert (p + ".")[..|p|] == p;
  }

  /** A status without a label and with a non-space first character loses its one trailing period exactly when it is short. */
  lemma CleanStatusPeriod(p: string)
    requires p != [] && !IsSpace(p[0]) && !HasStatusWord(p + ".")
    ensures |p| < MaxStatusLength ==> CleanStatus(p + ".") == Some(p)
    ensures |p| >= MaxStatusLength ==> CleanStatus(p + ".") == Some(p + ".")
  {
    var s := p + ".";
    assert IsStripped(s) by { assert s[0] == p[0]; assert s[|s| - 1] == '.'; }
    StatusBodyUnlabelled(s);
    DropPeriodOf(p);
  }

  /** A status without a label, with no surrounding whitespace and no trailing period, comes back unchanged. */
  lemma CleanStatusPlain(p: string)
    requires p != [] && IsStripped(p) && !HasStatusWord(p) && p[|p| - 1] != '.'
    ensures CleanStatus(p) == Some(p)
  {
    StatusBodyUnlabelled(p);
    DropPeriodKeeps(p);
  }

  /** The label of "Printer Status: <p>" is removed. */
  lemma CleanStatusDropsPrinterLabel(p: string)
    requires p != [] && IsStripped(p) && p[|p| - 1] != '.'
    ensures CleanStatus("Printer Status: " + p) == Some(p)
  {
    var s := "Printer Status: " + p;
    assert IsStripped(s) by { assert s[|s| - 1] == p[|p| - 1]; }
    StripStripped(s);
    PrinterLabelLength(p);
    assert s[16..] == p;
    assert StatusBody(s) == p;
    DropPeriodKeeps(p);
  }

  /** The label of "SCANNER STATUS - <p>" is removed: case is ignored and a dash may stand for the colon. */
  lemma CleanStatusDropsScannerLabel(p: string)
    requires p != [] && IsStripped(p) && p[|p| - 1] != '.'
    ensures CleanStatus("SCANNER STATUS - " + p) == Some(p)
  {
    var s := "SCANNER STATUS - " + p;
    assert IsStripped(s) by { assert s[|s| - 1] == p[|p| - 1]; }
    StripStripped(s);
    ScannerLabelLength(p);
    assert s[17..] == p;
    assert StatusBody(s) == p;
    DropPeriodKeeps(p);
  }

  lemma PrinterLabelLength(p: string)
    requires p != [] && !IsSpace(p[0])
    ensures StatusLabelLength("Printer Status: " + p) == 16
  {
    var s := "Printer Status: " + p;
    assert s[..7] == "Printer";
    assert Lower("Printer") == "printer";
    assert SkipSpaces(s, 8) == 8;
    assert SkipSpaces(s, 7) == 8;
    assert s[8..14] == "Status";
    assert Lower("Status") == "status";
    assert SkipSpaces(s, 14) == 14;
    assert s[16] == p[0];
    assert SkipSpaces(s, 16) == 16;
    assert SkipSpaces(s, 15) == 16;
  }

  lemma ScannerLabelLength(p: string)
    requires p != [] && !IsSpace(p[0])
    ensures StatusLabelLength("SCANNER STATUS - " + p) == 17
  {
    var s := "SCANNER STATUS - " + p;
    assert s[..7] == "SCANNER";
    assert Lower("SCANNER") == "scanner";
    assert SkipSpaces(s, 8) == 8;
    assert SkipSpaces(s, 7) == 8;
    assert s[8..14] == "STATUS";
    assert Lower("STATUS") == "status";
    assert SkipSpaces(s, 15) == 15;
    assert SkipSpaces(s, 14) == 15;
    assert s[17] == p[0];
    assert SkipSpaces(s, 17) == 17;
    assert SkipSpaces(s, 16) == 17;
  }

  // ----- _parse_model -----

  /** `_parse_model`: "Epson " and the stripped text of the first `<title>`, else of the first `span.header`. */
  function ParseModel(doc: Doc): (r: Option<string>)
    ensures r.Some? ==> |r.value| > |VendorPrefix| && r.value[..|VendorPrefix|] == VendorPrefix
    ensures r.Some? ==> IsStripped(r.value[|VendorPrefix|..])
    ensures var t := Find(doc, Tag("title"));
      t.Some? && Strip(GetText(t.value.children, "", false)) != "" ==>
        r == Some(VendorPrefix + Strip(GetText(t.value.children, "", false)))
    ensures var t := Find(doc, Tag("title")); var h := Find(doc, TagClass("span", "header"));
      (t.None? || Strip(GetText(t.value.children, "", false)) == "") &&
      h.Some? && GetText(h.value.children, "", true) != "" ==>
        r == Some(VendorPrefix + GetText(h.value.children, "", true))
    ensures var t := Find(doc, Tag("title")); var h := Find(doc, TagClass("span", "header"));
      r.None? <==>
        (t.None? || Strip(GetText(t.value.children, "", false)) == "") &&
        (h.None? || GetText(h.value.children, "", true) == "")
  {
    var t := Find(doc, Tag("title"));
    if t.Some? && Strip(GetText(t.value.children, "", false)) != "" then
      var name := Strip(GetText(t.value.children, "", false));
      assert (VendorPrefix + name)[|VendorPrefix|..] == name;
      Some(VendorPrefix + name)
    else
      var h := Find(doc, TagClass("span", "header"));
      if h.Some? && GetText(h.value.children, "", true) != "" then
        var name := GetText(h.value.children, "", true);
        assert (VendorPrefix + name)[|VendorPrefix|..] == name;
        Some(VendorPrefix + name)
      else None
  }

  // ----- _parse_statuses -----

  const StatusFieldset := Matcher(Some("fieldset"), AnyClass, Some("PRT_STATUS"))

  const InformationDiv := TagClass("div", "information")

  /**
   * `_parse_statuses`, printer slot: None when the "printer_status" key is
   * not set, Some(v) when it is set to v (which may be None).
   */
  function ParseStatuses(doc: Doc): (r: Option<Option<string>>)
    ensures r.Some? && r.value.Some? ==> r.value.value != ""
    ensures var fs := Find(doc, StatusFieldset);
      fs.Some? && CleanStatus(GetText(fs.value.children, " ", true)).Some? ==>
        r == Some(CleanStatus(GetText(fs.value.children, " ", true)))
    ensures var fs := Find(doc, StatusFieldset); var info := Find(doc, InformationDiv);
      (fs.None? || CleanStatus(GetText(fs.value.children, " ", true)).None?) &&
      info.Some? && Find(info.value.children, Tag("span")).Some? ==>
        r == Some(CleanStatus(GetText(Find(info.value.children, Tag("span")).value.children, "", true)))
    ensures var fs := Find(doc, StatusFieldset); var info := Find(doc, InformationDiv);
      fs.Some? && CleanStatus(GetText(fs.value.children, " ", true)).None? &&
      (info.None? || Find(info.value.children, Tag("span")).None?) ==>
        r == Some(None)
    ensures r.None? <==>
      Find(doc, StatusFieldset).None? &&
      (Find(doc, InformationDiv).None? || Find(Find(doc, InformationDiv).value.children, Tag("span")).None?)
  {
    var fs := Find(doc, StatusFieldset);
    var primary := if fs.Some? then Some(CleanStatus(GetText(fs.value.children, " ", true))) else None;
    if primary.Some? && primary.value.Some? then primary
    else
      var info := Find(doc, InformationDiv);
      if info.None? then primary
      else
        var span := Find(info.value.children, Tag("span"));
        if span.None? then primary
        else Some(CleanStatus(GetText(span.value.children, "", true)))
  }

  // ----- _li_bar_height -----

  /** n is an element and one of its class tokens, lower-cased, equals c. */
  predicate HasClassIgnoringCase(n: Node, c: string) {
    n.Element? && exists i :: 0 <= i < |n.classes| && Lower(n.classes[i]) == c
  }

  /** The first of divs with class "tank" in any case: the visual bar of a tank row. */
  function FirstTankDiv(divs: seq<Node>): (r: Option<Node>)
    ensures r.Some? ==> HasClassIgnoringCase(r.value, "tank")
  {
    if divs == [] then None
    else if HasClassIgnoringCase(divs[0], "tank") then Some(divs[0])
    else FirstTankDiv(divs[1..])
  }

  /** The bar is absent exactly when no div is a tank div, and is otherwise the first one. */
  lemma {:induction false} FirstTankDivIsFirst(divs: seq<Node>)
    ensures FirstTankDiv(divs).None? <==> forall i :: 0 <= i < |divs| ==> !HasClassIgnoringCase(divs[i], "tank")
    ensures FirstTankDiv(divs).Some? ==>
      exists i :: 0 <= i < |divs| && divs[i] == FirstTankDiv(divs).value &&
                  forall j :: 0 <= j < i ==> !HasClassIgnoringCase(divs[j], "tank")
  {
    if divs != [] && !HasClassIgnoringCase(divs[0], "tank") {
      var tail := divs[1..];
      FirstTankDivIsFirst(tail);
      if FirstTankDiv(tail).Some? {
        var i :| 0 <= i < |tail| && tail[i] == FirstTankDiv(tail).value &&
                 forall j :: 0 <= j < i ==> !HasClassIgnoringCase(tail[j], "tank");
        assert divs[i + 1] == tail[i];
        forall j | 0 <= j < i + 1 ensures !HasClassIgnoringCase(divs[j], "tank") {
          if j > 0 { assert divs[j] == tail[j - 1]; }
        }
      } else {
        forall j | 0 <= j < |divs| ensures !HasClassIgnoringCase(divs[j], "tank") {
          if j > 0 { assert divs[j] == tail[j - 1]; }
        }
      }
    }
  }

  /** n is an element whose style gives a height. */
  predicate HasStyleHeight(n: Node) {
    n.Element? && HeightFromStyle(n.style).Some?
  }

  /** The first style height among the elements of ns, in order. */
  function FirstStyleHeight(ns: seq<Node>): Option<nat> {
    if ns == [] then None
    else if HasStyleHeight(ns[0]) then HeightFromStyle(ns[0].style)
    else FirstStyleHeight(ns[1..])
  }

  /** The fallback height is absent exactly when no element has a style height, and is otherwise that of the first one. */
  lemma {:induction false} FirstStyleHeightIsFirst(ns: seq<Node>)
    ensures FirstStyleHeight(ns).None? <==> forall i :: 0 <= i < |ns| ==> !HasStyleHeight(ns[i])
    ensures FirstStyleHeight(ns).Some? ==>
      exists i :: 0 <= i < |ns| && HasStyleHeight(ns[i]) && FirstStyleHeight(ns) == HeightFromStyle(ns[i].style) &&
                  forall j :: 0 <= j < i ==> !HasStyleHeight(ns[j])
  {
    if ns != [] && !HasStyleHeight(ns[0]) {
      var tail := ns[1..];
      FirstStyleHeightIsFirst(tail);
      if FirstStyleHeight(tail).Some? {
        var i :| 0 <= i < |tail| && HasStyleHeight(tail[i]) && FirstStyleHeight(tail) == HeightFromStyle(tail[i].style) &&
                 forall j :: 0 <= j < i ==> !HasStyleHeight(tail[j]);
        assert ns[i + 1] == tail[i];
        forall j | 0 <= j < i + 1 ensures !HasStyleHeight(ns[j]) {
          if j > 0 { assert ns[j] == tail[j - 1]; }
        }
      } else {
        forall j | 0 <= j < |ns| ensures !HasStyleHeight(ns[j]) {
          if j > 0 { assert ns[j] == tail[j - 1]; }
        }
      }
    }
  }

  /** The image of a bar: the first `img.color`, else the first `img`. */
  function BarImage(bar: Node): (r: Option<Node>)
    requires bar.Element?
    ensures r.Some? ==> r.value.Element? && r.value.tag == "img"
    ensures Find(bar.children, TagClass("img", "color")).Some? ==> r == Find(bar.children, TagClass("img", "color"))
    ensures Find(bar.children, TagClass("img", "color")).None? ==> r == Find(bar.children, Tag("img"))
  {
    var c := Find(bar.children, TagClass("img", "color"));
    if c.Some? then c else Find(bar.children, Tag("img"))
  }

  /** The height attribute is a string of digits only. */
  predicate HasDigitHeight(img: Node) {
    img.Element? && img.height.Some? && img.height.value.Str? && IsDigits(img.height.value.s)
  }

  /** The height an image gives: a digit-only height attribute, else its style height. */
  function ImageHeight(img: Node): Option<nat>
    requires img.Element?
  {
    if HasDigitHeight(img) then Some(DigitsValue(img.height.value.s))
    else HeightFromStyle(img.style)
  }

  /** What `_li_bar_height` computes for a tank row. */
  function BarHeight(li: Node): Option<nat>
    requires li.Element?
  {
    match FirstTankDiv(FindAll(li.children, Tag("div")))
    case None => None
    case Some(bar) =>
      var img := BarImage(bar);
      if img.Some? && ImageHeight(img.value).Some? then ImageHeight(img.value)
      else FirstStyleHeight(Elements(bar.children))
  }

  /**
   * The search order of `_li_bar_height`: a row without a tank div has no
   * height; otherwise a digit-only height attribute on the bar's image wins,
   * then the image's own style height, and only then the first style height
   * among all the bar's descendants.
   */
  lemma BarHeightPrefersImage(li: Node)
    requires li.Element?
    ensures FirstTankDiv(FindAll(li.children, Tag("div"))).None? ==> BarHeight(li).None?
    ensures var bar := FirstTankDiv(FindAll(li.children, Tag("div")));
      bar.Some? && BarImage(bar.value).Some? && HasDigitHeight(BarImage(bar.value).value) ==>
        BarHeight(li) == Some(DigitsValue(BarImage(bar.value).value.height.value.s))
    ensures var bar := FirstTankDiv(FindAll(li.children, Tag("div")));
      bar.Some? && BarImage(bar.value).Some? && !HasDigitHeight(BarImage(bar.value).value) &&
      HeightFromStyle(BarImage(bar.value).value.style).Some? ==>
        BarHeight(li) == HeightFromStyle(BarImage(bar.value).value.style)
    ensures var bar := FirstTankDiv(FindAll(li.children, Tag("div")));
      bar.Some? && (BarImage(bar.value).None? ||
                    (!HasDigitHeight(BarImage(bar.value).value) && HeightFromStyle(BarImage(bar.value).value.style).None?)) ==>
        BarHeight(li) == FirstStyleHeight(Elements(bar.value.children))
  {
  }

  /** `_li_bar_height`: the bar height of a tank row, by linear search. */
  method LiBarHeight(li: Node) returns (h: Option<nat>)
    requires li.Element?
    ensures h == BarHeight(li)
  {
    var bar := FindTankDiv(FindAll(li.children, Tag("div")));
    if bar.None? {
      return None;
    }
    var b := bar.value;
    var img := BarImage(b);
    if img.Some? {
      var im := img.value;
      if HasDigitHeight(im) {
        return Some(DigitsValue(im.height.value.s));
      }
      var h2 := HeightFromStyle(im.style);
      if h2.Some? {
        return h2;
      }
    }
    h := FirstStyleHeightOf(Elements(b.children));
  }

  /** The first loop of `_li_bar_height`: the first `div` whose class list has "tank" in any case. */
  method FindTankDiv(divs: seq<Node>) returns (bar: Option<Node>)
    ensures bar == FirstTankDiv(divs)
  {
    var i := 0;
    while i < |divs|
      invariant 0 <= i <= |divs|
      invariant FirstTankDiv(divs) == FirstTankDiv(divs[i..])
    {
      if HasClassIgnoringCase(divs[i], "tank") {
        return Some(divs[i]);
      }
      assert divs[i..][1..] == divs[i + 1..];
      i := i + 1;
    }
    return None;
  }

  /** The fallback loop of `_li_bar_height` over the bar's descendants. */
  method FirstStyleHeightOf(desc: seq<Node>) returns (h: Option<nat>)
    ensures h == FirstStyleHeight(desc)
  {
    var k := 0;
    while k < |desc|
      invariant 0 <= k <= |desc|
      invariant FirstStyleHeight(desc) == FirstStyleHeight(desc[k..])
    {
      if HasStyleHeight(desc[k]) {
        return HeightFromStyle(desc[k].style);
      }
      assert desc[k..][1..] == desc[k + 1..];
      k := k + 1;
    }
    return None;
  }

  // ----- _parse_inks_and_maintenance -----

  const TankItem := Matcher(Some("li"), HasToken("tank"), None)

  /** The rows `select("li.tank")` yields, in document order. */
  function TankRows(doc: Doc): (r: seq<Node>)
    ensures forall i :: 0 <= i < |r| ==> r[i].Element?
  {
    FindAll(doc, TankItem)
  }

  /** A `clrname` div (any case) whose stripped text is not empty. */
  predicate IsLabelDiv(d: Node) {
    HasClassIgnoringCase(d, "clrname") && GetText(d.children, "", true) != ""
  }

  /** The channel code: the upper-cased text of the first label div. */
  function FirstLabel(divs: seq<Node>): (r: Option<string>)
    ensures r.Some? ==> r.value != ""
  {
    if divs == [] then None
    else if IsLabelDiv(divs[0]) then Some(Upper(GetText(divs[0].children, "", true)))
    else FirstLabel(divs[1..])
  }

  /** The code is absent exactly when no div is a label div, and is otherwise the upper-cased text of the first one. */
  lemma {:induction false} FirstLabelIsFirst(divs: seq<Node>)
    ensures FirstLabel(divs).None? <==> forall i :: 0 <= i < |divs| ==> !IsLabelDiv(divs[i])
    ensures FirstLabel(divs).Some? ==>
      exists i :: 0 <= i < |divs| && IsLabelDiv(divs[i]) &&
                  FirstLabel(divs).value == Upper(GetText(divs[i].children, "", true)) &&
                  forall j :: 0 <= j < i ==> !IsLabelDiv(divs[j])
  {
    if divs != [] && !IsLabelDiv(divs[0]) {
      var tail := divs[1..];
      FirstLabelIsFirst(tail);
      if FirstLabel(tail).Some? {
        var i :| 0 <= i < |tail| && IsLabelDiv(tail[i]) &&
                 FirstLabel(tail).value == Upper(GetText(tail[i].children, "", true)) &&
                 forall j :: 0 <= j < i ==> !IsLabelDiv(tail[j]);
        assert divs[i + 1] == tail[i];
        forall j | 0 <= j < i + 1 ensures !IsLabelDiv(divs[j]) {
          if j > 0 { assert divs[j] == tail[j - 1]; }
        }
      } else {
        forall j | 0 <= j < |divs| ensures !IsLabelDiv(divs[j]) {
          if j > 0 { assert divs[j] == tail[j - 1]; }
        }
      }
    }
  }

  function RowLabel(li: Node): Option<string>
    requires li.Element?
  {
    FirstLabel(FindAll(li.children, Tag("div")))
  }

  /** The label loop of `_parse_inks_and_maintenance`. */
  method FindRowLabel(li: Node) returns (code: Option<string>)
    requires li.Element?
    ensures code == RowLabel(li)
  {
    var divs := FindAll(li.children, Tag("div"));
    code := None;
    var j := 0;
    while j < |divs|
      invariant 0 <= j <= |divs|
      invariant FirstLabel(divs) == FirstLabel(divs[j..])
    {
      if HasClassIgnoringCase(divs[j], "clrname") {
        var txt := GetText(divs[j].children, "", true);
        if txt != "" {
          code := Some(Upper(txt));
          return;
        }
      }
      assert divs[j..][1..] == divs[j + 1..];
      j := j + 1;
    }
  }

  /** Some div inside the row has class "mbicn" in any case: the waste-ink (maintenance) tank. */
  predicate IsMaintenanceRow(li: Node)
    requires li.Element?
  {
    var divs := FindAll(li.children, Tag("div"));
    exists i :: 0 <= i < |divs| && HasClassIgnoringCase(divs[i], "mbicn")
  }

  /** `max(0, min(100, h * 2))` for a pixel height h. */
  function Percent(h: nat): (p: int)
    ensures 0 <= p <= 100
    ensures h <= 50 ==> p == 2 * h
    ensures h >= 50 ==> p == 100
  {
    if 2 * h > 100 then 100 else 2 * h
  }

  /** The `inks[label] = pct` a row performs, if any. */
  function InkWrite(li: Node): Option<(string, int)> {
    if !li.Element? then None
    else
      var h := BarHeight(li);
      if h.None? || IsMaintenanceRow(li) then None
      else match RowLabel(li)
        case None => None
        case Some(code) => Some((code, Percent(h.value)))
  }

  /** The `maintenance = pct` a row performs, if any. */
  function MaintenanceWrite(li: Node): Option<int> {
    if !li.Element? then None
    else
      var h := BarHeight(li);
      if h.Some? && IsMaintenanceRow(li) then Some(Percent(h.value)) else None
  }

  function InkWrites(rows: seq<Node>): seq<Option<(string, int)>> {
    MapSeq(InkWrite, rows)
  }

  function MaintenanceWrites(rows: seq<Node>): seq<Option<int>> {
    MapSeq(MaintenanceWrite, rows)
  }

  /** `_parse_inks_and_maintenance`: the ink levels by channel code and the maintenance-box level. */
  method ParseInksAndMaintenance(doc: Doc) returns (inks: map<string, int>, maintenance: Option<int>)
    ensures inks == MapOf(InkWrites(TankRows(doc)))
    ensures maintenance == LastValue(MaintenanceWrites(TankRows(doc)))
  {
    var rows := TankRows(doc);
    inks, maintenance := map[], None;
    var i := 0;
    while i < |rows|
      invariant 0 <= i <= |rows|
      invariant inks == MapOf(InkWrites(rows[..i]))
      invariant maintenance == LastValue(MaintenanceWrites(rows[..i]))
    {
      inks, maintenance := AddTankRow(rows, i, inks, maintenance);
      i := i + 1;
    }
    assert rows[..|rows|] == rows;
  }

  /** One iteration of the row loop: row i updates the dictionary and the maintenance value. */
  method AddTankRow(rows: seq<Node>, i: nat, inks: map<string, int>, maintenance: Option<int>)
    returns (inks': map<string, int>, maintenance': Option<int>)
    requires i < |rows| && rows[i].Element?
    requires inks == MapOf(InkWrites(rows[..i]))
    requires maintenance == LastValue(MaintenanceWrites(rows[..i]))
    ensures inks' == MapOf(InkWrites(rows[..i + 1]))
    ensures maintenance' == LastValue(MaintenanceWrites(rows[..i + 1]))
  {
    TankRowStep(rows, i);
    var ink, maint := ReadTankRow(rows[i]);
    inks', maintenance' := inks, maintenance;
    if ink.Some? {
      inks' := inks[ink.value.0 := ink.value.1];
    }
    if maint.Some? {
      maintenance' := maint;
    }
  }

  /** The writes of the first i + 1 rows are those of the first i, then row i's. */
  lemma TankRowStep(rows: seq<Node>, i: nat)
    requires i < |rows|
    ensures MapOf(InkWrites(rows[..i + 1])) ==
      if InkWrite(rows[i]).Some? then MapOf(InkWrites(rows[..i]))[InkWrite(rows[i]).value.0 := InkWrite(rows[i]).value.1]
      else MapOf(InkWrites(rows[..i]))
    ensures LastValue(MaintenanceWrites(rows[..i + 1])) ==
      if MaintenanceWrite(rows[i]).Some? then MaintenanceWrite(rows[i]) else LastValue(MaintenanceWrites(rows[..i]))
  {
    var li := rows[i];
    assert rows[..i + 1] == rows[..i] + [li];
    MapSeqSnoc(InkWrite, rows[..i], li);
    MapSeqSnoc(MaintenanceWrite, rows[..i], li);
    MapOfSnoc(InkWrites(rows[..i]), InkWrite(li));
    LastValueSnoc(MaintenanceWrites(rows[..i]), MaintenanceWrite(li));
  }

  /** The body of the row loop of `_parse_inks_and_maintenance`: what row li writes. */
  method ReadTankRow(li: Node) returns (ink: Option<(string, int)>, maint: Option<int>)
    requires li.Element?
    ensures ink == InkWrite(li) && maint == MaintenanceWrite(li)
  {
    var code := FindRowLabel(li);
    var isMaintenance := IsMaintenanceRow(li);
    var height := LiBarHeight(li);
    ink, maint := None, None;
    if height.Some? {
      var pct := Percent(height.value);
      if isMaintenance {
        maint := Some(pct);
      } else if code.Some? {
        ink := Some((code.value, pct));
      }
    }
  }

  /** A channel code has a level exactly when some row with a bar height, no maintenance marker and that code exists. */
  lemma InkKeys(rows: seq<Node>, k: string)
    requires forall i :: 0 <= i < |rows| ==> rows[i].Element?
    ensures k in MapOf(InkWrites(rows)) <==>
      exists i :: 0 <= i < |rows| && BarHeight(rows[i]).Some? && !IsMaintenanceRow(rows[i]) && RowLabel(rows[i]) == Some(k)
  {
    MappedKeys(InkWrite, rows, k);
    forall i | 0 <= i < |rows|
      ensures WritesKey(InkWrite(rows[i]), k) <==>
        BarHeight(rows[i]).Some? && !IsMaintenanceRow(rows[i]) && RowLabel(rows[i]) == Some(k)
    {
    }
  }

  /** When a code appears on several rows, the last of them decides its level. */
  lemma InkLevelFromLastRow(rows: seq<Node>, k: string, i: int)
    requires forall j :: 0 <= j < |rows| ==> rows[j].Element?
    requires 0 <= i < |rows| && BarHeight(rows[i]).Some? && !IsMaintenanceRow(rows[i]) && RowLabel(rows[i]) == Some(k)
    requires forall j :: i < j < |rows| ==> InkWrite(rows[j]).None? || InkWrite(rows[j]).value.0 != k
    ensures k in MapOf(InkWrites(rows)) && MapOf(InkWrites(rows))[k] == Percent(BarHeight(rows[i]).value)
  {
    MappedLastWrite(InkWrite, rows, k, i);
  }

  /** A row writes the maintenance level exactly when it is a maintenance row with a bar height. */
  lemma MaintenanceWriteMeaning(li: Node)
    requires li.Element?
    ensures MaintenanceWrite(li).Some? <==> IsMaintenanceRow(li) && BarHeight(li).Some?
    ensures MaintenanceWrite(li).Some? ==> MaintenanceWrite(li).value == Percent(BarHeight(li).value)
  {
  }

  /** The maintenance level is the one written by the last row that writes one, and absent when no row does. */
  lemma MaintenanceFromLastRow(rows: seq<Node>)
    ensures var m := LastValue(MaintenanceWrites(rows));
      (m.None? <==> forall j :: 0 <= j < |rows| ==> MaintenanceWrite(rows[j]).None?) &&
      (m.Some? ==> exists i :: 0 <= i < |rows| && MaintenanceWrite(rows[i]) == m &&
                              forall j :: i < j < |rows| ==> MaintenanceWrite(rows[j]).None?)
  {
    MappedLastValue(MaintenanceWrite, rows);
  }

  /** Every level the page yields, ink or maintenance, is a percentage between 0 and 100. */
  lemma LevelsArePercentages(rows: seq<Node>)
    ensures forall k :: k in MapOf(InkWrites(rows)) ==> 0 <= MapOf(InkWrites(rows))[k] <= 100
    ensures LastValue(MaintenanceWrites(rows)).Some? ==> 0 <= LastValue(MaintenanceWrites(rows)).value <= 100
  {
    forall k | k in MapOf(InkWrites(rows)) ensures 0 <= MapOf(InkWrites(rows))[k] <= 100 {
      MappedValueWritten(InkWrite, rows, k);
    }
    MaintenanceFromLastRow(rows);
  }

  // ----- _parse_table_by_container_id -----

  const KeyCell := Matcher(Some("td"), ClassContains("item-key"), None)

  const ValueCell := Matcher(Some("td"), ClassContains("item-value"), None)

  /** The `tr` rows under the first element with the given id; none when there is no such element. */
  function TableRows(doc: Doc, containerId: string): (r: seq<Node>)
    ensures Find(doc, Matcher(None, AnyClass, Some(containerId))).None? ==> r == []
  {
    match Find(doc, Matcher(None, AnyClass, Some(containerId)))
    case None => []
    case Some(root) => FindAll(root.children, Tag("tr"))
  }

  /** The `data[key] = val` a table row performs, if any. */
  function TableWrite(tr: Node): (w: Option<(string, string)>)
    ensures w.Some? ==> w.value.0 != "" && IsStripped(w.value.0) && IsStripped(w.value.1)
    ensures w.Some? ==> tr.Element? && Find(tr.children, KeyCell).Some? && Find(tr.children, ValueCell).Some?
    ensures tr.Element? && Find(tr.children, KeyCell).Some? && Find(tr.children, ValueCell).Some? ==>
      var k := CleanKey(GetText(Find(tr.children, KeyCell).value.children, " ", true));
      var v := GetText(Find(tr.children, ValueCell).value.children, " ", true);
      (k != "" ==> w == Some((k, v))) && (k == "" ==> w.None?)
  {
    if !tr.Element? then None
    else
      var key := Find(tr.children, KeyCell);
      var val := Find(tr.children, ValueCell);
      if key.None? || val.None? then None
      else
        var k := CleanKey(GetText(key.value.children, " ", true));
        if k == "" then None else Some((k, GetText(val.value.children, " ", true)))
  }

  function TableWrites(rows: seq<Node>): seq<Option<(string, string)>> {
    MapSeq(TableWrite, rows)
  }

  /** `_parse_table_by_container_id`: the key/value pairs of the table inside the element with the given id. */
  method ParseTableByContainerId(doc: Doc, containerId: string) returns (data: map<string, string>)
    ensures data == MapOf(TableWrites(TableRows(doc, containerId)))
  {
    data := map[];
    var root := Find(doc, Matcher(None, AnyClass, Some(containerId)));
    if root.None? {
      return;
    }
    var rows := FindAll(root.value.children, Tag("tr"));
    var i := 0;
    while i < |rows|
      invariant 0 <= i <= |rows|
      invariant data == MapOf(TableWrites(rows[..i]))
    {
      var tr := rows[i];
      assert rows[..i + 1] == rows[..i] + [tr];
      MapSeqSnoc(TableWrite, rows[..i], tr);
      MapOfSnoc(TableWrites(rows[..i]), TableWrite(tr));
      var w := ReadTableRow(tr);
      if w.Some? {
        data := data[w.value.0 := w.value.1];
      }
      i := i + 1;
    }
    assert rows[..|rows|] == rows;
  }

  /** The body of the row loop of `_parse_table_by_container_id`: the pair row tr stores, if any. */
  method ReadTableRow(tr: Node) returns (w: Option<(string, string)>)
    requires tr.Element?
    ensures w == TableWrite(tr)
  {
    w := None;
    var tdKey := Find(tr.children, KeyCell);
    var tdVal := Find(tr.children, ValueCell);
    if tdKey.Some? && tdVal.Some? {
      var key := CleanKey(GetText(tdKey.value.children, " ", true));
      var val := GetText(tdVal.value.children, " ", true);
      if key != "" {
        w := Some((key, val));
      }
    }
  }

  /** Every key of a table is non-empty and has no surrounding whitespace. */
  lemma TableKeysAreClean(rows: seq<Node>)
    ensures forall k :: k in MapOf(TableWrites(rows)) ==> k != "" && IsStripped(k)
  {
    forall k | k in MapOf(TableWrites(rows)) ensures k != "" && IsStripped(k) {
      MappedKeys(TableWrite, rows, k);
    }
  }

  /** A key is in a table exactly when some row writes it; the last such row gives its value. */
  lemma TableEntries(rows: seq<Node>, k: string)
    ensures k in MapOf(TableWrites(rows)) <==> exists i :: 0 <= i < |rows| && WritesKey(TableWrite(rows[i]), k)
    ensures forall i :: 0 <= i < |rows| && WritesKey(TableWrite(rows[i]), k) &&
                        (forall j :: i < j < |rows| ==> !WritesKey(TableWrite(rows[j]), k)) ==>
      MapOf(TableWrites(rows))[k] == TableWrite(rows[i]).value.1
  {
    MappedKeys(TableWrite, rows, k);
    forall i | 0 <= i < |rows| && WritesKey(TableWrite(rows[i]), k) &&
               (forall j :: i < j < |rows| ==> !WritesKey(TableWrite(rows[j]), k))
      ensures MapOf(TableWrites(rows))[k] == TableWrite(rows[i]).value.1
    {
      MappedLastWrite(TableWrite, rows, k, i);
    }
  }

  // ----- _extract_mac_from_text -----

  predicate HexPair(t: string, i: nat)
    requires i + 2 <= |t|
  {
    IsHexDigit(t[i]) && IsHexDigit(t[i + 1])
  }

  /** t has the shape of `([0-9A-F]{2}:){5}[0-9A-F]{2}`, ignoring case. */
  predicate IsMacToken(t: string) {
    |t| == 17 &&
    HexPair(t, 0) && t[2] == ':' && HexPair(t, 3) && t[5] == ':' && HexPair(t, 6) && t[8] == ':' &&
    HexPair(t, 9) && t[11] == ':' && HexPair(t, 12) && t[14] == ':' && HexPair(t, 15)
  }

  /** The MAC pattern with its `\b` word boundaries matches s at position i. */
  predicate MacAt(s: string, i: nat) {
    i + 17 <= |s| && IsMacToken(s[i..i + 17]) &&
    (i == 0 || !IsWordChar(s[i - 1])) &&
    (i + 17 == |s| || !IsWordChar(s[i + 17]))
  }

  /** `re.search` of the MAC pattern from position i: the first position where it matches. */
  function FirstMacAt(s: string, i: nat): (r: Option<nat>)
    ensures r.Some? ==> i <= r.value && MacAt(s, r.value)
    ensures r.Some? ==> forall j :: i <= j < r.value ==> !MacAt(s, j)
    ensures r.None? ==> forall j :: i <= j ==> !MacAt(s, j)
    decreases |s| - i
  {
    if i + 17 > |s| then None
    else if MacAt(s, i) then Some(i)
    else FirstMacAt(s, i + 1)
  }

  /** `_extract_mac_from_text`: the first MAC-shaped token in the page text joined by spaces. */
  function ExtractMacFromText(doc: Doc): (r: Option<string>)
    ensures r.Some? ==> |r.value| == 17
  {
    var txt := GetText(doc, " ", true);
    match FirstMacAt(txt, 0)
    case None => None
    case Some(p) => Some(txt[p..p + 17])
  }

  /** The MAC address found in the text is the leftmost MAC-shaped token standing between word boundaries. */
  lemma ExtractMacIsFirstToken(doc: Doc)
    ensures var txt := GetText(doc, " ", true);
      var r := ExtractMacFromText(doc);
      (r.None? <==> forall j :: 0 <= j ==> !MacAt(txt, j)) &&
      (r.Some? ==> IsMacToken(r.value) &&
                   exists i: nat :: MacAt(txt, i) && r.value == txt[i..i + 17] &&
                               forall j :: 0 <= j < i ==> !MacAt(txt, j))
  {
    var txt := GetText(doc, " ", true);
    var p := FirstMacAt(txt, 0);
    if p.Some? {
      assert MacAt(txt, p.value) && ExtractMacFromText(doc).value == txt[p.value..p.value + 17];
    }
  }

  // ----- parse -----

  /**
   * The record `parse` returns. `printerStatus` is None when the key is
   * missing; `wifiDirect` and `macAddress` are None when the key is missing.
   */
  datatype Record = Record(
    source: Option<string>,
    model: Option<string>,
    printerStatus: Option<Option<string>>,
    inks: map<string, int>,
    maintenanceBox: Option<int>,
    network: map<string, string>,
    wifiDirect: Option<map<string, string>>,
    macAddress: Option<string>)

  /** The MAC address `parse` reports, given the network table. */
  function ChooseMac(network: map<string, string>, doc: Doc): (r: Option<string>)
    ensures r.Some? ==> r.value != ""
    ensures "MAC Address" in network && network["MAC Address"] != "" ==> r == Some(network["MAC Address"])
    ensures !("MAC Address" in network && network["MAC Address"] != "") ==> r == ExtractMacFromText(doc)
  {
    if "MAC Address" in network && network["MAC Address"] != "" then Some(network["MAC Address"])
    else ExtractMacFromText(doc)
  }

  /** `EpsonHTMLParser(html_text, source).parse()` on the parsed page. */
  method Parse(doc: Doc, source: string) returns (r: Record)
    ensures r.model == ParseModel(doc)
    ensures r.source == if source != "" then Some(source) else ParseModel(doc)
    ensures r.printerStatus == ParseStatuses(doc)
    ensures r.inks == MapOf(InkWrites(TankRows(doc)))
    ensures r.maintenanceBox == LastValue(MaintenanceWrites(TankRows(doc)))
    ensures forall k :: k in r.inks ==> 0 <= r.inks[k] <= 100
    ensures r.maintenanceBox.Some? ==> 0 <= r.maintenanceBox.value <= 100
    ensures r.network == MapOf(TableWrites(TableRows(doc, "info-network")))
    ensures var wfd := MapOf(TableWrites(TableRows(doc, "info-wfd")));
      r.wifiDirect == if wfd == map[] then None else Some(wfd)
    ensures r.macAddress == ChooseMac(r.network, doc)
    ensures r.macAddress.Some? ==> r.macAddress.value != ""
  {
    var model := ParseModel(doc);
    var statuses := ParseStatuses(doc);
    var inks, maintenance := ParseInksAndMaintenance(doc);
    var network := ParseTableByContainerId(doc, "info-network");
    var wifiDirect := ParseTableByContainerId(doc, "info-wfd");
    var mac := ChooseMac(network, doc);
    LevelsArePercentages(TankRows(doc));
    r := Record(
      if source != "" then Some(source) else model,
      model,
      statuses,
      inks,
      maintenance,
      network,
      if wifiDirect == map[] then None else Some(wifiDirect),
      mac);
  }
}
