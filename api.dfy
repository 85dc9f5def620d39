/**
 * The older, stateful status-page reader `EpsonWorkForceAPI`: a per-sensor
 * tank lookup through the `LEVEL_SENSOR_TO_DIV` table, its own status
 * cleaner and fallback chain, and the model name and MAC address it keeps
 * from the last page it fetched. The HTTP fetch is a parameter: the parsed
 * page, or None when fetching or parsing raised.
 */
module Api {
  import opened Wrappers
  import opened PyStr
  import opened Dom
  import Parser

  /** Statuses shorter than this lose a trailing period. */
  const MaxStatusLength := 30

  const DefaultModel := "WorkForce Printer"

  const VendorPrefix := "Epson "

  const UnknownStatus := "Unknown"

  const WasteText := "Waste"

  const MacLabel := "MAC Address"

  /** Level sensor name to the class of its label div and the text that div starts with. */
  const LevelSensorToDiv: map<string, (string, string)> := map[
    "black" := ("clrname", "BK"),
    "photoblack" := ("clrname", "PB"),
    "magenta" := ("clrname", "M"),
    "cyan" := ("clrname", "C"),
    "yellow" := ("clrname", "Y"),
    "lightcyan" := ("clrname", "LC"),
    "lightmagenta" := ("clrname", "LM"),
    "clean" := ("mbicn", "Waste")
  ]

  /** What `get_sensor_value` returns when it returns something: an int level or the status string. */
  datatype Reading = Level(n: int) | Status(s: string)

  // ----- _clean_status -----

  /**
   * `_clean_status`: no status for "", otherwise the status itself, less one
   * trailing period when it is shorter than the limit. Nothing is trimmed.
   */
  function CleanStatus(status: string): (r: Option<string>)
    ensures r.None? <==> status == ""
    ensures r.Some? ==> |status| - 1 <= |r.value| <= |status| && r.value == status[..|r.value|]
    ensures r.Some? ==> (|r.value| < |status| <==> |status| < MaxStatusLength && status[|status| - 1] == '.')
  {
    if status == "" then None
    else if |status| < MaxStatusLength && EndsWith(status, ".") then Some(status[..|status| - 1])
    else Some(status)
  }

  /** A lone period cleans to the empty status, which the callers then treat as absent. */
  lemma CleanStatusOfPeriod()
    ensures CleanStatus(".") == Some("")
  {
  }

  // ----- _get_fieldset_status, _get_information_div_status, _get_printer_status -----

  const StatusFieldset := Matcher(Some("fieldset"), AnyClass, Some("PRT_STATUS"))

  const InformationDiv := TagClass("div", "information")

  /** `_get_fieldset_status`: the cleaned stripped text of the first `ul` in `fieldset#PRT_STATUS`. */
  function FieldsetStatus(doc: Doc): (r: Option<string>)
    ensures Find(doc, StatusFieldset).None? ==> r.None?
    ensures var fs := Find(doc, StatusFieldset);
      r.None? <==>
        fs.None? || Find(fs.value.children, Tag("ul")).None? ||
        GetText(Find(fs.value.children, Tag("ul")).value.children, "", true) == ""
    ensures var fs := Find(doc, StatusFieldset);
      fs.Some? && Find(fs.value.children, Tag("ul")).Some? ==>
        r == CleanStatus(GetText(Find(fs.value.children, Tag("ul")).value.children, "", true))
  {
    match Find(doc, StatusFieldset)
    case None => None
    case Some(fs) =>
      match Find(fs.children, Tag("ul"))
      case None => None
      case Some(ul) => CleanStatus(GetText(ul.children, "", true))
  }

  /** The span `_get_information_div_status` reads: inside `p.clearfix` first, else anywhere in the div. */
  function StatusSpan(info: Node): (r: Option<Node>)
    requires info.Element?
    ensures r.Some? ==> Matches(Tag("span"), r.value)
    ensures r.None? <==>
      Find(info.children, Tag("span")).None? &&
      (Find(info.children, TagClass("p", "clearfix")).None? ||
       Find(Find(info.children, TagClass("p", "clearfix")).value.children, Tag("span")).None?)
    ensures var p := Find(info.children, TagClass("p", "clearfix"));
      p.Some? && Find(p.value.children, Tag("span")).Some? ==> r == Find(p.value.children, Tag("span"))
    ensures var p := Find(info.children, TagClass("p", "clearfix"));
      p.None? || Find(p.value.children, Tag("span")).None? ==> r == Find(info.children, Tag("span"))
  {
    var p := Find(info.children, TagClass("p", "clearfix"));
    var inP := if p.Some? then Find(p.value.children, Tag("span")) else None;
    if inP.Some? then inP else Find(info.children, Tag("span"))
  }

  /** `_get_information_div_status`: the cleaned stripped text of that span of the first `div.information`. */
  function InformationDivStatus(doc: Doc): (r: Option<string>)
    ensures Find(doc, InformationDiv).None? ==> r.None?
    ensures var info := Find(doc, InformationDiv);
      r.None? <==>
        info.None? || StatusSpan(info.value).None? || GetText(StatusSpan(info.value).value.children, "", true) == ""
    ensures r.Some? ==> var text := GetText(StatusSpan(Find(doc, InformationDiv).value).value.children, "", true);
      |text| - 1 <= |r.value| <= |text| && r.value == text[..|r.value|]
    ensures var info := Find(doc, InformationDiv);
      info.Some? && StatusSpan(info.value).Some? ==>
        r == CleanStatus(GetText(StatusSpan(info.value).value.children, "", true))
  {
    match Find(doc, InformationDiv)
    case None => None
    case Some(info) =>
      match StatusSpan(info)
      case None => None
      case Some(span) => CleanStatus(GetText(span.children, "", true))
  }

  /** `_get_printer_status`: the fieldset status when non-empty, else the information-div status when non-empty, else "Unknown". */
  function PrinterStatus(doc: Doc): (r: string)
    ensures r != ""
    ensures var fs := FieldsetStatus(doc); fs.Some? && fs.value != "" ==> r == fs.value
    ensures var fs, info := FieldsetStatus(doc), InformationDivStatus(doc);
      (fs.None? || fs.value == "") && info.Some? && info.value != "" ==> r == info.value
    ensures r != UnknownStatus ==> r == FieldsetStatus(doc).GetOr("") || r == InformationDivStatus(doc).GetOr("")
  {
    var fs := FieldsetStatus(doc);
    if fs.Some? && fs.value != "" then fs.value
    else
      var info := InformationDivStatus(doc);
      if info.Some? && info.value != "" then info.value
      else UnknownStatus
  }

  /** With neither a fieldset `ul` nor an information-div span, the status is "Unknown". */
  lemma PrinterStatusDefault(doc: Doc)
    requires Find(doc, StatusFieldset).None? || Find(Find(doc, StatusFieldset).value.children, Tag("ul")).None?
    requires Find(doc, InformationDiv).None? || StatusSpan(Find(doc, InformationDiv).value).None?
    ensures PrinterStatus(doc) == UnknownStatus
  {
  }

  // ----- the tank loop of get_sensor_value -----

  /** `soup.find_all("li", class_="tank")`. */
  const TankItem := TagClass("li", "tank")

  /** `findChild()` with no arguments: any element. */
  const AnyElement := Matcher(None, AnyClass, None)

  /** What one row of the tank loop does: goes on to the next row, ends the lookup with a value, or raises. */
  datatype Probe = Skip | Fail | Hit(value: int)

  /**
   * `li.find("div", class_="tank").findChild()["height"]`, or None where that
   * raises: no tank div (AttributeError), no child element (TypeError), no
   * height attribute (KeyError). A height is always a single string.
   */
  function HeightAttribute(li: Node): Option<string>
    requires li.Element?
  {
    match Find(li.children, TagClass("div", "tank"))
    case None => None
    case Some(tank) =>
      match Find(tank.children, AnyElement)
      case None => None
      case Some(child) =>
        match child.height
        case Some(Str(h)) => Some(h)
        case _ => None
  }

  /** `int(...) * 2` of that height, where a missing height or one int() rejects (ValueError) raises. */
  function TankHeight(li: Node): (r: Probe)
    requires li.Element?
    ensures r != Skip
    ensures r.Hit? ==> r.value % 2 == 0
  {
    match HeightAttribute(li)
    case None => Fail
    case Some(h) =>
      match PyInt(h)
      case None => Fail
      case Some(n) => DoubledIsEven(n); Hit(n * 2)
  }

  lemma DoubledIsEven(n: int)
    ensures (n * 2) % 2 == 0
  {
  }

  /**
   * One iteration of the loop: rows without a `div_name` div are skipped; an
   * empty one raises IndexError at `div.contents[0]`; otherwise the row
   * matches when that first content is the text `div_text`, or `div_text` is
   * "Waste", and then its height decides.
   */
  function ProbeTank(li: Node, divName: string, divText: string): (r: Probe)
    requires li.Element?
    ensures Find(li.children, TagClass("div", divName)).None? ==> r.Skip?
    ensures r.Hit? ==> r == TankHeight(li)
  {
    match Find(li.children, TagClass("div", divName))
    case None => Skip
    case Some(div) =>
      if div.children == [] then Fail
      else if div.children[0] == Text(divText) || divText == WasteText then TankHeight(li)
      else Skip
  }

  /** The outcome of one row for each shape of its `div_name` div. */
  lemma ProbeTankCases(li: Node, divName: string, divText: string)
    requires li.Element?
    ensures var div := Find(li.children, TagClass("div", divName));
      div.Some? && div.value.children == [] ==> ProbeTank(li, divName, divText).Fail?
    ensures var div := Find(li.children, TagClass("div", divName));
      div.Some? && div.value.children != [] ==>
        (div.value.children[0] == Text(divText) || divText == WasteText ==>
           ProbeTank(li, divName, divText) == TankHeight(li)) &&
        (div.value.children[0] != Text(divText) && divText != WasteText ==>
           ProbeTank(li, divName, divText).Skip?)
  {
  }

  /** The tank loop inside its `try`: the first row that does not skip decides; a raise gives None. */
  function Lookup(rows: seq<Node>, divName: string, divText: string): (r: Option<int>)
    requires forall i :: 0 <= i < |rows| ==> rows[i].Element?
  {
    if rows == [] then None
    else
      match ProbeTank(rows[0], divName, divText)
      case Skip => Lookup(rows[1..], divName, divText)
      case Fail => None
      case Hit(v) => Some(v)
  }

  /** Row i is the first row of the loop that does not skip. */
  predicate FirstDecisive(rows: seq<Node>, divName: string, divText: string, i: int)
    requires forall j :: 0 <= j < |rows| ==> rows[j].Element?
  {
    0 <= i < |rows| && !ProbeTank(rows[i], divName, divText).Skip? &&
    forall j :: 0 <= j < i ==> ProbeTank(rows[j], divName, divText).Skip?
  }

  /** The first row that does not skip decides the lookup, and when every row skips there is no value. */
  lemma {:induction false} LookupFirstDecides(rows: seq<Node>, divName: string, divText: string)
    requires forall i :: 0 <= i < |rows| ==> rows[i].Element?
    ensures forall i :: FirstDecisive(rows, divName, divText, i) ==>
      Lookup(rows, divName, divText) ==
        (var p := ProbeTank(rows[i], divName, divText); if p.Hit? then Some(p.value) else None)
    ensures (forall i :: 0 <= i < |rows| ==> ProbeTank(rows[i], divName, divText).Skip?) ==>
      Lookup(rows, divName, divText).None?
  {
    if rows != [] {
      var tail := rows[1..];
      LookupFirstDecides(tail, divName, divText);
      forall i | FirstDecisive(rows, divName, divText, i) && i > 0
        ensures FirstDecisive(tail, divName, divText, i - 1)
      {
        forall j | 0 <= j < i - 1 ensures ProbeTank(tail[j], divName, divText).Skip? {
          assert tail[j] == rows[j + 1];
        }
      }
      if forall i :: 0 <= i < |rows| ==> ProbeTank(rows[i], divName, divText).Skip? {
        forall j | 0 <= j < |tail| ensures ProbeTank(tail[j], divName, divText).Skip? {
          assert tail[j] == rows[j + 1];
        }
      }
    }
  }

  /** For "clean" the label text never matters: every row with a non-empty `div.mbicn` is decided by its height. */
  lemma CleanIgnoresLabel(li: Node)
    requires li.Element?
    ensures var div := Find(li.children, TagClass("div", "mbicn"));
      ProbeTank(li, "mbicn", WasteText) ==
        if div.None? then Skip else if div.value.children == [] then Fail else TankHeight(li)
  {
  }

  // ----- get_sensor_value -----

  /** `get_sensor_value(sensor)` on the stored page. */
  function SensorValue(soup: Option<Doc>, sensor: string): (r: Option<Reading>)
    ensures soup.None? ==> r.None?
    ensures soup.Some? && sensor == "printer_status" ==> r.Some? && r.value.Status? && r.value.s != ""
    ensures sensor != "printer_status" && sensor !in LevelSensorToDiv ==> r.None?
    ensures sensor != "printer_status" ==> r.None? || r.value.Level?
  {
    if soup.None? then None
    else if sensor == "printer_status" then Some(Status(PrinterStatus(soup.value)))
    else if sensor !in LevelSensorToDiv then None
    else
      var (divName, divText) := LevelSensorToDiv[sensor];
      match Lookup(FindAll(soup.value, TankItem), divName, divText)
      case None => None
      case Some(v) => Some(Level(v))
  }

  /** The status sensor reads the printer status; a level sensor reads the tank loop for its table entry. */
  lemma SensorValueReads(soup: Doc, sensor: string)
    ensures sensor == "printer_status" ==> SensorValue(Some(soup), sensor) == Some(Status(PrinterStatus(soup)))
    ensures sensor != "printer_status" && sensor in LevelSensorToDiv ==>
      var l := Lookup(FindAll(soup, TankItem), LevelSensorToDiv[sensor].0, LevelSensorToDiv[sensor].1);
      (l.Some? ==> SensorValue(Some(soup), sensor) == Some(Level(l.value))) &&
      (l.None? ==> SensorValue(Some(soup), sensor).None?)
  {
  }

  /** Levels are twice the pixel height, never clamped, and may be negative or far beyond 100. */
  lemma {:induction false} LevelsAreDoubledHeights(soup: Option<Doc>, sensor: string)
    requires SensorValue(soup, sensor).Some? && SensorValue(soup, sensor).value.Level?
    ensures sensor in LevelSensorToDiv && SensorValue(soup, sensor).value.n % 2 == 0
  {
    var rows := FindAll(soup.value, TankItem);
    var (divName, divText) := LevelSensorToDiv[sensor];
    LookupHits(rows, divName, divText);
  }

  /** A lookup value is a row's height. */
  lemma {:induction false} LookupHits(rows: seq<Node>, divName: string, divText: string)
    requires forall i :: 0 <= i < |rows| ==> rows[i].Element?
    ensures Lookup(rows, divName, divText).Some? ==>
      exists i :: 0 <= i < |rows| && TankHeight(rows[i]) == Hit(Lookup(rows, divName, divText).value)
  {
    if rows != [] && ProbeTank(rows[0], divName, divText).Skip? {
      LookupHits(rows[1..], divName, divText);
      if Lookup(rows, divName, divText).Some? {
        var i :| 0 <= i < |rows[1..]| && TankHeight(rows[1..][i]) == Hit(Lookup(rows, divName, divText).value);
        assert rows[i + 1] == rows[1..][i];
      }
    }
  }

  /**
   * A matching row whose tank child has a digit-only height h reads as
   * twice h, however large h is: levels are not clamped to 100.
   */
  lemma LevelIsTwiceHeight(li: Node, divName: string, divText: string)
    requires li.Element?
    requires var div := Find(li.children, TagClass("div", divName));
      div.Some? && div.value.children != [] && (div.value.children[0] == Text(divText) || divText == WasteText)
    requires HeightAttribute(li).Some? && IsDigits(HeightAttribute(li).value)
    ensures ProbeTank(li, divName, divText) == Hit(2 * DigitsValue(HeightAttribute(li).value))
  {
    var h := HeightAttribute(li).value;
    PyIntOfDigits(h);
    assert TankHeight(li) == Hit(DigitsValue(h) * 2);
  }

  // ----- _extract_device_info -----

  /** The model `_extract_device_info` reads: "Epson " and the stripped text of the first `<title>`, when that is non-empty. */
  function TitleModel(doc: Doc): (r: Option<string>)
    ensures r.Some? ==> IsVendorName(r.value)
    ensures r.None? <==> Find(doc, Tag("title")).None? || Strip(GetText(Find(doc, Tag("title")).value.children, "", false)) == ""
  {
    match Find(doc, Tag("title"))
    case None => None
    case Some(t) =>
      var name := Strip(GetText(t.children, "", false));
      if name == "" then None
      else
        assert (VendorPrefix + name)[|VendorPrefix|..] == name;
        Some(VendorPrefix + name)
  }

  /** "Epson " followed by a non-empty name with no whitespace at either end. */
  predicate IsVendorName(s: string) {
    |s| > |VendorPrefix| && s[..|VendorPrefix|] == VendorPrefix && IsStripped(s[|VendorPrefix|..])
  }

  /** Where this reader finds a model, the newer parser finds the same one. */
  lemma TitleModelAgreesWithParser(doc: Doc)
    ensures TitleModel(doc).Some? ==> Parser.ParseModel(doc) == TitleModel(doc)
  {
  }

  /** `[line.strip() for line in soup.get_text().split('\n') if line.strip()]`. */
  function TextLines(doc: Doc): (r: seq<string>)
    ensures forall i :: 0 <= i < |r| ==> r[i] != "" && IsStripped(r[i])
  {
    StrippedPieces(Split(GetText(doc, "", false), '\n'))
  }

  predicate IsMacLine(line: string) {
    Contains(line, MacLabel) && ':' in line
  }

  /** The index of the first line holding both "MAC Address" and ":". */
  function FirstMacLine(lines: seq<string>): (r: Option<nat>)
    ensures r.Some? ==>
      r.value < |lines| && IsMacLine(lines[r.value]) && forall j :: 0 <= j < r.value ==> !IsMacLine(lines[j])
    ensures r.None? ==> forall j :: 0 <= j < |lines| ==> !IsMacLine(lines[j])
  {
    if lines == [] then None
    else if IsMacLine(lines[0]) then Some(0)
    else
      match FirstMacLine(lines[1..])
      case None => None
      case Some(i) => Some(i + 1)
  }

  /**
   * `line.split('MAC Address')[1].strip()`, less one leading ":" and
   * stripped again: the text between the first and the second label.
   */
  function MacPart(line: string): (r: string)
    requires Contains(line, MacLabel)
    ensures IsStripped(r)
  {
    var pieces := SplitOn(line, MacLabel);
    var part := Strip(pieces[1]);
    if |part| > 0 && part[0] == ':' then Strip(part[1..]) else part
  }

  /** A line "MAC Address", optional spaces, ":", optional spaces, m yields m: the shapes "MAC Address: m", "MAC Address : m" and "MAC Address:m". */
  lemma MacPartAfterColon(p: string, q: string, m: string)
    requires AllSpace(p) && AllSpace(q)
    requires m != [] && IsStripped(m) && !Contains(m, MacLabel)
    ensures MacPart(MacLabel + p + ":" + q + m) == m
  {
    var tail := p + ":" + q + m;
    assert MacLabel + p + ":" + q + m == MacLabel + tail;
    ColonTailSplits(p + ":" + q, m);
    ColonTailStrips(p, q, m);
  }

  /** Spaces and one colon hold no 'M', so the label is not split again after them. */
  lemma ColonTailSplits(pre: string, m: string)
    requires forall j :: 0 <= j < |pre| ==> pre[j] == ':' || IsSpace(pre[j])
    requires !Contains(m, MacLabel)
    ensures SplitOn(MacLabel + (pre + m), MacLabel) == [[], pre + m]
  {
    SplitAfterLabel(pre, m);
  }

  /** Stripping the text after the label leaves ":", spaces and m, and stripping after the colon leaves m. */
  lemma ColonTailStrips(p: string, q: string, m: string)
    requires AllSpace(p) && AllSpace(q)
    requires m != [] && IsStripped(m)
    ensures Strip(p + ":" + q + m) == ":" + q + m
    ensures Strip((":" + q + m)[1..]) == m
  {
    var rest := ":" + q + m;
    assert p + ":" + q + m == p + rest;
    assert rest[|rest| - |m|..] == m;
    StripBeforeColon(p, rest, m);
    StripAfterColon(q, m);
  }

  lemma StripAfterColon(q: string, m: string)
    requires AllSpace(q) && m != [] && IsStripped(m)
    ensures Strip((":" + q + m)[1..]) == m
  {
    assert (":" + q + m)[1..] == q + m + [];
    StripAround(q, m, []);
  }

  lemma StripBeforeColon(p: string, rest: string, m: string)
    requires AllSpace(p) && m != [] && IsStripped(m)
    requires |rest| > |m| && rest[0] == ':' && rest[|rest| - |m|..] == m
    ensures Strip(p + rest) == rest
  {
    assert rest[|rest| - 1] == m[|m| - 1];
    assert p + rest == p + rest + [];
    StripAround(p, rest, []);
  }

  /** A line "MAC Address", optional spaces, then m yields m when m does not start with ":". */
  lemma MacPartAfterSpace(p: string, m: string)
    requires AllSpace(p)
    requires m != [] && IsStripped(m) && m[0] != ':' && !Contains(m, MacLabel)
    ensures MacPart(MacLabel + p + m) == m
  {
    assert MacLabel + p + m == MacLabel + (p + m);
    SplitAfterLabel(p, m);
    assert p + m == p + m + [];
    StripAround(p, m, []);
  }

  /** When the label does not occur after its first place, the split has two pieces: nothing, and the rest. */
  lemma SplitAfterLabel(pre: string, m: string)
    requires forall j :: 0 <= j < |pre| ==> pre[j] != 'M'
    requires !Contains(m, MacLabel)
    ensures SplitOn(MacLabel + (pre + m), MacLabel) == [[], pre + m]
  {
    var tail := pre + m;
    var s := MacLabel + tail;
    assert OccursAt(s, MacLabel, 0);
    assert s[|MacLabel|..] == tail;
    forall j: nat ensures !OccursAt(tail, MacLabel, j) {
      var k := |pre|;
      if j >= k && OccursAt(tail, MacLabel, j) {
        assert tail[j..j + |MacLabel|] == m[j - k..j - k + |MacLabel|];
        assert OccursAt(m, MacLabel, j - k);
      }
      if j < k && j + |MacLabel| <= |tail| {
        assert tail[j] == pre[j] && tail[j..j + |MacLabel|][0] == tail[j];
      }
    }
    assert IndexOf(tail, MacLabel).None?;
  }

  /** The MAC of the first MAC line of the page text, if there is such a line. */
  function MacFromLines(lines: seq<string>): (r: Option<string>)
    ensures r.Some? ==> IsStripped(r.value)
    ensures r.None? <==> forall j :: 0 <= j < |lines| ==> !IsMacLine(lines[j])
  {
    match FirstMacLine(lines)
    case None => None
    case Some(i) => Some(MacPart(lines[i]))
  }

  function MacFromText(doc: Doc): (r: Option<string>)
    ensures r.Some? ==> IsStripped(r.value)
  {
    MacFromLines(TextLines(doc))
  }

  /** The line loop of `_extract_device_info`, which stops at the first MAC line. */
  method FindMacLine(lines: seq<string>) returns (mac: Option<string>)
    ensures mac == MacFromLines(lines)
  {
    var i := 0;
    while i < |lines|
      invariant 0 <= i <= |lines|
      invariant forall j :: 0 <= j < i ==> !IsMacLine(lines[j])
    {
      if IsMacLine(lines[i]) {
        FirstMacLineIs(lines, i);
        return Some(MacPart(lines[i]));
      }
      i := i + 1;
    }
    return None;
  }

  lemma {:induction false} FirstMacLineIs(lines: seq<string>, i: nat)
    requires i < |lines| && IsMacLine(lines[i])
    requires forall j :: 0 <= j < i ==> !IsMacLine(lines[j])
    ensures FirstMacLine(lines) == Some(i)
  {
    if i > 0 {
      var tail := lines[1..];
      forall j | 0 <= j < i - 1 ensures !IsMacLine(tail[j]) {
        assert tail[j] == lines[j + 1];
      }
      assert tail[i - 1] == lines[i];
      FirstMacLineIs(tail, i - 1);
    }
  }

  /** The model held after reading doc: its title model, else the one held before. */
  function ModelAfter(doc: Doc, before: Option<string>): (r: Option<string>)
    ensures r.Some? && r != before ==> IsVendorName(r.value)
    ensures r.None? ==> before.None?
  {
    if TitleModel(doc).Some? then TitleModel(doc) else before
  }

  /** The MAC held after reading doc: the one its text gives, else the one held before. */
  function MacAfter(doc: Doc, before: Option<string>): (r: Option<string>)
    ensures r.Some? && r != before ==> IsStripped(r.value)
    ensures r.None? ==> before.None?
  {
    if MacFromText(doc).Some? then MacFromText(doc) else before
  }

  // ----- EpsonWorkForceAPI -----

  /** The reader for one printer; `soup` is the last page fetched successfully. */
  class WorkForceApi {
    const resource: string
    var available: bool
    var soup: Option<Doc>
    var model: Option<string>
    var macAddress: Option<string>

    /** What the reader may hold: a vendor model name and a stripped MAC. */
    predicate Valid()
      reads this
    {
      (model.Some? ==> IsVendorName(model.value)) &&
      (macAddress.Some? ==> IsStripped(macAddress.value))
    }

    /** `__init__`, then `update` with page the result of fetching `http://ip path`. */
    constructor (ip: string, path: string, page: Option<Doc>)
      ensures resource == "http://" + ip + path
      ensures available == page.Some? && soup == page
      ensures model == if page.Some? then TitleModel(page.value) else None
      ensures macAddress == if page.Some? then MacFromText(page.value) else None
      ensures Valid()
    {
      resource := "http://" + ip + path;
      available := true;
      soup := None;
      model := None;
      macAddress := None;
      new;
      Update(page);
    }

    /** `update`: a failed fetch only clears `available`, a page replaces the stored one and refreshes the device info. */
    method Update(page: Option<Doc>)
      modifies this
      ensures page.None? ==> !available && soup == old(soup) && model == old(model) && macAddress == old(macAddress)
      ensures page.Some? ==> available && soup == page
      ensures page.Some? ==> model == ModelAfter(page.value, old(model))
      ensures page.Some? ==> macAddress == MacAfter(page.value, old(macAddress))
      ensures old(Valid()) ==> Valid()
    {
      if page.None? {
        available := false;
        return;
      }
      soup := page;
      available := true;
      ExtractDeviceInfo();
    }

    /** `_extract_device_info`: what the stored page does not supply is kept from before. */
    method ExtractDeviceInfo()
      modifies this`model, this`macAddress
      ensures model == if soup.Some? then ModelAfter(soup.value, old(model)) else old(model)
      ensures macAddress == if soup.Some? then MacAfter(soup.value, old(macAddress)) else old(macAddress)
      ensures old(Valid()) ==> Valid()
    {
      if soup.None? {
        return;
      }
      ExtractModel(soup.value);
      ExtractMac(soup.value);
    }

    /** The first `try` of `_extract_device_info`: the title, when it gives a model. */
    method ExtractModel(doc: Doc)
      modifies this`model
      ensures model == ModelAfter(doc, old(model))
    {
      var title := TitleModel(doc);
      if title.Some? {
        model := title;
      }
    }

    /** The second `try` of `_extract_device_info`: the MAC of the first MAC line of the page text. */
    method ExtractMac(doc: Doc)
      modifies this`macAddress
      ensures macAddress == MacAfter(doc, old(macAddress))
    {
      var mac := FindMacLine(TextLines(doc));
      if mac.Some? {
        macAddress := mac;
      }
    }

    /** The `model` property. */
    function ModelName(): (r: string)
      reads this
      ensures model.None? ==> r == DefaultModel
      ensures Valid() ==> r == DefaultModel || IsVendorName(r)
    {
      model.GetOr(DefaultModel)
    }

    /** `get_sensor_value`: the printer status, or the level of the first tank row that decides. */
    method GetSensorValue(sensor: string) returns (v: Option<Reading>)
      ensures v == SensorValue(soup, sensor)
    {
      if soup.None? {
        return None;
      }
      if sensor == "printer_status" {
        return Some(Status(PrinterStatus(soup.value)));
      }
      if sensor !in LevelSensorToDiv {
        return None;
      }
      var (divName, divText) := LevelSensorToDiv[sensor];
      var level := FindLevel(FindAll(soup.value, TankItem), divName, divText);
      if level.Some? {
        return Some(Level(level.value));
      }
      return None;
    }
  }

  /** The `for li in ...` loop of `get_sensor_value`, with its `try`. */
  method FindLevel(rows: seq<Node>, divName: string, divText: string) returns (level: Option<int>)
    requires forall i :: 0 <= i < |rows| ==> rows[i].Element?
    ensures level == Lookup(rows, divName, divText)
  {
    var i := 0;
    while i < |rows|
      invariant 0 <= i <= |rows|
      invariant Lookup(rows, divName, divText) == Lookup(rows[i..], divName, divText)
    {
      var probe := ProbeTank(rows[i], divName, divText);
      assert rows[i..][0] == rows[i] && rows[i..][1..] == rows[i + 1..];
      match probe
      case Fail => return None;
      case Hit(v) => return Some(v);
      case Skip =>
      i := i + 1;
    }
    return None;
  }
}
