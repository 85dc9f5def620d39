# Epson WorkForce status-page reader, modelled in Dafny

This project models the Home Assistant integration `epson_workforce`. The integration reads a printer's built-in status web page. It extracts the printer model, the printer status, the ink and maintenance-box levels, the network tables and the MAC address. It then turns those readings into sensor entities.

A page is modelled as an already-parsed document tree (`Dom.Node`). An element has:

- a tag, an id and a class list;
- its `height` and `style` attributes;
- its children.

A text node is a leaf. The parts of BeautifulSoup that the code relies on are written out as document-order traversals:

- **find and find_all**: `Dom.Find`, `Dom.FindAll`.
- **get_text**: with separator and strip, `Dom.GetText`.
- **The class_ test**: `Dom.ClassMatches`. A class matches when it is one of the tokens, or when it equals the joined class string.

The Python string built-ins the code calls are written out in `PyStr`. These are `strip`, `lower`, `upper`, `replace`, `split`, `int()`, `in` and `endswith`. Each regular expression becomes a scanner for its one pattern.

- `parser.dfy` (module `Parser`) models `EpsonHTMLParser`, the current multi-skin extractor.
  - `_height_from_style`, `_clean_key` and `_clean_status` are pure.
  - So are `_parse_model` and `_parse_statuses`.
  - `_li_bar_height` is a linear search, written as a method with loops.
  - The two dictionary-filling loops are methods: `_parse_inks_and_maintenance` and `_parse_table_by_container_id`.
  - Each of those methods is proved equal to a function: the dictionary built by "last write wins" over the rows (`Dicts.MapOf`).
  - Lemmas then state what that dictionary holds.
- `api.dfy` (module `Api`) models `EpsonWorkForceAPI`, the older stateful reader.
  - It is a class with the fields `available`, `soup`, `model` and `macAddress`.
  - The HTTP fetch is a parameter: `Option<Doc>`, with `None` when the fetch or the HTML parse raised.
  - `update` and `_extract_device_info` reassign those fields; `get_sensor_value` and the MAC line search are loops.
- `sensor.dfy` (module `Sensor`) models the small pure pieces of the sensor platform:
  - sensor detection over a value function;
  - host cleaning and the unique id;
  - the MAC connection of the device info;
  - entity availability.
- `dicts.dfy`, `pystr.dfy`, `dom.dfy` and `wrappers.dfy` hold the supporting definitions: last-write-wins dictionaries, Python strings, the document tree and `Option`.

## Model

Source paths are relative to the repository root.

| member | source | states |
|---|---|---|
| Parser.HeightMatchAt | custom_components/epson_workforce/parser.py:30 | the pattern `height\s*:\s*(\d+)` can match at a position only where "height" occurs there |
| Parser.HeightMatchAtIsPattern | custom_components/epson_workforce/parser.py:30 | the scanner succeeds at i exactly when "height", a whitespace run, ":", a whitespace run and a maximal digit run follow there, and it yields the value of that digit run |
| Parser.FirstHeightMatch | custom_components/epson_workforce/parser.py:30 | `re.search` position: the leftmost position from i at which the height pattern matches, or none when it matches nowhere |
| Parser.HeightFromStyleIsFirstMatch | custom_components/epson_workforce/parser.py:21-31 | no style gives None; otherwise the value is the digit group of the leftmost match in the lower-cased style, and None exactly when the pattern matches nowhere |
| Parser.CleanKey | custom_components/epson_workforce/parser.py:34-38 | a cleaned key never has whitespace at either end |
| Parser.DropColon | custom_components/epson_workforce/parser.py:36-37 | a key ending in ":" loses exactly that one colon and is stripped again (so it gets shorter); any other key is kept as it is; the result stays stripped |
| Parser.CleanKeyPlain | custom_components/epson_workforce/parser.py:34-38 | a stripped key without a colon is unchanged |
| Parser.CleanKeyColon | custom_components/epson_workforce/parser.py:34-38 | "k:" cleans to k |
| Parser.CleanKeySpaceColon | custom_components/epson_workforce/parser.py:34-38 | "k :" is first rewritten to "k:" and cleans to k |
| Parser.CleanKeyNbspColon | custom_components/epson_workforce/parser.py:34-38 | "k\xa0:" loses the pair entirely and cleans to k |
| Parser.CleanKeyDropsColon | custom_components/epson_workforce/parser.py:34-38 | every spelling of a label with its colon (k, "k:", "k :", "k\xa0:") gives the same key k |
| Parser.StatusLabelLength | custom_components/epson_workforce/parser.py:105-107 | the label prefix removed never exceeds the text, swallows all whitespace after it, and is empty unless the text starts with "printer" or "scanner" in any case |
| Parser.StatusLabelLengthIsLongestMatch | custom_components/epson_workforce/parser.py:105-107 | a label is removed exactly when some prefix is "printer" or "scanner", a non-empty whitespace run, "status" and the separator `\s*[:\-]?\s*`, ignoring case; what is removed is such a match, and no match is longer |
| Parser.SeparatorEndIsLongest | custom_components/epson_workforce/parser.py:106 | the separator part `\s*[:\-]?\s*` is matched greedily: the scanner ends a match, and no match from the same place is longer |
| Parser.PrinterLabelLength | custom_components/epson_workforce/parser.py:105-107 | the prefix of "Printer Status: p" is its 16 label characters |
| Parser.ScannerLabelLength | custom_components/epson_workforce/parser.py:105-107 | the prefix of "SCANNER STATUS - p" is its 17 label characters, ignoring case |
| Parser.DropPeriod | custom_components/epson_workforce/parser.py:108-109 | at most one character, a trailing period, is removed |
| Parser.DropPeriodOf | custom_components/epson_workforce/parser.py:108-109 | "p." loses its period exactly when it has at most 40 characters (MAX_STATUS_LENGTH) |
| Parser.CleanStatus | custom_components/epson_workforce/parser.py:100-110 | never the empty string (an empty result becomes None); empty input gives None; a result is a contiguous part of the input that does not start with whitespace |
| Parser.CleanStatusPeriod | custom_components/epson_workforce/parser.py:108-109 | one trailing period goes when at most 40 characters remain, and a longer status keeps it |
| Parser.CleanStatusPlain | custom_components/epson_workforce/parser.py:100-110 | a stripped, unlabelled status without a final period is returned unchanged |
| Parser.CleanStatusDropsPrinterLabel | custom_components/epson_workforce/parser.py:105-107 | "Printer Status: p" cleans to p |
| Parser.CleanStatusDropsScannerLabel | custom_components/epson_workforce/parser.py:105-107 | "SCANNER STATUS - p" cleans to p (case is ignored) |
| Parser.ParseModel | custom_components/epson_workforce/parser.py:71-78 | a model is "Epson " followed by a stripped name; a non-empty `<title>` wins; with no such title a non-empty `span.header` gives "Epson " and its text; None exactly when neither gives a name |
| Parser.ParseStatuses | custom_components/epson_workforce/parser.py:80-98 | a status present is never ""; a fieldset whose text cleans to a value decides; otherwise the first span of the first `div.information` gives the cleaned span text; a fieldset that cleans to None with no such span leaves the key set to None; the key is absent exactly when there is no fieldset and no `div.information` with a span |
| Parser.FirstTankDiv | custom_components/epson_workforce/parser.py:153-159 | the bar found always has class "tank" in some case |
| Parser.FirstTankDivIsFirst | custom_components/epson_workforce/parser.py:153-159 | no bar exactly when no div has class "tank" in any case; otherwise the bar is the first such div |
| Parser.FindTankDiv | custom_components/epson_workforce/parser.py:153-159 | the loop finds the first div with class "tank" in any case |
| Parser.BarImage | custom_components/epson_workforce/parser.py:163 | the image is an `img` element: the first `img.color` when the bar holds one, and otherwise the first `img` |
| Dom.FindIsFirst | custom_components/epson_workforce/parser.py:163 | `find` returns the first matching descendant in document order |
| Parser.BarHeightPrefersImage | custom_components/epson_workforce/parser.py:151-177 | the search order: no tank div means no height; a digit-only `height` attribute on the bar's image decides; else the image's style height; else (no image, or neither gives a height) the first style height among the bar's descendants |
| Parser.LiBarHeight | custom_components/epson_workforce/parser.py:151-177 | the method with its early returns computes BarHeight |
| Parser.FirstStyleHeightOf | custom_components/epson_workforce/parser.py:172-176 | the descendant loop computes FirstStyleHeight |
| Parser.FirstStyleHeightIsFirst | custom_components/epson_workforce/parser.py:172-176 | no fallback height exactly when no descendant has a style height; otherwise the style height of the first one that has |
| Parser.TankRows | custom_components/epson_workforce/parser.py:117 | `select("li.tank")` yields elements only |
| Parser.FirstLabel | custom_components/epson_workforce/parser.py:121-129 | a channel code is never empty |
| Parser.FirstLabelIsFirst | custom_components/epson_workforce/parser.py:121-129 | no code exactly when no `clrname` div (any case) has non-empty text; otherwise the code is the upper-cased text of the first such div |
| Parser.FindRowLabel | custom_components/epson_workforce/parser.py:121-129 | the label loop with its `break` computes that code |
| Parser.Percent | custom_components/epson_workforce/parser.py:142 | `max(0, min(100, 2h))` lies in [0, 100]: it is 2h up to h = 50 and 100 from there |
| Parser.ParseInksAndMaintenance | custom_components/epson_workforce/parser.py:113-149 | the row loop builds exactly the last-write-wins dictionary of the rows' ink writes and the last maintenance write |
| Parser.AddTankRow | custom_components/epson_workforce/parser.py:121-147 | one loop iteration extends both results by row i |
| Parser.TankRowStep | custom_components/epson_workforce/parser.py:144-147 | a row stores its ink write under its code (overwriting) or its maintenance write, and a row without either changes nothing |
| Parser.ReadTankRow | custom_components/epson_workforce/parser.py:121-147 | the body of the loop computes the row's ink and maintenance writes |
| Parser.InkKeys | custom_components/epson_workforce/parser.py:139-147 | a code is an ink key exactly when some row has a bar height, no `mbicn` div and that code |
| Parser.InkLevelFromLastRow | custom_components/epson_workforce/parser.py:142-147 | a repeated code holds the percentage of the last row that writes it |
| Parser.MaintenanceWriteMeaning | custom_components/epson_workforce/parser.py:132-145 | a row sets the maintenance level exactly when it has an `mbicn` div and a height, even when it also has a label, and then to its percentage |
| Parser.MaintenanceFromLastRow | custom_components/epson_workforce/parser.py:139-145 | the maintenance level is None exactly when no row writes it, and otherwise the value of the last row that does |
| Parser.LevelsArePercentages | custom_components/epson_workforce/parser.py:142 | every ink level and the maintenance level lie in [0, 100] |
| Parser.TableRows | custom_components/epson_workforce/parser.py:182-184 | a missing container yields no rows |
| Parser.TableWrite | custom_components/epson_workforce/parser.py:185-198 | a row stores a pair only when it has both a key cell and a value cell; with both, it stores (the cleaned key-cell text, the value-cell text) exactly when that key is non-empty; key and value are stripped |
| Parser.ParseTableByContainerId | custom_components/epson_workforce/parser.py:180-199 | the loop builds exactly the last-write-wins dictionary of the rows' writes |
| Parser.ReadTableRow | custom_components/epson_workforce/parser.py:186-198 | the body of the loop computes a row's write |
| Parser.TableKeysAreClean | custom_components/epson_workforce/parser.py:194-198 | every table key is non-empty and stripped |
| Parser.TableEntries | custom_components/epson_workforce/parser.py:180-199 | a key is present exactly when some row writes it, and its value is the one from the last such row |
| Parser.FirstMacAt | custom_components/epson_workforce/parser.py:204 | the leftmost position from i where a MAC token with word boundaries (`\b`) on both sides starts |
| Parser.ExtractMacFromText | custom_components/epson_workforce/parser.py:202-205 | a found MAC has 17 characters |
| Parser.ExtractMacIsFirstToken | custom_components/epson_workforce/parser.py:202-205 | None exactly when the page text has no MAC token; otherwise the first one, in the page's own case |
| Parser.ChooseMac | custom_components/epson_workforce/parser.py:54 | the network table's non-empty "MAC Address" wins; otherwise the text scan decides; the result is never "" |
| Parser.Parse | custom_components/epson_workforce/parser.py:48-68 | the record combines the extractors; source falls back to the model; levels lie in [0, 100]; `wifi_direct` and `mac_address` are present only when non-empty |
| Api.CleanStatus | custom_components/epson_workforce/api.py:102-108 | None exactly for empty input; no trimming; at most the last character is dropped, and it is dropped exactly when the status is shorter than 30 and ends in "." |
| Api.CleanStatusOfPeriod | custom_components/epson_workforce/api.py:104-108 | a lone "." cleans to "" (which the status chain then skips) |
| Api.FieldsetStatus | custom_components/epson_workforce/api.py:110-125 | None exactly when there is no `fieldset#PRT_STATUS`, no `ul` inside it, or that `ul` has empty text; otherwise the cleaned text |
| Api.StatusSpan | custom_components/epson_workforce/api.py:134-136 | the span read is a `span`: the first one inside the first `p.clearfix` when that holds one, otherwise the first one anywhere in the div; none exactly when neither holds a span |
| Api.InformationDivStatus | custom_components/epson_workforce/api.py:127-141 | None exactly when there is no `div.information`, no span, or empty span text; with a span, the cleaned span text, which is the span text with at most its last character removed |
| Api.PrinterStatus | custom_components/epson_workforce/api.py:143-160 | never empty; a non-empty fieldset status wins; else a non-empty information-div status; anything else is "Unknown" |
| Api.PrinterStatusDefault | custom_components/epson_workforce/api.py:143-160 | with no fieldset `ul` and no information span the status is "Unknown" |
| Api.TankHeight | custom_components/epson_workforce/api.py:53 | reading the height of the tank's first child either raises or gives an even value (twice the parsed integer) |
| Api.ProbeTank | custom_components/epson_workforce/api.py:50-53 | a row without the sensor's div is skipped; a row that returns gives its tank height |
| Api.ProbeTankCases | custom_components/epson_workforce/api.py:50-53 | an empty `div_name` div raises; one whose first content is the text `div_text`, or any non-empty one when `div_text` is "Waste", is decided by its tank height; any other is skipped |
| Api.LookupFirstDecides | custom_components/epson_workforce/api.py:48-57 | the first row that does not skip decides (a value, or None when it raises); when every row skips, None |
| Api.CleanIgnoresLabel | custom_components/epson_workforce/api.py:52 | for "clean" with its "Waste" text, any non-empty `div.mbicn` matches whatever its text |
| Api.LevelIsTwiceHeight | custom_components/epson_workforce/api.py:50-53 | a matching row with a digit-only height attribute returns exactly twice its value, with no clamping |
| Api.LookupHits | custom_components/epson_workforce/api.py:48-53 | a lookup value is the tank height of one of the rows |
| Api.FindLevel | custom_components/epson_workforce/api.py:48-57 | the tank loop with its early return and `except` computes Lookup |
| Api.SensorValue | custom_components/epson_workforce/api.py:33-57 | no page gives None; "printer_status" gives a non-empty status; a key outside LEVEL_SENSOR_TO_DIV gives None; other keys give a level or None |
| Api.SensorValueReads | custom_components/epson_workforce/api.py:33-57 | with a page, "printer_status" reads the printer status chain, and a table key reads the tank loop over `li.tank` rows for its (div name, div text) entry: its value as a level, or None |
| Api.LevelsAreDoubledHeights | custom_components/epson_workforce/api.py:43-53 | a level is only ever returned for a table key, and is even |
| Api.TitleModel | custom_components/epson_workforce/api.py:75-84 | "Epson " followed by the stripped non-empty title; None exactly when there is no title or its text is blank |
| Api.TitleModelAgreesWithParser | custom_components/epson_workforce/api.py:75-84 | where the reader finds a title model, the newer parser's `_parse_model` gives the same |
| Api.TextLines | custom_components/epson_workforce/api.py:88-89 | the lines kept are non-empty and stripped |
| Api.FirstMacLine | custom_components/epson_workforce/api.py:91-92 | the first line holding both "MAC Address" and ":" |
| Api.MacPart | custom_components/epson_workforce/api.py:94-96 | the extracted text is stripped |
| Api.MacPartAfterColon | custom_components/epson_workforce/api.py:94-96 | "MAC Address", any whitespace, ":", any whitespace, then m yields m; this covers "MAC Address: m", "MAC Address : m" and "MAC Address:m" |
| Api.MacPartAfterSpace | custom_components/epson_workforce/api.py:94-96 | "MAC Address", any whitespace, then an m not starting with ":" yields m |
| Api.MacFromLines | custom_components/epson_workforce/api.py:89-98 | a MAC found is stripped; None exactly when no line is a MAC line |
| Api.MacFromText | custom_components/epson_workforce/api.py:86-100 | a MAC taken from the page text is stripped |
| Api.FindMacLine | custom_components/epson_workforce/api.py:91-98 | the line loop with its `break` computes MacFromLines |
| Api.FirstMacLineIs | custom_components/epson_workforce/api.py:91-98 | the line the loop stops at is the first MAC line |
| Api.ModelAfter | custom_components/epson_workforce/api.py:75-84 | a new model is a vendor name; a model once held is never lost |
| Api.MacAfter | custom_components/epson_workforce/api.py:86-100 | a new MAC is stripped; a MAC once held is never lost |
| Api.WorkForceApi.constructor | custom_components/epson_workforce/api.py:24-31 | the resource is "http://" + ip + path; the first update gives all four fields their values and establishes Valid |
| Api.WorkForceApi.Update | custom_components/epson_workforce/api.py:162-174 | a failed fetch only clears `available`; a successful one stores the page, sets `available` and re-extracts device info; Valid is kept |
| Api.WorkForceApi.ExtractDeviceInfo | custom_components/epson_workforce/api.py:69-100 | with no page nothing changes; otherwise model and MAC are updated from the page; Valid is kept |
| Api.WorkForceApi.ExtractModel | custom_components/epson_workforce/api.py:75-84 | only the model changes, to ModelAfter |
| Api.WorkForceApi.ExtractMac | custom_components/epson_workforce/api.py:86-100 | only the MAC changes, to MacAfter |
| Api.WorkForceApi.ModelName | custom_components/epson_workforce/api.py:59-62 | "WorkForce Printer" when no model is held, otherwise a vendor name |
| Api.WorkForceApi.GetSensorValue | custom_components/epson_workforce/api.py:33-57 | the method returns SensorValue of the stored page |
| Sensor.Detected | custom_components/epson_workforce/sensor.py:131-146 | a key is detected exactly when it is a key and its value is a str, int (bool included) or float; never more keys than given |
| Sensor.DetectedIsSubsequence | custom_components/epson_workforce/sensor.py:131-146 | the detected keys keep the order of SENSOR_TYPES |
| Sensor.NothingDetected | custom_components/epson_workforce/sensor.py:143-144 | when no value counts, the list is empty |
| Sensor.ZeroCounts | custom_components/epson_workforce/sensor.py:143 | 0 and "" count as available, None does not |
| Sensor.DetectAvailableSensors | custom_components/epson_workforce/sensor.py:131-146 | the append loop over SENSOR_TYPES computes Detected |
| Sensor.DetectedWithReader | custom_components/epson_workforce/sensor.py:137 | fed by the reader as written, only "clean" and "printer_status" can be detected; with a page "printer_status" always is; without one nothing is |
| Sensor.SensorKeysOutsideTable | custom_components/epson_workforce/api.py:11-20 | "clean" is the only SENSOR_TYPES key that is also a LEVEL_SENSOR_TO_DIV key |
| Sensor.ReaderSensorName | custom_components/epson_workforce/api.py:11-20 | every SENSOR_TYPES key except "GY" and "printer_status" pairs with a key of LEVEL_SENSOR_TO_DIV; "printer_status" pairs with itself |
| Sensor.ReaderNamesCoverTable | custom_components/epson_workforce/api.py:11-20 | with that pairing every level of the table has a sensor key |
| Sensor.DetectedWithPairedNames | custom_components/epson_workforce/sensor.py:131-146 | with a pairing that keeps "printer_status", a key is detected exactly when the reader returns a value for its name; with a page the status is detected; without one nothing is |
| Sensor.CountsExactlyWhenRead | custom_components/epson_workforce/sensor.py:143 | a value from the reader counts exactly when it is not None |
| Sensor.HostClean | custom_components/epson_workforce/sensor.py:193 | same length, each "." and ":" replaced by "_", every other character kept, so neither remains |
| Sensor.UniqueId | custom_components/epson_workforce/sensor.py:214-216 | "epson_workforce_", then the cleaned host, then "_" and the key |
| Sensor.UniqueIdSeparatesKeys | custom_components/epson_workforce/sensor.py:214-216 | two sensors of one host never share an id |
| Sensor.UniqueIdMergesSeparators | custom_components/epson_workforce/sensor.py:193 | hosts "fe80:1" and "fe80.1" give the same ids |
| Sensor.DeviceInfoOf | custom_components/epson_workforce/sensor.py:196-211 | the identifiers are {(domain, host)}; the model is the reader's model name; a ("mac", lower-cased MAC) connection exists exactly when the MAC is non-empty |
| Sensor.EntityAvailable | custom_components/epson_workforce/sensor.py:224-226 | true exactly when the last coordinator update succeeded and the reader is available |

## Where the tests disagree with the code

The model follows the code in each of these cases.

- **Unknown sensor and malformed tank row.** `tests/test_api.py:308-356` expects 0 from `get_sensor_value` for an unknown sensor and for a malformed tank row. The code returns None (`api.py:43-57`), and so does `Api.SensorValue`.
- **No page.** `tests/test_api.py:401-410` expects "Unknown" and 0 when there is no page. The code returns None for every sensor before reaching the status chain (`api.py:35-36`).

## Left out

- **HTTP fetch.** The fetch in `update` (urllib, with an unverified SSL context) is I/O. It is the `page: Option<Doc>` parameter of `Update` and of the constructor, where None stands for any raised exception.
- **HTML parsing.** BeautifulSoup's HTML-to-tree parsing is a foreign library, so the tree is taken as input.
  - Attributes other than `class`, `id`, `height` and `style` are not represented.
  - Comments, `<script>` and `<style>` text are not represented.
  - Entity decoding is not represented.
  - A parsed page is always truthy, as a bs4 Tag is, so `if not self.soup` is a presence test.
- **Regular expressions.** The regex engine is not modelled. Each of the three patterns is a scanner for that one pattern: the height pattern, the status label prefix, and the MAC token with `\b`.
- **ASCII-only case, digits and word characters.** Case mapping, `isdigit`, `int()` digits, `re.IGNORECASE` and the regex classes `\d` and `\w` (and so `\b`) cover ASCII only. Python applies them to all of Unicode.
  - Whitespace is the exception: the full set that `str.strip` and `\s` use is modelled.
  - So `Sensor.DeviceInfoOf` lower-cases ASCII letters only.
- **Parser.ExtractMacIsFirstToken.** It is stated for ASCII word characters only. A letter such as "é" is a word character to Python, so a text "é00:11:22:33:44:55" has no `\b` before the MAC and gives None in Python, where the model finds the MAC.
- **Parser.HeightFromStyleIsFirstMatch.** It is stated for ASCII digits only. A style "height:٤٥" (Arabic-Indic digits) matches `\d+` in Python, and `int()` reads it as 45; the model finds no height.
- **Floats.** A float is only a type tag: `Sensor.PyValue.FloatValue`, which is all that `_detect_available_sensors` looks at.
- **The `mac_address` property.** It returns the field as it is, so the model reads `macAddress` directly.
- **Home Assistant plumbing.** These are out of scope:
  - `async_setup_entry`;
  - the data-update coordinator and its executor scheduling;
  - `native_value`, a direct call of `get_sensor_value` that `Api.WorkForceApi.GetSensorValue` covers;
  - `config_flow.py`;
  - integration registration in `__init__.py`.
- **Sensor.DetectAvailableSensors.** It runs over an abstract value function, not over a reader, because the two tables' keys differ (see Findings). `Sensor.DetectedWithReader` composes detection with the reader as the code wires it.
- **Parser.CleanKey.** Its own contract only states that the result is stripped. Its behaviour is pinned down by lemmas for the label shapes the status pages use, namely a stripped colon-free key followed by nothing, ":", " :" or "\xa0:". A key with a colon inside it is not characterised.
- **Api.MacPart.** Its own contract only states that the result is stripped. `Api.MacPartAfterColon` covers a label followed by whitespace, ":", whitespace and m: "MAC Address: m", "MAC Address : m", "MAC Address:m". `Api.MacPartAfterSpace` covers a label followed by whitespace and m. Both need m to be stripped and free of "MAC Address". A line holding "MAC Address" twice, or text before the label, is not characterised.

## Findings

| source | as written | input that shows it | evidently intended | confidence | as-written member | corrected member |
|---|---|---|---|---|---|---|
| custom_components/epson_workforce/sensor.py:134-137 | `_detect_available_sensors` asks the reader for each key of SENSOR_TYPES ("BK", "PB", "GY", "M", "C", "Y", "LC", "LM", "clean", "printer_status"). The reader's LEVEL_SENSOR_TO_DIV is keyed "black", "photoblack", …, "clean" (api.py:11-20), so every ink key gives None. | A page with a `li.tank` row whose `div.clrname` reads "BK" and whose tank image has height 45: `get_sensor_value("BK")` is None, so no black-ink sensor is created. `get_sensor_value("black")` would give 90. | Each ink key reaches the reader under its table name ("BK" to "black", and so on), so a tank the reader can read yields a sensor. "GY" has no entry under any name. | not executed | Sensor.DetectedWithReader | Sensor.DetectedWithPairedNames |
