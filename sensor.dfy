/**
 * The small pure pieces of the sensor platform: which sensor descriptions
 * are created for a printer, the entity's unique id and device info, and its
 * availability.
 */
module Sensor {
  import opened Wrappers
  import opened PyStr
  import Dom
  import Api

  const Domain := "epson_workforce"

  /** The keys of `SENSOR_TYPES`, in order. */
  const SensorKeys: seq<string> := ["BK", "PB", "GY", "M", "C", "Y", "LC", "LM", "clean", "printer_status"]

  /** A Python value as `_detect_available_sensors` tests it (floats are not modelled beyond their type). */
  datatype PyValue = NoneValue | IntValue(i: int) | BoolValue(b: bool) | FloatValue | StrValue(s: string) | OtherValue

  /** `value is not None and isinstance(value, str | int | float)` (a bool is an int). */
  predicate CountsAsAvailable(v: PyValue) {
    v.IntValue? || v.BoolValue? || v.FloatValue? || v.StrValue?
  }

  /** The keys, in order, whose value counts as available. */
  function Detected(keys: seq<string>, value: string -> PyValue): (r: seq<string>)
    ensures forall k :: k in r <==> k in keys && CountsAsAvailable(value(k))
    ensures |r| <= |keys|
  {
    if keys == [] then []
    else
      var rest := Detected(keys[..|keys| - 1], value);
      var k := keys[|keys| - 1];
      if CountsAsAvailable(value(k)) then rest + [k] else rest
  }

  /** xs is ys with some elements left out. */
  predicate IsSubsequence<T(==)>(xs: seq<T>, ys: seq<T>)
    decreases |ys|
  {
    if xs == [] then true
    else if ys == [] then false
    else if xs[|xs| - 1] == ys[|ys| - 1] then IsSubsequence(xs[..|xs| - 1], ys[..|ys| - 1])
    else IsSubsequence(xs, ys[..|ys| - 1])
  }

  /** The detected keys keep the order of `SENSOR_TYPES`. */
  lemma {:induction false} DetectedIsSubsequence(keys: seq<string>, value: string -> PyValue)
    ensures IsSubsequence(Detected(keys, value), keys)
  {
    if keys != [] {
      var init := keys[..|keys| - 1];
      DetectedIsSubsequence(init, value);
      var rest := Detected(init, value);
      assert init + [keys[|keys| - 1]] == keys;
      if !CountsAsAvailable(value(keys[|keys| - 1])) {
        SubsequenceOfLonger(rest, init, keys[|keys| - 1]);
      } else {
        assert (rest + [keys[|keys| - 1]])[..|rest|] == rest;
      }
    }
  }

  /** Dropping the last element of a subsequence leaves a subsequence. */
  lemma {:induction false} SubsequenceDropLast<T>(xs: seq<T>, ys: seq<T>)
    requires xs != [] && IsSubsequence(xs, ys)
    ensures IsSubsequence(xs[..|xs| - 1], ys)
    decreases |ys|, 1
  {
    var init := ys[..|ys| - 1];
    if xs[|xs| - 1] == ys[|ys| - 1] {
      SubsequenceOfLonger(xs[..|xs| - 1], init, ys[|ys| - 1]);
    } else {
      SubsequenceDropLast(xs, init);
      SubsequenceOfLonger(xs[..|xs| - 1], init, ys[|ys| - 1]);
    }
    assert init + [ys[|ys| - 1]] == ys;
  }

  /** A subsequence of ys is one of ys extended by one element. */
  lemma {:induction false} SubsequenceOfLonger<T>(xs: seq<T>, ys: seq<T>, y: T)
    requires IsSubsequence(xs, ys)
    ensures IsSubsequence(xs, ys + [y])
    decreases |ys| + 1, 0
  {
    assert (ys + [y])[..|ys|] == ys;
    if xs != [] && xs[|xs| - 1] == y {
      SubsequenceDropLast(xs, ys);
    }
  }

  /** When no key counts as available, none is detected. */
  lemma {:induction false} NothingDetected(keys: seq<string>, value: string -> PyValue)
    requires forall k :: k in keys ==> !CountsAsAvailable(value(k))
    ensures Detected(keys, value) == []
  {
    if keys != [] {
      NothingDetected(keys[..|keys| - 1], value);
    }
  }

  /** An empty tank reads 0 and still counts, as does any status string. */
  lemma ZeroCounts()
    ensures CountsAsAvailable(IntValue(0)) && CountsAsAvailable(StrValue(""))
    ensures !CountsAsAvailable(NoneValue)
  {
  }

  /** `_detect_available_sensors`: the loop over `SENSOR_TYPES` that appends each available key. */
  method DetectAvailableSensors(value: string -> PyValue) returns (available: seq<string>)
    ensures available == Detected(SensorKeys, value)
  {
    available := [];
    var i := 0;
    while i < |SensorKeys|
      invariant 0 <= i <= |SensorKeys|
      invariant available == Detected(SensorKeys[..i], value)
    {
      var key := SensorKeys[i];
      assert SensorKeys[..i + 1][..i] == SensorKeys[..i];
      if CountsAsAvailable(value(key)) {
        available := available + [key];
      }
      i := i + 1;
    }
    assert SensorKeys[..|SensorKeys|] == SensorKeys;
  }

  // ----- the sensor keys against the reader's table -----

  /** How a reading of the reader looks to the detection test. */
  function FromReading(r: Option<Api.Reading>): PyValue {
    if r.None? then NoneValue
    else if r.value.Level? then IntValue(r.value.n)
    else StrValue(r.value.s)
  }

  /**
   * Detection against the reader as the code wires it: the ink keys of
   * `SENSOR_TYPES` ("BK", ...) are not keys of `LEVEL_SENSOR_TO_DIV`
   * ("black", ...), so only "clean" and "printer_status" can ever be found,
   * and with a page "printer_status" always is.
   */
  lemma DetectedWithReader(soup: Option<Dom.Doc>)
    ensures var d := Detected(SensorKeys, k => FromReading(Api.SensorValue(soup, k)));
      (forall k :: k in d ==> k == "clean" || k == "printer_status") &&
      (soup.Some? ==> "printer_status" in d) &&
      (soup.None? ==> d == [])
  {
    var value := k => FromReading(Api.SensorValue(soup, k));
    var d := Detected(SensorKeys, value);
    forall k | k in d ensures k == "clean" || k == "printer_status" {
      if k != "printer_status" {
        assert Api.SensorValue(soup, k).Some?;
        SensorKeysOutsideTable(k);
      }
    }
    if soup.Some? {
      assert CountsAsAvailable(value("printer_status"));
    }
    if soup.None? {
      NothingDetected(SensorKeys, value);
    }
  }

  /** "clean" is the only sensor key the reader's level table knows. */
  lemma SensorKeysOutsideTable(k: string)
    requires k in SensorKeys && k in Api.LevelSensorToDiv
    ensures k == "clean"
  {
    assert Api.LevelSensorToDiv.Keys ==
      {"black", "photoblack", "magenta", "cyan", "yellow", "lightcyan", "lightmagenta", "clean"};
  }

  /** The reader's table name for a sensor key, as the two tables evidently mean to pair them. */
  function ReaderSensorName(key: string): (r: string)
    ensures key in SensorKeys && key != "GY" && key != "printer_status" ==> r in Api.LevelSensorToDiv
    ensures key == "printer_status" ==> r == key
  {
    match key
    case "BK" => "black"
    case "PB" => "photoblack"
    case "M" => "magenta"
    case "C" => "cyan"
    case "Y" => "yellow"
    case "LC" => "lightcyan"
    case "LM" => "lightmagenta"
    case _ => key
  }

  /** With the names paired, every level of the reader's table has a sensor key. */
  lemma ReaderNamesCoverTable()
    ensures forall s :: s in Api.LevelSensorToDiv ==> exists k :: k in SensorKeys && ReaderSensorName(k) == s
  {
    forall s | s in Api.LevelSensorToDiv ensures exists k :: k in SensorKeys && ReaderSensorName(k) == s {
      assert s in {"black", "photoblack", "magenta", "cyan", "yellow", "lightcyan", "lightmagenta", "clean"};
      var k := PairedKey(s);
      assert k in SensorKeys && ReaderSensorName(k) == s;
    }
  }

  /** The sensor key the pairing sends to a table name. */
  function PairedKey(s: string): string {
    match s
    case "black" => "BK"
    case "photoblack" => "PB"
    case "magenta" => "M"
    case "cyan" => "C"
    case "yellow" => "Y"
    case "lightcyan" => "LC"
    case "lightmagenta" => "LM"
    case _ => s
  }

  /**
   * Detection with the keys mapped to the reader's names by a pairing that
   * keeps "printer_status" (such as ReaderSensorName): a key is detected
   * exactly when the reader returns a value for its name, with a page the
   * status key always is, and without a page none is.
   */
  lemma DetectedWithPairedNames(soup: Option<Dom.Doc>, keys: seq<string>, name: string -> string)
    requires name("printer_status") == "printer_status"
    ensures var d := Detected(keys, k => FromReading(Api.SensorValue(soup, name(k))));
      (forall k :: k in keys ==> (k in d <==> Api.SensorValue(soup, name(k)).Some?)) &&
      (soup.Some? && "printer_status" in keys ==> "printer_status" in d) &&
      (soup.None? ==> d == [])
  {
    var value := k => FromReading(Api.SensorValue(soup, name(k)));
    forall k | k in keys ensures CountsAsAvailable(value(k)) <==> Api.SensorValue(soup, name(k)).Some? {
      CountsExactlyWhenRead(Api.SensorValue(soup, name(k)));
    }
    if soup.None? {
      NothingDetected(keys, value);
    }
  }

  /** A reading counts as available exactly when there is one. */
  lemma CountsExactlyWhenRead(r: Option<Api.Reading>)
    ensures CountsAsAvailable(FromReading(r)) <==> r.Some?
  {
  }

  // ----- EpsonPrinterCartridge -----

  /** `host.replace(".", "_").replace(":", "_")`. */
  function HostClean(host: string): (r: string)
    ensures |r| == |host|
    ensures forall i :: 0 <= i < |host| ==> r[i] == if host[i] == '.' || host[i] == ':' then '_' else host[i]
    ensures '.' !in r && ':' !in r
  {
    var dotted := ReplaceAll(host, ".", "_");
    ReplaceCharAt(host, '.', '_');
    ReplaceCharAt(dotted, ':', '_');
    ReplaceAll(dotted, ":", "_")
  }

  /** `unique_id`: "epson_workforce_", the cleaned host, "_" and the sensor key. */
  function UniqueId(host: string, key: string): (r: string)
    ensures |r| == |Domain| + |host| + |key| + 2 && r[..|Domain| + 1] == Domain + "_"
    ensures EndsWith(r, "_" + key)
    ensures r[|Domain| + 1..|Domain| + 1 + |host|] == HostClean(host)
  {
    var r := Domain + "_" + HostClean(host) + "_" + key;
    assert r[|r| - |key| - 1..] == "_" + key;
    assert r[|Domain| + 1..|Domain| + 1 + |host|] == HostClean(host);
    r
  }

  /** Two sensors of one printer never share an id. */
  lemma UniqueIdSeparatesKeys(host: string, k1: string, k2: string)
    requires k1 != k2
    ensures UniqueId(host, k1) != UniqueId(host, k2)
  {
    var p := Domain + "_" + HostClean(host) + "_";
    assert UniqueId(host, k1) == p + k1 && UniqueId(host, k2) == p + k2;
    assert (p + k1)[|p|..] == k1 && (p + k2)[|p|..] == k2;
  }

  /** Hosts that differ only in "." against ":" give the same ids. */
  lemma UniqueIdMergesSeparators()
    ensures UniqueId("fe80:1", "BK") == UniqueId("fe80.1", "BK")
  {
    assert HostClean("fe80:1") == HostClean("fe80.1");
  }

  datatype DeviceInfo = DeviceInfo(
    identifiers: set<(string, string)>,
    name: string,
    manufacturer: string,
    model: string,
    connections: Option<set<(string, string)>>)

  /** `device_info`: a ("mac", lower-cased MAC) connection exactly when the reader holds a non-empty MAC. */
  function DeviceInfoOf(host: string, api: Api.WorkForceApi): (r: DeviceInfo)
    reads api
    ensures r.identifiers == {(Domain, host)} && r.model == api.ModelName()
    ensures r.connections.Some? <==> api.macAddress.Some? && api.macAddress.value != ""
    ensures r.connections.Some? ==> r.connections.value == {("mac", Lower(api.macAddress.value))}
  {
    var info := DeviceInfo({(Domain, host)}, "Epson WorkForce Printer (" + host + ")", "Epson", api.ModelName(), None);
    if api.macAddress.Some? && api.macAddress.value != "" then
      info.(connections := Some({("mac", Lower(api.macAddress.value))}))
    else info
  }

  /** `available`: the coordinator's last update succeeded and the reader's last fetch did. */
  function EntityAvailable(lastUpdateSuccess: bool, api: Api.WorkForceApi): (r: bool)
    reads api
    ensures r ==> api.available
    ensures !lastUpdateSuccess ==> !r
    ensures lastUpdateSuccess && api.available ==> r
  {
    lastUpdateSuccess && api.available
  }
}
