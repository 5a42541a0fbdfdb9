/**
 `io.weight`: a default and per-device overrides. The overrides go through two maps, first by
 the text of the key and then by the device it names, so among several spellings of one
 device the greatest text wins, wherever its line stands.
 */
module IoWeight {
  import opened Wrappers
  import opened Errors
  import opened Text
  import opened Decimal
  import opened LastWins
  import opened Traversal
  import opened DeviceMaps
  import opened OrderedMap
  import Keyed

  const MAX_WEIGHT: nat := 10_000

  function ParseWeight(value: string): Option<nat> {
    match ParseUnsigned(value, U16_MAX)
    case None => None
    case Some(weight) => if 1 <= weight <= MAX_WEIGHT then Some(weight) else None
  }

  lemma ParseWeightExact(value: string, weight: nat)
    ensures ParseWeight(value) == Some(weight) <==> DenotesUnsigned(value, weight) && 1 <= weight <= 10_000
  {
    ParseUnsignedExact(value, U16_MAX, weight);
  }

  // ---------- re-keying ----------

  const DEFAULT := "default"

  function WithoutDefault(sorted: seq<Entry>): seq<Entry> {
    if sorted == [] then []
    else (if sorted[0].key == DEFAULT then [] else [sorted[0]]) + WithoutDefault(sorted[1..])
  }

  function ReadOverride(entry: Entry): Result<Pair<Device, nat>, ParseError> {
    var device :- ParseDevice(entry.key);
    match ParseWeight(entry.value)
    case None => Err(Invalid("weight", entry.value))
    case Some(weight) => Ok(Pair(device, weight))
  }

  function Overrides(entries: seq<Entry>): Result<map<Device, nat>, ParseError> {
    var pairs :- ReadAll(WithoutDefault(Ordered(entries)), ReadOverride);
    Ok(Collect(pairs))
  }

  datatype IoWeight = IoWeight(defaultWeight: nat, devices: map<Device, nat>)

  function ValueLabel(key: string): string {
    "weight"
  }

  function Parse(raw: string): Result<IoWeight, ParseError> {
    var entries :- Keyed.FileEntries(raw, ValueLabel);
    var defaultWeight :- Keyed.Required(Collect(entries), DEFAULT, ParseWeight);
    var devices :- Overrides(entries);
    Ok(IoWeight(defaultWeight, devices))
  }

  // ---------- which line wins ----------

  /** A key that is an override of this device. */
  ghost predicate Names(key: string, device: Device) {
    key != DEFAULT && Spells(key, device) && device.IsValid()
  }

  /** A key that a file may have: `default`, or an override of some device. */
  ghost predicate IsKey(key: string) {
    key == DEFAULT || exists device :: Names(key, device)
  }

  lemma IsKeyExact(key: string)
    requires key != DEFAULT
    ensures IsKey(key) <==> ParseDevice(key).Ok?
  {
    if ParseDevice(key).Ok? {
      ParseDeviceExact(key, ParseDevice(key).value);
      assert Names(key, ParseDevice(key).value);
    }
    if device :| Names(key, device) {
      ParseDeviceExact(key, device);
    }
  }

  ghost predicate IsGreatestSpelling(entries: seq<Entry>, key: string, device: Device) {
    && Names(key, device)
    && LastValue(entries, key).Some?
    && forall entry <- entries :: Names(entry.key, device) ==> entry.key == key || Before(entry.key, key)
  }

  lemma {:induction false} WithoutDefaultExact(sorted: seq<Entry>, entry: Entry)
    requires Ascends(sorted)
    ensures entry in WithoutDefault(sorted) <==> entry in sorted && entry.key != DEFAULT
    ensures Ascends(WithoutDefault(sorted))
  {
    if sorted != [] {
      assert forall x :: x in sorted <==> x == sorted[0] || x in sorted[1..];
      var rest := WithoutDefault(sorted[1..]);
      WithoutDefaultExact(sorted[1..], entry);
      forall i | 0 <= i < |rest| ensures Before(sorted[0].key, rest[i].key) {
        WithoutDefaultExact(sorted[1..], rest[i]);
      }
    }
  }

  /** The weight on the last line that has exactly this key. */
  function LastWeight(entries: seq<Entry>, key: string): Option<nat> {
    match LastValue(entries, key)
    case None => None
    case Some(value) => ParseWeight(value)
  }

  function Listed(entries: seq<Entry>): seq<Entry> {
    WithoutDefault(Ordered(entries))
  }

  lemma ListedExact(entries: seq<Entry>, entry: Entry)
    ensures Ascends(Listed(entries))
    ensures entry in Listed(entries) <==> LastValue(entries, entry.key) == Some(entry.value) && entry.key != DEFAULT
  {
    OrderedIsLastValue(entries, entry);
    WithoutDefaultExact(Ordered(entries), entry);
  }

  /** Accepted exactly when every key but `default` is a device and its last value a weight. */
  lemma OverridesAccept(entries: seq<Entry>)
    ensures Overrides(entries).Ok? <==>
            forall entry <- entries :: entry.key != DEFAULT ==> IsKey(entry.key) && LastWeight(entries, entry.key).Some?
  {
    ReadAllSucceeds(Listed(entries), ReadOverride);
    forall entry <- entries | entry.key != DEFAULT ensures IsKey(entry.key) <==> ParseDevice(entry.key).Ok? {
      IsKeyExact(entry.key);
    }
    forall entry | entry in entries && entry.key != DEFAULT
      ensures LastValue(entries, entry.key).Some?
      ensures Pair(entry.key, LastValue(entries, entry.key).value) in Listed(entries)
    {
      LastValueIsListed(entries, entry.key);
      ListedExact(entries, Pair(entry.key, LastValue(entries, entry.key).value));
    }
    forall entry <- Listed(entries)
      ensures entry in entries && entry.key != DEFAULT && LastValue(entries, entry.key) == Some(entry.value)
    {
      ListedExact(entries, entry);
      LastValueIsListed(entries, entry.key);
    }
  }

  lemma OverrideAt(entries: seq<Entry>, pairs: seq<Pair<Device, nat>>, i: nat, device: Device)
    requires ReadAll(Listed(entries), ReadOverride) == Ok(pairs)
    requires i < |pairs|
    ensures |pairs| == |Listed(entries)|
    ensures pairs[i].key == device <==> Names(Listed(entries)[i].key, device)
    ensures LastValue(entries, Listed(entries)[i].key) == Some(Listed(entries)[i].value)
    ensures ParseWeight(Listed(entries)[i].value) == Some(pairs[i].value)
    ensures Listed(entries)[i] in entries
  {
    var sorted := Listed(entries);
    ReadAllExact(sorted, ReadOverride, pairs);
    ListedExact(entries, sorted[i]);
    LastValueIsListed(entries, sorted[i].key);
    ParseDeviceExact(sorted[i].key, device);
  }

  lemma GreatestSpellingDecides(entries: seq<Entry>, device: Device, key: string)
    requires Overrides(entries).Ok?
    requires IsGreatestSpelling(entries, key, device)
    ensures device in Overrides(entries).value
    ensures LastWeight(entries, key) == Some(Overrides(entries).value[device])
  {
    var sorted := Listed(entries);
    var pairs := ReadAll(sorted, ReadOverride).value;
    var entry := Pair(key, LastValue(entries, key).value);
    ListedExact(entries, entry);
    ReadAllExact(sorted, ReadOverride, pairs);
    var i :| 0 <= i < |sorted| && sorted[i] == entry;
    OverrideAt(entries, pairs, i, device);
    forall j | i < j < |pairs| ensures pairs[j].key != device {
      OverrideAt(entries, pairs, j, device);
      BeforeIsTotal(key, sorted[j].key);
    }
    LastValueAt(pairs, device, i);
    CollectIsLastValue(pairs, device);
  }

  lemma GreatestSpellingExists(entries: seq<Entry>, device: Device) returns (key: string)
    requires Overrides(entries).Ok? && device in Overrides(entries).value
    ensures IsGreatestSpelling(entries, key, device)
  {
    var sorted := Listed(entries);
    var pairs := ReadAll(sorted, ReadOverride).value;
    ReadAllExact(sorted, ReadOverride, pairs);
    CollectIsLastValue(pairs, device);
    var i := LastIndex(pairs, device);
    key := sorted[i].key;
    OverrideAt(entries, pairs, i, device);
    ListedExact(entries, sorted[i]);
    forall entry <- entries | Names(entry.key, device)
      ensures entry.key == key || Before(entry.key, key)
    {
      var j := KeyIsListed(entries, pairs, entry, device);
    }
  }

  lemma KeyIsListed(entries: seq<Entry>, pairs: seq<Pair<Device, nat>>, entry: Entry, device: Device) returns (j: nat)
    requires ReadAll(Listed(entries), ReadOverride) == Ok(pairs)
    requires entry in entries && Names(entry.key, device)
    ensures |pairs| == |Listed(entries)| && j < |pairs|
    ensures Listed(entries)[j].key == entry.key && pairs[j].key == device
  {
    var sorted := Listed(entries);
    ReadAllExact(sorted, ReadOverride, pairs);
    LastValueIsListed(entries, entry.key);
    var last := Pair(entry.key, LastValue(entries, entry.key).value);
    ListedExact(entries, last);
    j :| 0 <= j < |sorted| && sorted[j] == last;
    OverrideAt(entries, pairs, j, device);
  }

  /**
   A device has an override exactly when some key names it, and its weight is then the last
   value of the greatest of those keys.
   */
  lemma GreatestSpellingWins(entries: seq<Entry>, device: Device, weight: nat)
    requires Overrides(entries).Ok?
    ensures device in Overrides(entries).value && Overrides(entries).value[device] == weight <==>
            exists key :: IsGreatestSpelling(entries, key, device)
              && LastWeight(entries, key) == Some(weight)
  {
    if device in Overrides(entries).value {
      var key := GreatestSpellingExists(entries, device);
      GreatestSpellingDecides(entries, device, key);
    }
    forall key | IsGreatestSpelling(entries, key, device)
      ensures device in Overrides(entries).value
      ensures LastWeight(entries, key) == Some(Overrides(entries).value[device])
    {
      GreatestSpellingDecides(entries, device, key);
    }
  }

  // ---------- whole files ----------

  /** What the overrides must say about one device. */
  ghost predicate IsWeightOf(devices: map<Device, nat>, entries: seq<Entry>, device: Device) {
    if device in devices then
      exists key :: IsGreatestSpelling(entries, key, device) && LastWeight(entries, key) == Some(devices[device])
    else
      forall entry <- entries :: !Names(entry.key, device)
  }

  lemma OverridesReport(entries: seq<Entry>, device: Device)
    requires Overrides(entries).Ok?
    ensures IsWeightOf(Overrides(entries).value, entries, device)
  {
    forall entry <- entries | Names(entry.key, device) ensures device in Overrides(entries).value {
      NamedIsOverridden(entries, entry, device);
    }
    if device in Overrides(entries).value {
      GreatestSpellingWins(entries, device, Overrides(entries).value[device]);
    }
  }

  lemma NamedIsOverridden(entries: seq<Entry>, entry: Entry, device: Device)
    requires Overrides(entries).Ok? && entry in entries && Names(entry.key, device)
    ensures device in Overrides(entries).value
  {
    var pairs := ReadAll(Listed(entries), ReadOverride).value;
    var j := KeyIsListed(entries, pairs, entry, device);
    LastValueIsListed(pairs, device);
    CollectIsLastValue(pairs, device);
    assert pairs[j] in pairs;
  }

  lemma ReportIsUnique(devices: map<Device, nat>, entries: seq<Entry>)
    requires Overrides(entries).Ok?
    requires forall device :: IsWeightOf(devices, entries, device)
    ensures devices == Overrides(entries).value
  {
    forall device
      ensures device in devices <==> device in Overrides(entries).value
      ensures device in devices ==> devices[device] == Overrides(entries).value[device]
    {
      assert IsWeightOf(devices, entries, device);
      if device in devices {
        GreatestSpellingWins(entries, device, devices[device]);
      } else if device in Overrides(entries).value {
        var key := GreatestSpellingExists(entries, device);
        LastValueIsListed(entries, key);
      }
    }
  }

  ghost predicate Reports(entries: seq<Entry>, weights: IoWeight) {
    && LastWeight(entries, "default") == Some(weights.defaultWeight)
    && (forall entry <- entries :: entry.key != DEFAULT ==> IsKey(entry.key) && LastWeight(entries, entry.key).Some?)
    && forall device :: IsWeightOf(weights.devices, entries, device)
  }

  lemma EntriesReport(entries: seq<Entry>, weights: IoWeight)
    ensures Reports(entries, weights) <==>
            && Keyed.Required(Collect(entries), DEFAULT, ParseWeight) == Ok(weights.defaultWeight)
            && Overrides(entries) == Ok(weights.devices)
  {
    CollectIsLastValue(entries, DEFAULT);
    OverridesAccept(entries);
    if Overrides(entries).Ok? {
      forall device ensures IsWeightOf(Overrides(entries).value, entries, device) {
        OverridesReport(entries, device);
      }
      if forall device :: IsWeightOf(weights.devices, entries, device) {
        ReportIsUnique(weights.devices, entries);
      }
    }
  }

  /**
   A file is accepted exactly when every visible line has two tokens, the last `default` is a
   weight, every other key is a device and its last value a weight. Each device that a key
   names then has the last weight of the greatest such key, and no other device has any.
   */
  lemma ParseExact(raw: string, weights: IoWeight)
    ensures Parse(raw) == Ok(weights) <==>
            Keyed.FileEntries(raw, ValueLabel).Ok? && Reports(Keyed.FileEntries(raw, ValueLabel).value, weights)
  {
    var entries := Keyed.FileEntries(raw, ValueLabel);
    if entries.Ok? {
      EntriesReport(entries.value, weights);
    }
  }

  // ---------- errors ----------

  /** A key that names no device, or else a last value that is no weight. */
  ghost predicate IsOverrideError(key: string, value: string, error: ParseError) {
    if !IsKey(key) then error == Invalid("device", key)
    else ParseWeight(value).None? && error == Invalid("weight", value)
  }

  /** The overrides fail for the least bad key but `default`, wherever its line stands. */
  lemma OverrideErrors(entries: seq<Entry>, error: ParseError)
    ensures Overrides(entries) == Err(error) <==>
            exists entry <- Listed(entries) :: IsOverrideError(entry.key, entry.value, error)
              && forall other <- Listed(entries) :: Before(other.key, entry.key) ==>
                   IsKey(other.key) && ParseWeight(other.value).Some?
  {
    var sorted := Listed(entries);
    if sorted != [] {
      ListedExact(entries, sorted[0]);
    }
    LeastErrorWins(sorted, ReadOverride, error);
    forall entry <- sorted
      ensures ReadOverride(entry) == Err(error) <==> IsOverrideError(entry.key, entry.value, error)
      ensures ReadOverride(entry).Ok? <==> IsKey(entry.key) && ParseWeight(entry.value).Some?
    {
      ListedExact(entries, entry);
      IsKeyExact(entry.key);
    }
  }

  /** In this order: a line without two tokens, the default, the overrides. */
  lemma ParseErrors(raw: string, error: ParseError)
    ensures Parse(raw) == Err(error) <==>
            match Keyed.FileEntries(raw, ValueLabel)
            case Err(bad) => error == bad
            case Ok(entries) =>
              match LastValue(entries, "default")
              case None => error == Missing("default")
              case Some(value) =>
                if ParseWeight(value).None? then error == Invalid("default", value) else Overrides(entries) == Err(error)
  {
    var file := Keyed.FileEntries(raw, ValueLabel);
    if file.Ok? {
      CollectIsLastValue(file.value, "default");
    }
  }

  /** A line with a key alone lacks its weight. */
  lemma OneTokenLine(line: string)
    requires |Tokens(line)| == 1
    ensures Keyed.KeyValue(line, ValueLabel) == Err(Missing("weight"))
  {
  }

  // ---------- when the last line wins ----------

  function Zip(keys: seq<string>, values: seq<string>): (entries: seq<Entry>)
    requires |keys| == |values|
    ensures |entries| == |keys| && forall i :: 0 <= i < |keys| ==> entries[i] == Pair(keys[i], values[i])
  {
    seq(|keys|, i requires 0 <= i < |keys| => Pair(keys[i], values[i]))
  }

  predicate AllWeights(values: seq<string>) {
    forall value <- values :: ParseWeight(value).Some?
  }

  ghost predicate AreKeys(keys: seq<string>) {
    forall key <- keys :: IsKey(key)
  }

  /** The last line that names the device. */
  ghost predicate IsLastLine(keys: seq<string>, device: Device, last: nat) {
    && last < |keys|
    && Names(keys[last], device)
    && forall j :: last < j < |keys| ==> !Names(keys[j], device)
  }

  ghost predicate LastLineDecides(keys: seq<string>, values: seq<string>, device: Device, last: nat)
    requires |keys| == |values| && last < |keys|
  {
    var devices := Overrides(Zip(keys, values));
    devices.Ok? && device in devices.value && ParseWeight(values[last]) == Some(devices.value[device])
  }

  ghost predicate IsGreatestKey(keys: seq<string>, device: Device, last: nat)
    requires last < |keys|
  {
    forall key <- keys :: Names(key, device) ==> key == keys[last] || Before(key, keys[last])
  }

  lemma ZippedAccept(keys: seq<string>, values: seq<string>)
    requires |keys| == |values| && AreKeys(keys) && AllWeights(values)
    ensures Overrides(Zip(keys, values)).Ok?
  {
    var entries := Zip(keys, values);
    OverridesAccept(entries);
    forall entry <- entries | entry.key != DEFAULT
      ensures IsKey(entry.key) && LastWeight(entries, entry.key).Some?
    {
      assert entry.key in keys;
      LastValueIsListed(entries, entry.key);
      assert LastValue(entries, entry.key).value in values;
    }
  }

  lemma GreatestLastLineDecides(keys: seq<string>, values: seq<string>, device: Device, last: nat)
    requires |keys| == |values| && AreKeys(keys) && AllWeights(values)
    requires IsLastLine(keys, device, last) && IsGreatestKey(keys, device, last)
    ensures LastLineDecides(keys, values, device, last)
  {
    var entries := Zip(keys, values);
    ZippedAccept(keys, values);
    LastValueAt(entries, keys[last], last);
    assert forall entry <- entries :: entry.key in keys;
    GreatestSpellingDecides(entries, device, keys[last]);
  }

  /** With another key greater than that of the last line, some weights are read differently. */
  lemma LesserLastLineLoses(keys: seq<string>, device: Device, last: nat) returns (values: seq<string>)
    requires AreKeys(keys)
    requires IsLastLine(keys, device, last) && !IsGreatestKey(keys, device, last)
    ensures |values| == |keys| && AllWeights(values) && forall value <- values :: IsNumeral(value)
    ensures !LastLineDecides(keys, values, device, last)
  {
    var low, high := Print(1), Print(2);
    ParsePrint(1, U16_MAX);
    ParsePrint(2, U16_MAX);
    values := seq(|keys|, i => if i == last then high else low);
    OnlyLastDiffers(keys, values, device, last, low);
  }

  lemma OnlyLastDiffers(keys: seq<string>, values: seq<string>, device: Device, last: nat, low: string)
    requires AreKeys(keys)
    requires IsLastLine(keys, device, last) && !IsGreatestKey(keys, device, last)
    requires |values| == |keys| && AllWeights(values) && ParseWeight(values[last]) != ParseWeight(low)
    requires forall i :: 0 <= i < |values| && i != last ==> values[i] == low
    ensures !LastLineDecides(keys, values, device, last)
  {
    var entries := Zip(keys, values);
    ZippedAccept(keys, values);
    if device in Overrides(entries).value {
      var key := GreatestSpellingExists(entries, device);
      GreatestSpellingDecides(entries, device, key);
      assert key != keys[last] by {
        assert forall i :: 0 <= i < |keys| ==> entries[i].key == keys[i];
      }
      LastValueIsListed(entries, key);
      assert LastValue(entries, key).value == low;
    }
  }

  /**
   Whatever the weights are, a device has the weight of the last line that names it, if and
   only if no other line spells the device with a greater text.
   */
  lemma LastLineWinsExactly(keys: seq<string>, device: Device, last: nat)
    requires AreKeys(keys)
    requires IsLastLine(keys, device, last)
    ensures (forall values: seq<string> | |values| == |keys| && AllWeights(values) ::
               LastLineDecides(keys, values, device, last)) <==>
            IsGreatestKey(keys, device, last)
  {
    if IsGreatestKey(keys, device, last) {
      forall values: seq<string> | |values| == |keys| && AllWeights(values)
        ensures LastLineDecides(keys, values, device, last)
      {
        GreatestLastLineDecides(keys, values, device, last);
      }
    } else {
      var values := LesserLastLineLoses(keys, device, last);
    }
  }

  /** When each device has one spelling, as the kernel prints it, the last line wins. */
  lemma OneSpellingIsEnough(keys: seq<string>, values: seq<string>, device: Device, last: nat)
    requires |keys| == |values| && AreKeys(keys) && AllWeights(values)
    requires IsLastLine(keys, device, last)
    requires forall one <- keys, other <- keys :: Names(one, device) && Names(other, device) ==> one == other
    ensures LastLineDecides(keys, values, device, last)
  {
    LastLineWinsExactly(keys, device, last);
  }

  // ---------- the same for files ----------

  /** A file with these keys and weights, one pair a line. */
  ghost predicate IsFileOf(raw: string, keys: seq<string>, values: seq<string>) {
    && |keys| == |values|
    && AllWeights(values)
    && Keyed.FileEntries(raw, ValueLabel) == Ok(Zip(keys, values))
  }

  ghost predicate LastLineDecidesIn(raw: string, values: seq<string>, device: Device, last: nat)
    requires last < |values|
  {
    var weights := Parse(raw);
    weights.Ok? && device in weights.value.devices && ParseWeight(values[last]) == Some(weights.value.devices[device])
  }

  lemma FileIsParsed(raw: string, keys: seq<string>, values: seq<string>)
    requires IsFileOf(raw, keys, values) && AreKeys(keys) && DEFAULT in keys
    ensures Overrides(Zip(keys, values)).Ok? && Parse(raw).Ok?
    ensures Parse(raw).value.devices == Overrides(Zip(keys, values)).value
  {
    var entries := Zip(keys, values);
    ZippedAccept(keys, values);
    CollectIsLastValue(entries, DEFAULT);
    LastValueIsListed(entries, DEFAULT);
    var i :| 0 <= i < |keys| && keys[i] == DEFAULT;
    assert entries[i] in entries;
    assert LastValue(entries, DEFAULT).value in values;
  }

  lemma DeviceTextIsPlain(text: string, device: Device)
    requires Names(text, device)
    ensures Keyed.IsPlainWord(text)
  {
    var major, minor :| text == major + ":" + minor
      && DenotesUnsigned(major, device.major) && DenotesUnsigned(minor, device.minor);
    UnsignedIsPlain(major);
    UnsignedIsPlain(minor);
    JoinedWord(major, ':', minor);
    assert text[|major|] == ':';
  }

  ghost predicate IsPrintable(entry: Entry) {
    IsKey(entry.key) && IsNumeral(entry.value)
  }

  lemma PrintedFile(entries: seq<Entry>)
    requires forall entry <- entries :: IsPrintable(entry)
    ensures Keyed.FileEntries(Keyed.PrintEntries(entries), ValueLabel) == Ok(entries)
  {
    forall entry <- entries ensures Keyed.IsPlainWord(entry.key) && IsWord(entry.value) {
      NumeralIsPlain(entry.value);
      if entry.key != DEFAULT {
        var device :| Names(entry.key, device);
        DeviceTextIsPlain(entry.key, device);
      } else {
        assert !IsWhitespace(DEFAULT[0]);
      }
    }
    Keyed.PrintedEntriesParse(entries, ValueLabel);
  }

  /**
   Every file with a `default` line and these keys is accepted and gives a device the weight
   of its last line, if and only if no other line spells the device with a greater text.
   */
  lemma LastLineWinsInFiles(keys: seq<string>, device: Device, last: nat)
    requires AreKeys(keys) && DEFAULT in keys
    requires IsLastLine(keys, device, last)
    ensures (forall raw: string, values: seq<string> | IsFileOf(raw, keys, values) ::
               LastLineDecidesIn(raw, values, device, last)) <==>
            IsGreatestKey(keys, device, last)
  {
    if IsGreatestKey(keys, device, last) {
      forall raw: string, values: seq<string> | IsFileOf(raw, keys, values)
        ensures LastLineDecidesIn(raw, values, device, last)
      {
        FileIsParsed(raw, keys, values);
        GreatestLastLineDecides(keys, values, device, last);
      }
    } else {
      var values := LesserLastLineLoses(keys, device, last);
      var entries := Zip(keys, values);
      var raw := Keyed.PrintEntries(entries);
      forall entry <- entries ensures IsPrintable(entry) {
        assert entry.key in keys && entry.value in values;
      }
      PrintedFile(entries);
      FileIsParsed(raw, keys, values);
      assert !LastLineDecidesIn(raw, values, device, last);
    }
  }

  /** A `default` line and two spellings of one device, the greater one first. */
  ghost predicate IsRespelled(entries: seq<Entry>, device: Device) {
    && |entries| == 3
    && entries[0].key == DEFAULT
    && Names(entries[1].key, device) && Names(entries[2].key, device)
    && Before(entries[2].key, entries[1].key)
    && forall entry <- entries :: ParseWeight(entry.value).Some? && IsNumeral(entry.value)
  }

  /** The two weights that are read from such a file. */
  function Respelled(entries: seq<Entry>, device: Device): IoWeight
    requires |entries| == 3 && forall entry <- entries :: ParseWeight(entry.value).Some?
  {
    IoWeight(ParseWeight(entries[0].value).value, map[device := ParseWeight(entries[1].value).value])
  }

  /** With two spellings of one device, the line of the lesser one loses, though it is the last. */
  lemma LesserSpellingLoses(device: Device, entries: seq<Entry>)
    requires IsRespelled(entries, device)
    ensures Parse(Keyed.PrintEntries(entries)) == Ok(Respelled(entries, device))
  {
    RespelledKeys(device, entries);
    PrintedFile(entries);
    LesserSpellingReported(device, entries);
    ParseExact(Keyed.PrintEntries(entries), Respelled(entries, device));
  }

  lemma NamesOne(key: string, device: Device, other: Device)
    requires Names(key, device)
    ensures Names(key, other) <==> other == device
  {
    ParseDeviceExact(key, device);
    ParseDeviceExact(key, other);
  }

  lemma RespelledKeys(device: Device, entries: seq<Entry>)
    requires IsRespelled(entries, device)
    ensures forall entry <- entries :: IsPrintable(entry)
  {
    NamesOne(entries[1].key, device, device);
    NamesOne(entries[2].key, device, device);
    forall entry <- entries ensures IsPrintable(entry) {
      assert entry == entries[0] || entry == entries[1] || entry == entries[2];
    }
  }

  lemma RespelledValues(device: Device, entries: seq<Entry>)
    requires IsRespelled(entries, device)
    ensures forall entry <- entries :: LastValue(entries, entry.key) == Some(entry.value)
  {
    BeforeIsTotal(entries[2].key, entries[1].key);
    LastValueAt(entries, entries[0].key, 0);
    LastValueAt(entries, entries[1].key, 1);
    LastValueAt(entries, entries[2].key, 2);
  }

  lemma LesserSpellingReported(device: Device, entries: seq<Entry>)
    requires IsRespelled(entries, device)
    ensures Reports(entries, Respelled(entries, device))
  {
    RespelledKeys(device, entries);
    RespelledValues(device, entries);
    forall entry <- entries ensures LastWeight(entries, entry.key) == ParseWeight(entry.value) {
    }
    forall other ensures IsWeightOf(Respelled(entries, device).devices, entries, other) {
      RespelledWeight(device, entries, other);
    }
  }

  lemma RespelledGreatest(device: Device, entries: seq<Entry>)
    requires IsRespelled(entries, device)
    ensures IsGreatestSpelling(entries, entries[1].key, device)
    ensures LastWeight(entries, entries[1].key) == ParseWeight(entries[1].value)
  {
    RespelledValues(device, entries);
    assert entries[1] in entries;
  }

  lemma OthersAreNotNamed(device: Device, entries: seq<Entry>, other: Device)
    requires IsRespelled(entries, device) && other != device
    ensures forall entry <- entries :: !Names(entry.key, other)
  {
    NamesOne(entries[1].key, device, other);
    NamesOne(entries[2].key, device, other);
    forall entry <- entries ensures !Names(entry.key, other) {
      assert entry == entries[0] || entry == entries[1] || entry == entries[2];
    }
  }

  lemma RespelledWeight(device: Device, entries: seq<Entry>, other: Device)
    requires IsRespelled(entries, device)
    ensures IsWeightOf(Respelled(entries, device).devices, entries, other)
  {
    if other == device {
      RespelledGreatest(device, entries);
    } else {
      OthersAreNotNamed(device, entries, other);
    }
  }

  /** Every device has such spellings: the kernel's own, and the same after a zero. */
  lemma EveryDeviceHasTwoSpellings(device: Device)
    requires device.IsValid()
    ensures var name := device.Print();
            Names(name, device) && Names("0" + name, device) && Before("0" + name, name)
  {
    var major, minor := Print(device.major), Print(device.minor);
    ParsePrint(device.major, U32_MAX);
    ParsePrint(device.minor, U32_MAX);
    PrintValue(device.major);
    LeadingDigit(device.major);
    ZeroSpellsToo(device, major, minor);
    ZeroSortsFirst(major, minor);
  }

  lemma ZeroSpellsToo(device: Device, major: string, minor: string)
    requires device.IsValid() && DenotesUnsigned(major, device.major) && DenotesUnsigned(minor, device.minor)
    requires IsNumeral(major) && Value(major) == device.major
    ensures Names(major + ":" + minor, device) && Names("0" + (major + ":" + minor), device)
  {
    ZeroInFront(major, device.major);
    assert "0" + (major + ":" + minor) == ("0" + major) + ":" + minor;
    assert (major + ":" + minor)[|major|] == ':';
    assert IsDigit((major + ":" + minor)[0]) && !IsDigit(DEFAULT[0]);
  }

  lemma ZeroSortsFirst(major: string, minor: string)
    requires major == "0" || (major != [] && major[0] > '0')
    ensures Before("0" + (major + ":" + minor), major + ":" + minor)
  {
    var name := major + ":" + minor;
    assert ("0" + name)[1..] == name && name[0] == major[0];
    if major == "0" {
      assert name[1..] == ":" + minor;
      assert Before(name, name[1..]);
    }
  }

  lemma ZeroInFront(digits: string, n: nat)
    requires IsNumeral(digits) && Value(digits) == n
    ensures DenotesUnsigned("0" + digits, n)
  {
    assert ("0" + digits)[1..] == digits;
    assert Extend(0, "0" + digits) == Extend(0, digits);
  }

  lemma {:induction false} LeadingDigit(n: nat)
    ensures if n == 0 then Print(n) == "0" else Print(n)[0] > '0'
  {
    if n >= 10 {
      LeadingDigit(n / 10);
    }
  }

  /**
   So for every device and any three weights there is a file in which the last line for the
   device is not the one that is read.
   */
  lemma LastLineCanLose(device: Device, values: seq<string>)
    requires device.IsValid()
    requires |values| == 3 && forall value <- values :: ParseWeight(value).Some? && IsNumeral(value)
    ensures var entries := Zip([DEFAULT, device.Print(), "0" + device.Print()], values);
            Parse(Keyed.PrintEntries(entries)) ==
            Ok(IoWeight(ParseWeight(values[0]).value, map[device := ParseWeight(values[1]).value]))
  {
    var entries := Zip([DEFAULT, device.Print(), "0" + device.Print()], values);
    EveryDeviceHasTwoSpellings(device);
    assert IsRespelled(entries, device);
    LesserSpellingLoses(device, entries);
  }
}
