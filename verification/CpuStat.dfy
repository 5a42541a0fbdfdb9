/** `cpu.stat`: three base times, and bandwidth and burst counters when the kernel reports them. */
module CpuStat {
  import opened Wrappers
  import opened Errors
  import opened Text
  import opened Encodings
  import opened LastWins
  import opened Keyed

  datatype TimeStat = TimeStat(usage: nat, user: nat, system: nat, nice: Option<nat>, forceIdle: Option<nat>)
  datatype BurstStat = BurstStat(nrBursts: nat, burst: nat)
  datatype BandwidthStat = BandwidthStat(nrPeriods: nat, nrThrottled: nat, throttled: nat, burst: Option<BurstStat>)
  datatype CpuStat = CpuStat(time: TimeStat, bandwidth: Option<BandwidthStat>)

  const BURST_FIELDS: set<string> := {"nr_bursts", "burst_usec"}
  const BANDWIDTH_FIELDS: set<string> := {"nr_periods", "nr_throttled", "throttled_usec"} + BURST_FIELDS
  const TIME_FIELDS: set<string> := {"usage_usec", "user_usec", "system_usec", "nice_usec", "core_sched.force_idle_usec"}
  const KNOWN_FIELDS: set<string> := TIME_FIELDS + BANDWIDTH_FIELDS

  /** The label of a missing value: the field itself when it is known. */
  function ValueField(key: string): string {
    if key in KNOWN_FIELDS then key else "value"
  }

  predicate ContainsAny(fields: map<string, string>, keys: set<string>) {
    exists key <- keys :: key in fields
  }

  function TimeFromFields(fields: map<string, string>): Result<TimeStat, ParseError> {
    var usage :- Required(fields, "usage_usec", ParseMicroseconds);
    var user :- Required(fields, "user_usec", ParseMicroseconds);
    var system :- Required(fields, "system_usec", ParseMicroseconds);
    var nice :- Optional(fields, "nice_usec", ParseMicroseconds);
    var forceIdle :- Optional(fields, "core_sched.force_idle_usec", ParseMicroseconds);
    Ok(TimeStat(usage, user, system, nice, forceIdle))
  }

  function BurstFromFields(fields: map<string, string>): Result<BurstStat, ParseError> {
    var nrBursts :- Required(fields, "nr_bursts", ParseBandwidthCount);
    var burst :- Required(fields, "burst_usec", ParseMicroseconds);
    Ok(BurstStat(nrBursts, burst))
  }

  function OptionalBurst(fields: map<string, string>): Result<Option<BurstStat>, ParseError> {
    if ContainsAny(fields, BURST_FIELDS) then
      var burst :- BurstFromFields(fields);
      Ok(Some(burst))
    else Ok(None)
  }

  function BandwidthFromFields(fields: map<string, string>): Result<BandwidthStat, ParseError> {
    var burst :- OptionalBurst(fields);
    var nrPeriods :- Required(fields, "nr_periods", ParseBandwidthCount);
    var nrThrottled :- Required(fields, "nr_throttled", ParseBandwidthCount);
    var throttled :- Required(fields, "throttled_usec", ParseMicroseconds);
    Ok(BandwidthStat(nrPeriods, nrThrottled, throttled, burst))
  }

  function FromFields(fields: map<string, string>): Result<CpuStat, ParseError> {
    var time :- TimeFromFields(fields);
    if ContainsAny(fields, BANDWIDTH_FIELDS) then
      var bandwidth :- BandwidthFromFields(fields);
      Ok(CpuStat(time, Some(bandwidth)))
    else Ok(CpuStat(time, None))
  }

  function Parse(raw: string): Result<CpuStat, ParseError> {
    var fields :- Fields(raw, ValueField);
    FromFields(fields)
  }

  // ---------- what an accepted file says ----------

  predicate Reports(entries: seq<Entry>, key: string) {
    LastValue(entries, key).Some?
  }

  /** The last line for the key holds a duration of this many nanoseconds. */
  predicate ReportsTime(entries: seq<Entry>, key: string, time: nat) {
    Reports(entries, key) && ParseMicroseconds(LastValue(entries, key).value) == Some(time)
  }

  predicate ReportsCount(entries: seq<Entry>, key: string, count: nat) {
    Reports(entries, key) && ParseBandwidthCount(LastValue(entries, key).value) == Some(count)
  }

  predicate MayReportTime(entries: seq<Entry>, key: string, time: Option<nat>) {
    match time
    case Some(t) => ReportsTime(entries, key, t)
    case None => !Reports(entries, key)
  }

  predicate ReportsBurst(entries: seq<Entry>, burst: Option<BurstStat>) {
    match burst
    case Some(b) => ReportsCount(entries, "nr_bursts", b.nrBursts) && ReportsTime(entries, "burst_usec", b.burst)
    case None => !Reports(entries, "nr_bursts") && !Reports(entries, "burst_usec")
  }

  predicate ReportsBandwidth(entries: seq<Entry>, bandwidth: Option<BandwidthStat>) {
    match bandwidth
    case Some(b) =>
      && ReportsCount(entries, "nr_periods", b.nrPeriods)
      && ReportsCount(entries, "nr_throttled", b.nrThrottled)
      && ReportsTime(entries, "throttled_usec", b.throttled)
      && ReportsBurst(entries, b.burst)
    case None =>
      && !Reports(entries, "nr_periods") && !Reports(entries, "nr_throttled") && !Reports(entries, "throttled_usec")
      && !Reports(entries, "nr_bursts") && !Reports(entries, "burst_usec")
  }

  predicate ReportsTimes(entries: seq<Entry>, time: TimeStat) {
    && ReportsTime(entries, "usage_usec", time.usage)
    && ReportsTime(entries, "user_usec", time.user)
    && ReportsTime(entries, "system_usec", time.system)
    && MayReportTime(entries, "nice_usec", time.nice)
    && MayReportTime(entries, "core_sched.force_idle_usec", time.forceIdle)
  }

  predicate Describes(entries: seq<Entry>, stat: CpuStat) {
    ReportsTimes(entries, stat.time) && ReportsBandwidth(entries, stat.bandwidth)
  }

  /** Lookup in the collected map is lookup of the last line, for every known key at once. */
  lemma LookupsAgree(entries: seq<Entry>)
    ensures forall key :: key in Collect(entries) <==> Reports(entries, key)
    ensures forall key :: key in Collect(entries) ==> LastValue(entries, key) == Some(Collect(entries)[key])
  {
    forall key
      ensures key in Collect(entries) <==> Reports(entries, key)
      ensures key in Collect(entries) ==> LastValue(entries, key) == Some(Collect(entries)[key])
    {
      CollectIsLastValue(entries, key);
    }
  }

  lemma TimeExact(entries: seq<Entry>, key: string, time: nat)
    ensures Required(Collect(entries), key, ParseMicroseconds) == Ok(time) <==> ReportsTime(entries, key, time)
  {
    CollectIsLastValue(entries, key);
  }

  lemma OptionalTimeExact(entries: seq<Entry>, key: string, time: Option<nat>)
    ensures Optional(Collect(entries), key, ParseMicroseconds) == Ok(time) <==> MayReportTime(entries, key, time)
  {
    CollectIsLastValue(entries, key);
  }

  lemma TimesExact(entries: seq<Entry>, time: TimeStat)
    ensures TimeFromFields(Collect(entries)) == Ok(time) <==> ReportsTimes(entries, time)
  {
    TimeExact(entries, "usage_usec", time.usage);
    TimeExact(entries, "user_usec", time.user);
    TimeExact(entries, "system_usec", time.system);
    OptionalTimeExact(entries, "nice_usec", time.nice);
    OptionalTimeExact(entries, "core_sched.force_idle_usec", time.forceIdle);
  }

  lemma BandwidthExact(entries: seq<Entry>, bandwidth: BandwidthStat)
    ensures BandwidthFromFields(Collect(entries)) == Ok(bandwidth) <==> ReportsBandwidth(entries, Some(bandwidth))
  {
    LookupsAgree(entries);
    var fields := Collect(entries);
    assert ContainsAny(fields, BURST_FIELDS) <==> Reports(entries, "nr_bursts") || Reports(entries, "burst_usec");
  }

  /**
   A file is accepted exactly when every visible line has two tokens, the last line of each
   base time is a valid duration, the optional times are absent or valid, the three bandwidth
   fields are valid as soon as one of the five counters appears, and both burst fields as
   soon as one of them does. Earlier lines for the same key are never interpreted.
   */
  lemma ParseExact(raw: string, stat: CpuStat)
    ensures Parse(raw) == Ok(stat) <==>
            FileEntries(raw, ValueField).Ok? && Describes(FileEntries(raw, ValueField).value, stat)
  {
    if FileEntries(raw, ValueField).Ok? {
      var entries := FileEntries(raw, ValueField).value;
      TimesExact(entries, stat.time);
      LookupsAgree(entries);
      assert ContainsAny(Collect(entries), BANDWIDTH_FIELDS) <==> exists key <- BANDWIDTH_FIELDS :: Reports(entries, key);
      if stat.bandwidth.Some? {
        BandwidthExact(entries, stat.bandwidth.value);
        assert "nr_periods" in BANDWIDTH_FIELDS;
      }
    }
  }

  /** Reordering the lines of an accepted file without conflicting keys leaves the snapshot as it was. */
  lemma ReorderingIsHarmless(raw: string, other: string)
    requires Parse(raw).Ok?
    requires IsConsistent(FileEntries(raw, ValueField).value)
    requires forall line :: line in VisibleLines(Lines(raw)) <==> line in VisibleLines(Lines(other))
    ensures Parse(other) == Parse(raw)
  {
    ReorderedEntries(VisibleLines(Lines(raw)), VisibleLines(Lines(other)), ValueField);
    OrderDoesNotMatter(FileEntries(raw, ValueField).value, FileEntries(other, ValueField).value);
  }

  predicate SameAt(one: map<string, string>, other: map<string, string>, key: string) {
    (key in one <==> key in other) && (key in one ==> one[key] == other[key])
  }

  lemma KnownFieldsDecide(one: map<string, string>, other: map<string, string>)
    requires forall key <- KNOWN_FIELDS :: SameAt(one, other, key)
    ensures FromFields(one) == FromFields(other)
  {
    assert forall key <- TIME_FIELDS :: key in KNOWN_FIELDS;
    assert forall key <- BANDWIDTH_FIELDS :: key in KNOWN_FIELDS;
    TimesDecide(one, other);
    BandwidthDecides(one, other);
  }

  lemma TimesDecide(one: map<string, string>, other: map<string, string>)
    requires forall key <- TIME_FIELDS :: SameAt(one, other, key)
    ensures TimeFromFields(one) == TimeFromFields(other)
  {
    assert SameAt(one, other, "usage_usec") && SameAt(one, other, "user_usec") && SameAt(one, other, "system_usec");
    assert SameAt(one, other, "nice_usec") && SameAt(one, other, "core_sched.force_idle_usec");
  }

  lemma BurstDecides(one: map<string, string>, other: map<string, string>)
    requires forall key <- BURST_FIELDS :: SameAt(one, other, key)
    ensures OptionalBurst(one) == OptionalBurst(other)
  {
    assert SameAt(one, other, "nr_bursts") && SameAt(one, other, "burst_usec");
  }

  lemma BandwidthDecides(one: map<string, string>, other: map<string, string>)
    requires forall key <- BANDWIDTH_FIELDS :: SameAt(one, other, key)
    ensures ContainsAny(one, BANDWIDTH_FIELDS) == ContainsAny(other, BANDWIDTH_FIELDS)
    ensures BandwidthFromFields(one) == BandwidthFromFields(other)
  {
    BurstDecides(one, other);
    assert SameAt(one, other, "nr_periods") && SameAt(one, other, "nr_throttled") && SameAt(one, other, "throttled_usec");
  }

  /** A two-token line with a key no reader knows, anywhere, changes neither value nor error. */
  lemma UnknownKeyIsIgnored(raw: string, other: string, before: seq<string>, line: string, after: seq<string>)
    requires VisibleLines(Lines(raw)) == before + after
    requires VisibleLines(Lines(other)) == before + [line] + after
    requires |Tokens(line)| == 2 && Tokens(line)[0] !in KNOWN_FIELDS
    ensures Parse(other) == Parse(raw)
  {
    var one, two := FileEntries(raw, ValueField), FileEntries(other, ValueField);
    InsertedLine(before, line, after, ValueField, "usage_usec");
    if one.Ok? && two.Ok? {
      forall key <- KNOWN_FIELDS ensures SameAt(Collect(one.value), Collect(two.value), key) {
        InsertedLine(before, line, after, ValueField, key);
        CollectIsLastValue(one.value, key);
        CollectIsLastValue(two.value, key);
      }
      KnownFieldsDecide(Collect(one.value), Collect(two.value));
    }
  }

  // ---------- errors ----------

  /** A line with a key alone lacks that field, or a value if the key is unknown. */
  lemma OneTokenLine(line: string, key: string)
    requires Tokens(line) == [key]
    ensures KeyValue(line, ValueField) ==
            Err(Missing(if || key == "usage_usec" || key == "user_usec" || key == "system_usec" || key == "nice_usec"
                           || key == "core_sched.force_idle_usec" || key == "nr_periods" || key == "nr_throttled"
                           || key == "throttled_usec" || key == "nr_bursts" || key == "burst_usec"
                        then key else "value"))
  {
  }

  /** The order in which fields are looked at. */
  const ORDER: seq<string> :=
    ["usage_usec", "user_usec", "system_usec", "nice_usec", "core_sched.force_idle_usec",
     "nr_bursts", "burst_usec", "nr_periods", "nr_throttled", "throttled_usec"]

  /** The base times always, each group as soon as one of its fields is there. */
  predicate IsNeeded(entries: seq<Entry>, i: nat)
    requires i < 10
  {
    || i < 3
    || (5 <= i < 7 && (Reports(entries, "nr_bursts") || Reports(entries, "burst_usec")))
    || (7 <= i && (|| Reports(entries, "nr_periods") || Reports(entries, "nr_throttled")
                   || Reports(entries, "throttled_usec")
                   || Reports(entries, "nr_bursts") || Reports(entries, "burst_usec")))
  }

  predicate IsReadable(i: nat, value: string) {
    if i == 5 || i == 7 || i == 8 then ParseBandwidthCount(value).Some? else ParseMicroseconds(value).Some?
  }

  predicate IsWrong(entries: seq<Entry>, i: nat, error: ParseError)
    requires i < 10
  {
    || (IsNeeded(entries, i) && !Reports(entries, ORDER[i]) && error == Missing(ORDER[i]))
    || (&& Reports(entries, ORDER[i]) && !IsReadable(i, LastValue(entries, ORDER[i]).value)
        && error == Invalid(ORDER[i], LastValue(entries, ORDER[i]).value))
  }

  predicate IsFine(entries: seq<Entry>, i: nat)
    requires i < 10
  {
    if Reports(entries, ORDER[i]) then IsReadable(i, LastValue(entries, ORDER[i]).value) else !IsNeeded(entries, i)
  }

  predicate FirstWrong(entries: seq<Entry>, from: nat, to: nat, error: ParseError)
    requires to <= 10
  {
    exists i :: from <= i < to && IsWrong(entries, i, error) && forall j :: from <= j < i ==> IsFine(entries, j)
  }

  predicate AllFine(entries: seq<Entry>, from: nat, to: nat)
    requires to <= 10
  {
    forall i :: from <= i < to ==> IsFine(entries, i)
  }

  lemma FirstWrongSplits(entries: seq<Entry>, from: nat, middle: nat, to: nat, error: ParseError)
    requires from <= middle <= to <= 10
    ensures FirstWrong(entries, from, to, error) <==>
            FirstWrong(entries, from, middle, error) || (AllFine(entries, from, middle) && FirstWrong(entries, middle, to, error))
  {
    assert forall i :: 0 <= i < 10 && IsWrong(entries, i, error) ==> !IsFine(entries, i);
  }

  lemma FirstWrongOne(entries: seq<Entry>, i: nat, error: ParseError)
    requires i < 10
    ensures FirstWrong(entries, i, i + 1, error) <==> IsWrong(entries, i, error)
    ensures AllFine(entries, i, i + 1) <==> IsFine(entries, i)
  {
  }

  lemma FieldErrors(entries: seq<Entry>, i: nat, error: ParseError)
    requires i < 10
    ensures var fields, field := Collect(entries), ORDER[i];
            var counts := i == 5 || i == 7 || i == 8;
            && (if counts then
                  && (IsNeeded(entries, i) ==>
                        (Required(fields, field, ParseBandwidthCount) == Err(error) <==> FirstWrong(entries, i, i + 1, error))
                        && (Required(fields, field, ParseBandwidthCount).Ok? <==> AllFine(entries, i, i + 1)))
                else
                  && (IsNeeded(entries, i) ==>
                        (Required(fields, field, ParseMicroseconds) == Err(error) <==> FirstWrong(entries, i, i + 1, error))
                        && (Required(fields, field, ParseMicroseconds).Ok? <==> AllFine(entries, i, i + 1)))
                  && (!IsNeeded(entries, i) ==>
                        (Optional(fields, field, ParseMicroseconds) == Err(error) <==> FirstWrong(entries, i, i + 1, error))
                        && (Optional(fields, field, ParseMicroseconds).Ok? <==> AllFine(entries, i, i + 1))))
  {
    CollectIsLastValue(entries, ORDER[i]);
    FirstWrongOne(entries, i, error);
  }

  lemma TimeErrors(entries: seq<Entry>, error: ParseError)
    ensures TimeFromFields(Collect(entries)) == Err(error) <==> FirstWrong(entries, 0, 5, error)
    ensures TimeFromFields(Collect(entries)).Ok? <==> AllFine(entries, 0, 5)
  {
    FieldErrors(entries, 0, error);
    FieldErrors(entries, 1, error);
    FieldErrors(entries, 2, error);
    FieldErrors(entries, 3, error);
    FieldErrors(entries, 4, error);
    FirstWrongSplits(entries, 0, 1, 2, error);
    FirstWrongSplits(entries, 0, 2, 3, error);
    FirstWrongSplits(entries, 0, 3, 4, error);
    FirstWrongSplits(entries, 0, 4, 5, error);
  }

  lemma BurstErrors(entries: seq<Entry>, error: ParseError)
    ensures OptionalBurst(Collect(entries)) == Err(error) <==> FirstWrong(entries, 5, 7, error)
    ensures OptionalBurst(Collect(entries)).Ok? <==> AllFine(entries, 5, 7)
  {
    LookupsAgree(entries);
    assert ContainsAny(Collect(entries), BURST_FIELDS) <==> Reports(entries, "nr_bursts") || Reports(entries, "burst_usec");
    FieldErrors(entries, 5, error);
    FieldErrors(entries, 6, error);
    FirstWrongSplits(entries, 5, 6, 7, error);
  }

  lemma BandwidthErrors(entries: seq<Entry>, error: ParseError)
    requires IsNeeded(entries, 7)
    ensures BandwidthFromFields(Collect(entries)) == Err(error) <==> FirstWrong(entries, 5, 10, error)
  {
    BurstErrors(entries, error);
    FieldErrors(entries, 7, error);
    FieldErrors(entries, 8, error);
    FieldErrors(entries, 9, error);
    FirstWrongSplits(entries, 5, 7, 8, error);
    FirstWrongSplits(entries, 5, 8, 9, error);
    FirstWrongSplits(entries, 5, 9, 10, error);
  }

  /** The error is that of the first field, in the order above, that is missing or cannot be read. */
  lemma ParseErrors(raw: string, error: ParseError)
    requires FileEntries(raw, ValueField).Ok?
    ensures Parse(raw) == Err(error) <==> FirstWrong(FileEntries(raw, ValueField).value, 0, 10, error)
  {
    var entries := FileEntries(raw, ValueField).value;
    TimeErrors(entries, error);
    FirstWrongSplits(entries, 0, 5, 10, error);
    LookupsAgree(entries);
    assert ContainsAny(Collect(entries), BANDWIDTH_FIELDS) <==> IsNeeded(entries, 7);
    if IsNeeded(entries, 7) {
      BandwidthErrors(entries, error);
    } else {
      assert AllFine(entries, 5, 10);
      assert !FirstWrong(entries, 5, 10, error);
    }
  }
}
