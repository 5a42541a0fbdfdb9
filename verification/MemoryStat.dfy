/** `memory.stat`: one number per field, filed by the unit of the field. */
module MemoryStat {
  import opened Wrappers
  import opened Errors
  import opened Text
  import opened Decimal
  import opened LastWins
  import opened Keyed
  import opened MemoryFields
  import opened EagerStat

  /** Bytes, pages and counts are all plain unsigned 64-bit numbers. */
  function Number(value: string): Option<nat> {
    ParseUnsigned(value, U64_MAX)
  }

  function ValueLabel(key: string): string {
    "value"
  }

  function ParseNumber(field: string, value: string): Result<nat, ParseError> {
    match Number(value)
    case Some(n) => Ok(n)
    case None => Err(Invalid(field, value))
  }

  function SplitLine(line: string): Result<Entry, ParseError> {
    KeyValue(line, ValueLabel)
  }

  function Parse(contents: string): Result<Snapshot<nat>, ParseError> {
    FromLines(VisibleLines(Lines(contents)), SplitLine, ParseNumber)
  }

  class MemoryStat {
    var bytes: map<string, nat>
    var pages: map<string, nat>
    var counts: map<string, nat>

    constructor ()
      ensures View() == Empty()
    {
      bytes, pages, counts := map[], map[], map[];
    }

    function View(): Snapshot<nat>
      reads this
    {
      Snapshot(bytes, pages, counts)
    }

    method Insert(key: string, value: string) returns (r: Result<(), ParseError>)
      modifies this
      ensures EagerStat.Insert(old(View()), Pair(key, value), ParseNumber) ==
              match r { case Ok(_) => Ok(View()) case Err(error) => Err(error) }
      ensures r.Err? ==> View() == old(View())
    {
      if key in BYTE_FIELDS {
        var n :- ParseNumber(key, value);
        bytes := bytes[key := n];
      } else if key in PAGE_FIELDS {
        var n :- ParseNumber(key, value);
        pages := pages[key := n];
      } else if key in COUNT_FIELDS {
        var n :- ParseNumber(key, value);
        counts := counts[key := n];
      }
      r := Ok(());
    }

    method RequireBaseline() returns (r: Result<(), ParseError>)
      ensures r == match View().MissingBaseline() { case Some(field) => Err(Missing(field)) case None => Ok(()) }
    {
      for i := 0 to |BASELINE_FIELDS|
        invariant forall j :: 0 <= j < i ==> BASELINE_FIELDS[j] in bytes
      {
        if BASELINE_FIELDS[i] !in bytes {
          return Err(Missing(BASELINE_FIELDS[i]));
        }
      }
      r := Ok(());
    }

    static method FromStr(contents: string) returns (r: Result<MemoryStat, ParseError>)
      ensures r.Ok? ==> fresh(r.value)
      ensures Parse(contents) == match r { case Ok(stat) => Ok(stat.View()) case Err(error) => Err(error) }
    {
      var lines := VisibleLines(Lines(contents));
      var stat := new MemoryStat();
      for i := 0 to |lines|
        invariant fresh(stat)
        invariant Fold(lines, SplitLine, ParseNumber, Empty()) == Fold(lines[i..], SplitLine, ParseNumber, stat.View())
      {
        var line :- ParseKeyValue(lines[i], ValueLabel);
        var _ :- stat.Insert(line.key, line.value);
        assert lines[i..][1..] == lines[i + 1..];
      }
      var _ :- stat.RequireBaseline();
      r := Ok(stat);
    }
  }

  /**
   What is wrong with a visible line: a missing value, an excess token, or the value of a known
   field that is not a number; `EagerStat.FoldErrors` says which line counts.
   */
  lemma LineErrors(line: string, error: ParseError)
    requires !IsBlank(line)
    ensures IsLineError(line, SplitLine, ParseNumber, error) <==>
            var tokens := Tokens(line);
            || (|tokens| == 1 && error == Missing("value"))
            || (|tokens| > 2 && error == Excess)
            || (|tokens| == 2 && UnitOf(tokens[0]).Some? && Number(tokens[1]).None? && error == Invalid(tokens[0], tokens[1]))
  {
    VisibleLineHasToken(line);
  }

  // ---------- against lazy keyed lookup ----------

  /** A field is stored exactly when lazy lookup reads it in its unit, and with the same number. */
  lemma EagerRefinesLazy(contents: string, measure: Unit, field: string, n: nat)
    requires Parse(contents).Ok?
    ensures Fields(contents, ValueLabel).Ok?
    ensures Parse(contents).value.Get(measure, field) == Some(n) <==>
            && UnitOf(field) == Some(measure)
            && Required(Fields(contents, ValueLabel).value, field, Number) == Ok(n)
  {
    var lines := VisibleLines(Lines(contents));
    FromLinesExact(lines, SplitLine, ParseNumber);
    var pairs: seq<Entry> := FoldNeedsSplit(lines, SplitLine, ParseNumber, Empty());
    EntriesExact(lines, ValueLabel, pairs);
    CollectIsLastValue(pairs, field);
  }

  /** Accepted: two tokens on every line, a number on every line of a known field, and the baseline. */
  lemma ParseAccepts(contents: string)
    ensures Parse(contents).Ok? <==>
            && FileEntries(contents, ValueLabel).Ok?
            && var entries := FileEntries(contents, ValueLabel).value;
               && (forall entry <- entries :: UnitOf(entry.key).Some? ==> Number(entry.value).Some?)
               && (forall field <- BASELINE_FIELDS :: exists entry <- entries :: entry.key == field)
  {
    var lines := VisibleLines(Lines(contents));
    var file := FileEntries(contents, ValueLabel);
    FromLinesExact(lines, SplitLine, ParseNumber);
    if Parse(contents).Ok? {
      var pairs: seq<Entry> := FoldNeedsSplit(lines, SplitLine, ParseNumber, Empty());
      EntriesExact(lines, ValueLabel, pairs);
    }
    if file.Ok? {
      EntriesExact(lines, ValueLabel, file.value);
      assert Splits(lines, SplitLine, file.value);
      forall field <- BASELINE_FIELDS {
        LastValueIsListed(file.value, field);
      }
      forall pairs | Splits(lines, SplitLine, pairs) ensures pairs == file.value {
        EntriesExact(lines, ValueLabel, pairs);
      }
    }
  }

  /** A line that is ignored, or holds a number. */
  predicate IsNumeric(entry: Entry) {
    UnitOf(entry.key).Some? ==> Number(entry.value).Some?
  }

  /** Keyed lookup can read every known field that is there, and both baseline fields are. */
  predicate IsReadableLazily(fields: map<string, string>) {
    && (forall field <- fields :: IsNumeric(Pair(field, fields[field])))
    && (forall field <- BASELINE_FIELDS :: field in fields)
  }

  /**
   A file is accepted exactly when keyed lookup can read it and, beyond what keyed lookup
   asks, every replaced value of a known field is a number too.
   */
  lemma ReplacedValuesDecide(contents: string)
    ensures Parse(contents).Ok? <==>
            && FileEntries(contents, ValueLabel).Ok?
            && var entries := FileEntries(contents, ValueLabel).value;
               && IsReadableLazily(Collect(entries))
               && forall i, j :: 0 <= i < j < |entries| && entries[j].key == entries[i].key ==> IsNumeric(entries[i])
  {
    ParseAccepts(contents);
    if FileEntries(contents, ValueLabel).Ok? {
      var entries := FileEntries(contents, ValueLabel).value;
      ReplacedOrLast(entries, Collect(entries), IsNumeric);
      assert forall entry <- entries :: IsNumeric(entry) <==> (UnitOf(entry.key).Some? ==> Number(entry.value).Some?);
      forall field <- BASELINE_FIELDS ensures field in Collect(entries) <==> exists entry <- entries :: entry.key == field {
        ReportedFields(entries, field);
      }
    }
  }

  lemma ReportedFields(entries: seq<Entry>, field: string)
    ensures field in Collect(entries) <==> exists entry <- entries :: entry.key == field
  {
    CollectIsLastValue(entries, field);
    LastValueIsListed(entries, field);
  }

  /**
   The difference is real: whatever the malformed value, there is a file that keyed lookup
   reads and the eager fold rejects for a value it replaces.
   */
  lemma ShadowedValueIsRejected(malformed: string, n: nat) returns (contents: string)
    requires IsWord(malformed) && Number(malformed).None? && n <= U64_MAX
    ensures contents == PrintEntries([Pair("anon", malformed), Pair("anon", Print(n)), Pair("file", Print(n))])
    ensures Parse(contents).Err?
    ensures var fields := Fields(contents, ValueLabel);
            && fields.Ok?
            && forall field <- BASELINE_FIELDS ::
                 Required(fields.value, field, Number) == Ok(n)
  {
    NumeralIsPlain(Print(n));
    ParsePrint(n, U64_MAX);
    BaselineIsPlain();
    contents := MalformedIsRejected(BASELINE_FIELDS[0], BASELINE_FIELDS[1], malformed, Print(n));
    LastOfThreeIsRead(BASELINE_FIELDS[0], BASELINE_FIELDS[1], malformed, Print(n), n);
  }

  lemma MalformedIsRejected(anon: string, file: string, malformed: string, value: string) returns (contents: string)
    requires IsPlainWord(anon) && IsPlainWord(file) && IsWord(malformed) && IsWord(value)
    requires anon in BYTE_FIELDS && Number(malformed).None?
    ensures contents == PrintEntries([Pair(anon, malformed), Pair(anon, value), Pair(file, value)])
    ensures FileEntries(contents, ValueLabel) == Ok([Pair(anon, malformed), Pair(anon, value), Pair(file, value)])
    ensures Parse(contents).Err?
  {
    var entries := [Pair(anon, malformed), Pair(anon, value), Pair(file, value)];
    contents := PrintEntries(entries);
    PrintedEntriesParse(entries, ValueLabel);
    ParseAccepts(contents);
    assert entries[0] in entries;
  }

  lemma LastOfThreeIsRead(anon: string, file: string, malformed: string, value: string, n: nat)
    requires anon != file && Number(value) == Some(n)
    ensures var fields := Collect([Pair(anon, malformed), Pair(anon, value), Pair(file, value)]);
            Required(fields, anon, Number) == Ok(n) && Required(fields, file, Number) == Ok(n)
  {
    var entries := [Pair(anon, malformed), Pair(anon, value), Pair(file, value)];
    LastOfThree(entries[0], entries[1], entries[2]);
    CollectIsLastValue(entries, anon);
    CollectIsLastValue(entries, file);
  }

  lemma BaselineIsPlain()
    ensures forall field <- BASELINE_FIELDS :: IsPlainWord(field) && field in BYTE_FIELDS
    ensures BASELINE_FIELDS[0] != BASELINE_FIELDS[1]
  {
    assert !IsWhitespace("anon"[0]) && !IsWhitespace("file"[0]);
  }

  lemma LastOfThree<K, V>(first: Pair<K, V>, second: Pair<K, V>, third: Pair<K, V>)
    requires first.key == second.key != third.key
    ensures LastValue([first, second, third], first.key) == Some(second.value)
    ensures LastValue([first, second, third], third.key) == Some(third.value)
  {
    assert [first, second, third] == [first, second] + [third] == [first] + [second] + [third];
    LastValueAppend([first, second], third, first.key);
    LastValueAppend([first, second], third, third.key);
    LastValueAppend([first], second, first.key);
  }
}
