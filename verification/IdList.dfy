/** CPU and memory-node lists: `0-3,5,7-9`, kept as inclusive ranges of 32-bit IDs. */
module IdList {
  import opened Wrappers
  import opened Errors
  import opened Text
  import opened Decimal
  import opened Traversal

  datatype Range = Range(start: nat, end: nat)

  // ---------- parsing ----------

  function ParseNumber(text: string, field: string, part: string): Result<nat, ParseError> {
    if IsNumeral(text) then
      match ParseUnsigned(text, U32_MAX)
      case Some(n) => Ok(n)
      case None => Err(Invalid(field, part))
    else
      Err(Invalid(field, part))
  }

  function ParseRange(part: string, field: string): Result<Range, ParseError> {
    match SplitOnce(part, '-')
    case Some((start, end)) =>
      var first :- ParseNumber(start, field, part);
      var last :- ParseNumber(end, field, part);
      if first <= last then Ok(Range(first, last)) else Err(Invalid(field, part))
    case None =>
      var id :- ParseNumber(part, field, part);
      Ok(Range(id, id))
  }

  function ParseRanges(parts: seq<string>, field: string): Result<seq<Range>, ParseError> {
    ReadAll(parts, (part: string) => ParseRange(part, field))
  }

  predicate NeighboursAscend(ranges: seq<Range>) {
    forall i :: 0 <= i < |ranges| - 1 ==> ranges[i].end < ranges[i + 1].start
  }

  function ParseTrimmed(value: string, field: string): Result<seq<Range>, ParseError> {
    var ranges :- if value == [] then Ok([]) else ParseRanges(Split(value, ','), field);
    if NeighboursAscend(ranges) then Ok(ranges) else Err(Invalid(field, value))
  }

  function Parse(raw: string, field: string): Result<seq<Range>, ParseError> {
    ParseTrimmed(Trim(raw), field)
  }

  // ---------- what the text means ----------

  /** A decimal ID of any length, leading zeros included, or two joined by a dash. */
  ghost predicate Spells(part: string, range: Range) {
    || (IsNumeral(part) && Value(part) == range.start == range.end)
    || (exists first: string, last: string ::
          && part == first + "-" + last
          && IsNumeral(first) && Value(first) == range.start
          && IsNumeral(last) && Value(last) == range.end)
  }

  /** Every range is nonempty and lies wholly before every later one, within 32 bits. */
  predicate IsAscending(ranges: seq<Range>) {
    && (forall i :: 0 <= i < |ranges| ==> ranges[i].start <= ranges[i].end <= 4_294_967_295)
    && (forall i, j :: 0 <= i < j < |ranges| ==> ranges[i].end < ranges[j].start)
  }

  ghost predicate SpellAll(parts: seq<string>, ranges: seq<Range>) {
    |parts| == |ranges| && forall i :: 0 <= i < |parts| ==> Spells(parts[i], ranges[i])
  }

  /** The ranges, each spelled in some way, with a comma between one and the next. */
  ghost predicate SpellsList(value: string, ranges: seq<Range>) {
    exists parts: seq<string> :: value == Join(parts, ',') && SpellAll(parts, ranges)
  }

  lemma ParseNumberExact(text: string, field: string, part: string, n: nat)
    ensures ParseNumber(text, field, part) == Ok(n) <==> IsNumeral(text) && Value(text) == n <= U32_MAX
    ensures ParseNumber(text, field, part).Err? ==> ParseNumber(text, field, part) == Err(Invalid(field, part))
  {
    if IsNumeral(text) {
      NumeralIsPlain(text);
      ParseUnsignedExact(text, U32_MAX, n);
    }
  }

  /** A part with a dash can only be two numbers around its first dash, and one without only one number. */
  lemma SpellsParts(part: string, range: Range)
    ensures Spells(part, range) <==>
            match SplitOnce(part, '-')
            case None => IsNumeral(part) && Value(part) == range.start == range.end
            case Some((first, last)) =>
              && IsNumeral(first) && Value(first) == range.start
              && IsNumeral(last) && Value(last) == range.end
  {
    if IsNumeral(part) {
      NumeralIsPlain(part);
    }
    if SplitOnce(part, '-').Some? {
      var (first, last) := SplitOnce(part, '-').value;
      SplitOnceExact(part, '-', first, last);
      assert part == first + "-" + last;
    }
    forall first: string, last: string | part == first + "-" + last && IsNumeral(first)
      ensures SplitOnce(part, '-') == Some((first, last))
    {
      NumeralIsPlain(first);
      SplitOnceExact(part, '-', first, last);
    }
  }

  lemma ParseRangeExact(part: string, field: string, range: Range)
    ensures ParseRange(part, field) == Ok(range) <==> Spells(part, range) && range.start <= range.end <= U32_MAX
    ensures ParseRange(part, field).Err? ==> ParseRange(part, field) == Err(Invalid(field, part))
  {
    SpellsParts(part, range);
    match SplitOnce(part, '-')
    case None =>
      ParseNumberExact(part, field, part, range.start);
    case Some((first, last)) =>
      ParseNumberExact(first, field, part, range.start);
      ParseNumberExact(last, field, part, range.end);
  }

  lemma ParseRangesExact(parts: seq<string>, field: string, ranges: seq<Range>)
    ensures ParseRanges(parts, field) == Ok(ranges) <==>
            && |parts| == |ranges|
            && forall i :: 0 <= i < |parts| ==> Spells(parts[i], ranges[i]) && ranges[i].start <= ranges[i].end <= U32_MAX
  {
    ReadAllExact(parts, (part: string) => ParseRange(part, field), ranges);
    forall i | 0 <= i < |parts| && i < |ranges|
      ensures ParseRange(parts[i], field) == Ok(ranges[i]) <==>
              Spells(parts[i], ranges[i]) && ranges[i].start <= ranges[i].end <= U32_MAX
    {
      ParseRangeExact(parts[i], field, ranges[i]);
    }
  }

  lemma {:induction false} NeighboursSuffice(ranges: seq<Range>)
    requires NeighboursAscend(ranges)
    requires forall i :: 0 <= i < |ranges| ==> ranges[i].start <= ranges[i].end <= U32_MAX
    ensures IsAscending(ranges)
  {
    if ranges != [] {
      NeighboursSuffice(ranges[1..]);
      forall i, j | 0 <= i < j < |ranges| ensures ranges[i].end < ranges[j].start {
        if i > 0 {
          assert ranges[1..][i - 1].end < ranges[1..][j - 1].start;
        } else if j > 1 {
          assert ranges[1..][0].end < ranges[1..][j - 1].start;
        }
      }
    }
  }

  /**
   A list is accepted exactly when, trimmed, it is 32-bit ranges with commas between them that
   ascend without overlap, and the result has one range per part, none merged.
   */
  lemma ParseExact(raw: string, field: string, ranges: seq<Range>)
    ensures Parse(raw, field) == Ok(ranges) <==> SpellsList(Trim(raw), ranges) && IsAscending(ranges)
  {
    ParseTrimmedExact(Trim(raw), field, ranges);
  }

  lemma ParseTrimmedExact(value: string, field: string, ranges: seq<Range>)
    ensures ParseTrimmed(value, field) == Ok(ranges) <==> SpellsList(value, ranges) && IsAscending(ranges)
  {
    ListIsSplit(value, ranges);
    if value != [] {
      PartsExact(Split(value, ','), field, ranges);
    }
  }

  /** The parts can only be those between the commas, because no range holds a comma. */
  lemma ListIsSplit(value: string, ranges: seq<Range>)
    ensures SpellsList(value, ranges) <==> if value == [] then ranges == [] else SpellAll(Split(value, ','), ranges)
  {
    forall parts: seq<string> | value == Join(parts, ',') && SpellAll(parts, ranges)
      ensures if value == [] then ranges == [] else Split(value, ',') == parts
    {
      forall i | 0 <= i < |parts| ensures parts[i] != [] && !Contains(parts[i], ',') {
        RangeHasNoComma(parts[i], ranges[i]);
      }
      if parts != [] {
        SplitJoin(parts, ',');
        assert |parts| == 1 ==> value == parts[0];
      }
    }
    if value == [] {
      assert Join([], ',') == value;
      assert ranges == [] ==> SpellAll([], ranges);
    } else {
      JoinSplit(value, ',');
    }
  }

  lemma RangeHasNoComma(part: string, range: Range)
    requires Spells(part, range)
    ensures part != [] && !Contains(part, ',')
  {
    if IsNumeral(part) {
      NumeralIsPlain(part);
    } else {
      var first: string, last: string :| part == first + "-" + last && IsNumeral(first) && IsNumeral(last);
      NumeralIsPlain(first);
      NumeralIsPlain(last);
      ContainsJoined(first, '-', last, ',');
    }
  }

  lemma PartsExact(parts: seq<string>, field: string, ranges: seq<Range>)
    ensures ParseRanges(parts, field) == Ok(ranges) && NeighboursAscend(ranges) <==>
            SpellAll(parts, ranges) && IsAscending(ranges)
  {
    ParseRangesExact(parts, field, ranges);
    if NeighboursAscend(ranges) && (forall i :: 0 <= i < |ranges| ==> ranges[i].start <= ranges[i].end <= U32_MAX) {
      NeighboursSuffice(ranges);
    }
  }

  /** The reported value is the first part that is not a 32-bit range, else the whole list. */
  lemma FirstBadPart(parts: seq<string>, field: string, bad: nat)
    requires bad < |parts|
    requires forall i :: 0 <= i < bad ==> ParseRange(parts[i], field).Ok?
    requires forall range :: Spells(parts[bad], range) ==> !(range.start <= range.end <= U32_MAX)
    ensures ParseRanges(parts, field) == Err(Invalid(field, parts[bad]))
  {
    var result := ParseRange(parts[bad], field);
    ParseRangeExact(parts[bad], field, if result.Ok? then result.value else Range(0, 0));
    FirstErrorWins(parts, (part: string) => ParseRange(part, field), Invalid(field, parts[bad]));
  }

  /** Parts that are ranges but overlap or descend are reported as one, the whole list. */
  lemma OverlapIsReported(raw: string, field: string, ranges: seq<Range>)
    requires SpellsList(Trim(raw), ranges) && !IsAscending(ranges)
    requires forall range <- ranges :: range.start <= range.end <= 4_294_967_295
    ensures Parse(raw, field) == Err(Invalid(field, Trim(raw)))
  {
    var value := Trim(raw);
    ListIsSplit(value, ranges);
    OverlapInParts(Split(value, ','), field, ranges);
  }

  lemma OverlapInParts(parts: seq<string>, field: string, ranges: seq<Range>)
    requires forall range <- ranges :: range.start <= range.end <= 4_294_967_295
    ensures NeighboursAscend(ranges) ==> IsAscending(ranges)
    ensures SpellAll(parts, ranges) ==> ParseRanges(parts, field) == Ok(ranges)
  {
    ParseRangesExact(parts, field, ranges);
    if NeighboursAscend(ranges) {
      NeighboursSuffice(ranges);
    }
  }

  // ---------- printing ----------

  function PrintRange(range: Range): string {
    if range.start == range.end then Print(range.start) else Print(range.start) + "-" + Print(range.end)
  }

  function PrintRanges(ranges: seq<Range>): (parts: seq<string>)
    ensures |parts| == |ranges|
    ensures forall i :: 0 <= i < |ranges| ==> parts[i] == PrintRange(ranges[i])
  {
    seq(|ranges|, i requires 0 <= i < |ranges| => PrintRange(ranges[i]))
  }

  function PrintList(ranges: seq<Range>): string {
    Join(PrintRanges(ranges), ',')
  }

  lemma PrintRangeSpells(range: Range)
    requires range.start <= range.end
    ensures Spells(PrintRange(range), range)
    ensures PrintRange(range) != [] && IsTrimmed(PrintRange(range))
  {
    var first, last := Print(range.start), Print(range.end);
    PrintValue(range.start);
    PrintValue(range.end);
    NumeralIsPlain(first);
    NumeralIsPlain(last);
    if range.start != range.end {
      var text := first + "-" + last;
      assert forall i :: 0 <= i < |first| ==> text[i] == first[i];
      assert forall i :: |first| < i < |text| ==> text[i] == last[i - |first| - 1];
      assert forall i :: 0 <= i < |text| ==> IsDigit(text[i]) || text[i] == '-';
    }
  }

  lemma {:induction false} JoinIsTrimmed(parts: seq<string>, separator: char)
    requires forall i :: 0 <= i < |parts| ==> parts[i] != [] && IsTrimmed(parts[i])
    ensures IsTrimmed(Join(parts, separator))
    ensures parts != [] ==> Join(parts, separator) != []
  {
    if |parts| > 1 {
      JoinIsTrimmed(parts[1..], separator);
      var rest := Join(parts[1..], separator);
      var text := parts[0] + [separator] + rest;
      assert text[0] == parts[0][0];
      assert text[|text| - 1] == rest[|rest| - 1];
    }
  }

  /** Printing any valid list in the kernel's syntax and parsing it gives back its ranges. */
  lemma ParsePrintList(ranges: seq<Range>, field: string)
    requires IsAscending(ranges)
    ensures Parse(PrintList(ranges), field) == Ok(ranges)
  {
    var parts := PrintRanges(ranges);
    var text := PrintList(ranges);
    forall i | 0 <= i < |parts| ensures Spells(parts[i], ranges[i]) && parts[i] != [] && IsTrimmed(parts[i]) {
      PrintRangeSpells(ranges[i]);
    }
    JoinIsTrimmed(parts, ',');
    TrimmedIsFixed(text);
    ParseExact(text, field, ranges);
  }

  /** Whatever text was accepted, printing its ranges and parsing again changes nothing. */
  lemma ReprintIsStable(raw: string, field: string)
    requires Parse(raw, field).Ok?
    ensures Parse(PrintList(Parse(raw, field).value), field) == Parse(raw, field)
  {
    var ranges := Parse(raw, field).value;
    ParseExact(raw, field, ranges);
    ParsePrintList(ranges, field);
  }

  // ---------- the IDs ----------

  function Width(range: Range): nat {
    if range.start <= range.end then range.end - range.start + 1 else 0
  }

  function TotalWidth(ranges: seq<Range>): nat {
    if ranges == [] then 0 else Width(ranges[0]) + TotalWidth(ranges[1..])
  }

  function Expand(range: Range): seq<nat> {
    seq(Width(range), i requires i >= 0 => range.start + i)
  }

  function Ids(ranges: seq<Range>): seq<nat> {
    if ranges == [] then [] else Expand(ranges[0]) + Ids(ranges[1..])
  }

  predicate ContainsId(ranges: seq<Range>, id: nat) {
    exists i :: 0 <= i < |ranges| && ranges[i].start <= id <= ranges[i].end
  }

  lemma {:induction false} IdsAreMembers(ranges: seq<Range>, id: nat)
    ensures id in Ids(ranges) <==> ContainsId(ranges, id)
  {
    if ranges != [] {
      var head, rest := Expand(ranges[0]), ranges[1..];
      IdsAreMembers(rest, id);
      if ranges[0].start <= id <= ranges[0].end {
        assert head[id - ranges[0].start] == id;
      }
      assert forall i :: 0 <= i < |rest| ==> rest[i] == ranges[i + 1];
      assert forall i :: 0 < i < |ranges| ==> ranges[i] == rest[i - 1];
    }
  }

  lemma {:induction false} IdsAscend(ranges: seq<Range>)
    requires IsAscending(ranges)
    ensures |Ids(ranges)| == TotalWidth(ranges)
    ensures forall i, j :: 0 <= i < j < |Ids(ranges)| ==> Ids(ranges)[i] < Ids(ranges)[j]
  {
    if ranges != [] {
      var head, rest := Expand(ranges[0]), Ids(ranges[1..]);
      IdsAscend(ranges[1..]);
      forall j | 0 <= j < |rest| ensures ranges[0].end < rest[j] {
        IdsAreMembers(ranges[1..], rest[j]);
        var k :| 0 <= k < |ranges| - 1 && ranges[1..][k].start <= rest[j] <= ranges[1..][k].end;
        assert ranges[0].end < ranges[k + 1].start;
      }
    }
  }

  /** The compact ranges and the expanded sequence hold the same IDs, each once, in order. */
  lemma IdsAreTheRanges(ranges: seq<Range>)
    requires IsAscending(ranges)
    ensures |Ids(ranges)| == TotalWidth(ranges)
    ensures forall id: nat :: id in Ids(ranges) <==> ContainsId(ranges, id)
    ensures forall i, j :: 0 <= i < j < |Ids(ranges)| ==> Ids(ranges)[i] < Ids(ranges)[j]
    ensures forall id <- Ids(ranges) :: id <= U32_MAX
  {
    IdsAscend(ranges);
    forall id: nat ensures id in Ids(ranges) <==> ContainsId(ranges, id) {
      IdsAreMembers(ranges, id);
    }
  }

  /** An ID is a member exactly when some part of the text spells a range around it. */
  lemma MembershipIsTextual(raw: string, field: string, ranges: seq<Range>, id: nat)
    requires Parse(raw, field) == Ok(ranges)
    ensures ContainsId(ranges, id) <==>
            && Trim(raw) != []
            && exists part, range ::
                 part in Split(Trim(raw), ',') && Spells(part, range) && range.start <= id <= range.end
  {
    ParseExact(raw, field, ranges);
    ListIsSplit(Trim(raw), ranges);
    if Trim(raw) != [] {
      MembershipInParts(Split(Trim(raw), ','), ranges, id);
    }
  }

  lemma MembershipInParts(parts: seq<string>, ranges: seq<Range>, id: nat)
    requires SpellAll(parts, ranges)
    ensures ContainsId(ranges, id) <==>
            exists part, range :: part in parts && Spells(part, range) && range.start <= id <= range.end
  {
    if ContainsId(ranges, id) {
      var i :| 0 <= i < |ranges| && ranges[i].start <= id <= ranges[i].end;
      assert parts[i] in parts && Spells(parts[i], ranges[i]);
    }
    if part, range :| part in parts && Spells(part, range) && range.start <= id <= range.end {
      var i :| 0 <= i < |parts| && parts[i] == part;
      SpellingIsUnique(part, range, ranges[i]);
    }
  }

  lemma SpellingIsUnique(part: string, one: Range, other: Range)
    requires Spells(part, one) && Spells(part, other)
    ensures one == other
  {
    SpellsParts(part, one);
    SpellsParts(part, other);
  }

  // ---------- the lazy iterator ----------

  newtype u32 = id: int | 0 <= id <= 0xFFFF_FFFF

  /** `RangeInclusive<u32>` as an iterator: the flag makes the last step without an increment. */
  datatype RangeIterator = RangeIterator(start: u32, end: u32, exhausted: bool) {
    function Next(): Option<(u32, RangeIterator)> {
      if exhausted || start > end then None
      else if start < end then Some((start, this.(start := start + 1)))
      else Some((start, this.(exhausted := true)))
    }

    function Collect(): seq<nat>
      decreases !exhausted, if start <= end then end as int - start as int else 0
    {
      match Next()
      case None => []
      case Some((id, rest)) => [id as nat] + rest.Collect()
    }
  }

  /** Stepping through a range reaches its end, also at the largest ID, and yields each ID once. */
  lemma {:induction false} CollectExpands(start: u32, end: u32)
    requires start <= end
    ensures RangeIterator(start, end, false).Collect() == Expand(Range(start as nat, end as nat))
    decreases end as int - start as int
  {
    var all := Expand(Range(start as nat, end as nat));
    if start < end {
      CollectExpands(start + 1, end);
      assert all == [start as nat] + Expand(Range(start as nat + 1, end as nat));
    } else {
      assert RangeIterator(start, end, true).Collect() == [];
      assert all == [start as nat];
    }
  }

  predicate AreIds(ranges: seq<Range>) {
    forall range <- ranges :: range.start <= range.end <= U32_MAX
  }

  /** `flatten` over the ranges: every iterator in turn, to its end. */
  function CollectAll(ranges: seq<Range>): seq<nat>
    requires AreIds(ranges)
  {
    if ranges == [] then []
    else
      assert ranges[0] in ranges;
      RangeIterator(ranges[0].start as u32, ranges[0].end as u32, false).Collect() + CollectAll(ranges[1..])
  }

  /** Stepping through all ranges yields exactly the expanded sequence. */
  lemma {:induction false} FlattenIsIds(ranges: seq<Range>)
    requires AreIds(ranges)
    ensures CollectAll(ranges) == Ids(ranges)
  {
    if ranges != [] {
      assert ranges[0] in ranges;
      CollectExpands(ranges[0].start as u32, ranges[0].end as u32);
      FlattenIsIds(ranges[1..]);
    }
  }
}
