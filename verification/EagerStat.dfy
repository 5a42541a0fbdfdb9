/**
 The fold behind the two memory breakdowns: each line of a known field is interpreted as it
 is read, and stored in the map of that field's unit. The two files differ only in what
 follows the key on a line.
 */
module EagerStat {
  import opened Wrappers
  import opened Errors
  import opened LastWins
  import opened MemoryFields

  datatype Snapshot<V> = Snapshot(bytes: map<string, V>, pages: map<string, V>, counts: map<string, V>) {
    function Of(measure: Unit): map<string, V> {
      match measure
      case Bytes => bytes
      case Pages => pages
      case Counts => counts
    }

    function Get(measure: Unit, field: string): Option<V> {
      if field in Of(measure) then Some(Of(measure)[field]) else None
    }

    function Put(measure: Unit, field: string, value: V): Snapshot<V> {
      match measure
      case Bytes => this.(bytes := bytes[field := value])
      case Pages => this.(pages := pages[field := value])
      case Counts => this.(counts := counts[field := value])
    }

    /** The first baseline field that was not reported. */
    function MissingBaseline(): Option<string> {
      if BASELINE_FIELDS[0] !in bytes then Some(BASELINE_FIELDS[0])
      else if BASELINE_FIELDS[1] !in bytes then Some(BASELINE_FIELDS[1])
      else None
    }
  }

  function Empty<V>(): Snapshot<V> {
    Snapshot(map[], map[], map[])
  }

  function Insert<A, V>(stat: Snapshot<V>, line: Pair<string, A>, parse: (string, A) -> Result<V, ParseError>)
    : Result<Snapshot<V>, ParseError>
  {
    match UnitOf(line.key)
    case None => Ok(stat)
    case Some(measure) =>
      var value :- parse(line.key, line.value);
      Ok(stat.Put(measure, line.key, value))
  }

  function Fold<A, V>(lines: seq<string>, split: string -> Result<Pair<string, A>, ParseError>,
                      parse: (string, A) -> Result<V, ParseError>, stat: Snapshot<V>)
    : Result<Snapshot<V>, ParseError>
  {
    if lines == [] then Ok(stat)
    else
      var line :- split(lines[0]);
      var next :- Insert(stat, line, parse);
      Fold(lines[1..], split, parse, next)
  }

  function FromLines<A, V>(lines: seq<string>, split: string -> Result<Pair<string, A>, ParseError>,
                           parse: (string, A) -> Result<V, ParseError>)
    : Result<Snapshot<V>, ParseError>
  {
    var stat :- Fold(lines, split, parse, Empty());
    match stat.MissingBaseline()
    case Some(field) => Err(Missing(field))
    case None => Ok(stat)
  }

  // ---------- the fold against last-line-wins lookup ----------

  ghost predicate Splits<A>(lines: seq<string>, split: string -> Result<Pair<string, A>, ParseError>,
                            pairs: seq<Pair<string, A>>)
  {
    |pairs| == |lines| && forall i :: 0 <= i < |lines| ==> split(lines[i]) == Ok(pairs[i])
  }

  /** Every line of a known field can be interpreted, also one that a later line replaces. */
  ghost predicate AllInterpretable<A, V>(pairs: seq<Pair<string, A>>, parse: (string, A) -> Result<V, ParseError>) {
    forall pair <- pairs :: UnitOf(pair.key).Some? ==> parse(pair.key, pair.value).Ok?
  }

  /** What lazy lookup of one field in one unit would find. */
  function Lookup<A, V>(pairs: seq<Pair<string, A>>, parse: (string, A) -> Result<V, ParseError>,
                        measure: Unit, field: string): Option<V>
  {
    if UnitOf(field) != Some(measure) then None
    else
      match LastValue(pairs, field)
      case None => None
      case Some(value) =>
        match parse(field, value)
        case Ok(v) => Some(v)
        case Err(_) => None
  }

  /** What the fold must have made of one field in one unit, starting from `stat`. */
  ghost predicate IsFolded<A, V>(
      result: Snapshot<V>, pairs: seq<Pair<string, A>>, parse: (string, A) -> Result<V, ParseError>,
      stat: Snapshot<V>, measure: Unit, field: string)
  {
    result.Get(measure, field) ==
    if LastValue(pairs, field).Some? && UnitOf(field) == Some(measure) then Lookup(pairs, parse, measure, field)
    else stat.Get(measure, field)
  }

  lemma {:induction false} FoldExact<A, V>(
      lines: seq<string>, split: string -> Result<Pair<string, A>, ParseError>, pairs: seq<Pair<string, A>>,
      parse: (string, A) -> Result<V, ParseError>, stat: Snapshot<V>)
    requires Splits(lines, split, pairs)
    ensures var r := Fold(lines, split, parse, stat);
            && (r.Ok? <==> AllInterpretable(pairs, parse))
            && (r.Ok? ==> forall measure, field :: IsFolded(r.value, pairs, parse, stat, measure, field))
  {
    if lines != [] {
      assert pairs == [pairs[0]] + pairs[1..];
      var inserted := Insert(stat, pairs[0], parse);
      if inserted.Ok? {
        FoldExact(lines[1..], split, pairs[1..], parse, inserted.value);
        var r := Fold(lines[1..], split, parse, inserted.value);
        if r.Ok? {
          forall measure, field ensures IsFolded(r.value, pairs, parse, stat, measure, field) {
            InsertedFirst(r.value, pairs, parse, stat, measure, field);
          }
        }
      }
    }
  }

  lemma InsertedFirst<A, V>(
      result: Snapshot<V>, pairs: seq<Pair<string, A>>, parse: (string, A) -> Result<V, ParseError>,
      stat: Snapshot<V>, measure: Unit, field: string)
    requires pairs != [] && Insert(stat, pairs[0], parse).Ok?
    requires IsFolded(result, pairs[1..], parse, Insert(stat, pairs[0], parse).value, measure, field)
    ensures IsFolded(result, pairs, parse, stat, measure, field)
  {
  }

  lemma {:induction false} FoldNeedsSplit<A, V>(
      lines: seq<string>, split: string -> Result<Pair<string, A>, ParseError>,
      parse: (string, A) -> Result<V, ParseError>, stat: Snapshot<V>) returns (pairs: seq<Pair<string, A>>)
    requires Fold(lines, split, parse, stat).Ok?
    ensures Splits(lines, split, pairs)
  {
    if lines == [] {
      pairs := [];
    } else {
      var first := split(lines[0]).value;
      var rest := FoldNeedsSplit(lines[1..], split, parse, Insert(stat, first, parse).value);
      pairs := [first] + rest;
    }
  }

  /**
   The eager fold refines lazy lookup. It succeeds exactly when every line splits, every line
   of a known field can be interpreted and both baseline fields appear; each map entry is
   then what lookup of the last line gives, in that field's unit and in no other.
   */
  lemma FromLinesExact<A, V>(lines: seq<string>, split: string -> Result<Pair<string, A>, ParseError>,
                             parse: (string, A) -> Result<V, ParseError>)
    ensures FromLines(lines, split, parse).Ok? <==>
            exists pairs ::
              && Splits(lines, split, pairs)
              && AllInterpretable(pairs, parse)
              && forall field <- BASELINE_FIELDS :: LastValue(pairs, field).Some?
    ensures forall pairs | Splits(lines, split, pairs) && FromLines(lines, split, parse).Ok? ::
              IsLookup(FromLines(lines, split, parse).value, pairs, parse)
  {
    var folded := Fold(lines, split, parse, Empty());
    forall pairs | Splits(lines, split, pairs)
      ensures folded.Ok? <==> AllInterpretable(pairs, parse)
      ensures folded.Ok? ==> IsLookup(folded.value, pairs, parse)
      ensures folded.Ok? ==>
                (folded.value.MissingBaseline() == None <==> forall field <- BASELINE_FIELDS :: LastValue(pairs, field).Some?)
    {
      FoldExact(lines, split, pairs, parse, Empty());
      if folded.Ok? {
        FoldedIsLookup(folded.value, pairs, parse);
        BaselineIsReported(folded.value, pairs, parse);
      }
    }
    if folded.Ok? {
      var pairs := FoldNeedsSplit(lines, split, parse, Empty());
      assert Splits(lines, split, pairs);
    }
  }

  ghost predicate IsLookup<A, V>(result: Snapshot<V>, pairs: seq<Pair<string, A>>,
                                 parse: (string, A) -> Result<V, ParseError>)
  {
    forall measure, field :: result.Get(measure, field) == Lookup(pairs, parse, measure, field)
  }

  lemma FoldedIsLookup<A, V>(result: Snapshot<V>, pairs: seq<Pair<string, A>>,
                             parse: (string, A) -> Result<V, ParseError>)
    requires forall measure, field :: IsFolded(result, pairs, parse, Empty(), measure, field)
    ensures IsLookup(result, pairs, parse)
  {
    forall measure, field ensures result.Get(measure, field) == Lookup(pairs, parse, measure, field) {
      assert IsFolded(result, pairs, parse, Empty(), measure, field);
    }
  }

  lemma BaselineIsReported<A, V>(result: Snapshot<V>, pairs: seq<Pair<string, A>>,
                                 parse: (string, A) -> Result<V, ParseError>)
    requires IsLookup(result, pairs, parse) && AllInterpretable(pairs, parse)
    ensures result.MissingBaseline() == None <==> forall field <- BASELINE_FIELDS :: LastValue(pairs, field).Some?
  {
    forall field <- BASELINE_FIELDS ensures field in result.bytes <==> LastValue(pairs, field).Some? {
      FieldIsReported(result, pairs, parse, field);
    }
    assert BASELINE_FIELDS[0] in BASELINE_FIELDS && BASELINE_FIELDS[1] in BASELINE_FIELDS;
  }

  // ---------- errors ----------

  /** The line cannot be split, or is one of a known field and cannot be interpreted. */
  predicate IsLineError<A(==), V(==)>(line: string, split: string -> Result<Pair<string, A>, ParseError>,
                              parse: (string, A) -> Result<V, ParseError>, error: ParseError)
  {
    || split(line) == Err(error)
    || (split(line).Ok? && UnitOf(split(line).value.key).Some?
        && parse(split(line).value.key, split(line).value.value) == Err(error))
  }

  predicate IsLineFine<A, V>(line: string, split: string -> Result<Pair<string, A>, ParseError>,
                             parse: (string, A) -> Result<V, ParseError>)
  {
    && split(line).Ok?
    && (UnitOf(split(line).value.key).Some? ==> parse(split(line).value.key, split(line).value.value).Ok?)
  }

  /** The fold fails for the first line that is wrong in one of these ways. */
  lemma {:induction false} FoldErrors<A, V>(
      lines: seq<string>, split: string -> Result<Pair<string, A>, ParseError>,
      parse: (string, A) -> Result<V, ParseError>, stat: Snapshot<V>, error: ParseError)
    ensures Fold(lines, split, parse, stat) == Err(error) <==>
            exists i :: 0 <= i < |lines| && IsLineError(lines[i], split, parse, error)
              && forall j :: 0 <= j < i ==> IsLineFine(lines[j], split, parse)
  {
    if lines != [] {
      var rest := lines[1..];
      assert forall i :: 0 < i < |lines| ==> lines[i] == rest[i - 1];
      if IsLineFine(lines[0], split, parse) {
        var next := Insert(stat, split(lines[0]).value, parse).value;
        FoldErrors(rest, split, parse, next, error);
        if i :| (0 <= i < |rest| && IsLineError(rest[i], split, parse, error)
              && forall j :: 0 <= j < i ==> IsLineFine(rest[j], split, parse)) {
          assert IsLineError(lines[i + 1], split, parse, error);
        }
        if i :| (0 < i < |lines| && IsLineError(lines[i], split, parse, error)
              && forall j :: 0 <= j < i ==> IsLineFine(lines[j], split, parse)) {
          assert IsLineError(rest[i - 1], split, parse, error);
          assert forall j :: 0 <= j < i - 1 ==> rest[j] == lines[j + 1];
        }
      }
    }
  }

  /** When every line is fine, what is left to go wrong is a missing baseline field, `anon` first. */
  lemma BaselineErrors<A, V>(
      lines: seq<string>, split: string -> Result<Pair<string, A>, ParseError>, pairs: seq<Pair<string, A>>,
      parse: (string, A) -> Result<V, ParseError>, error: ParseError)
    requires Splits(lines, split, pairs) && AllInterpretable(pairs, parse)
    ensures FromLines(lines, split, parse) == Err(error) <==>
            || (LastValue(pairs, "anon").None? && error == Missing("anon"))
            || (LastValue(pairs, "anon").Some? && LastValue(pairs, "file").None? && error == Missing("file"))
  {
    FoldExact(lines, split, pairs, parse, Empty());
    var stat := Fold(lines, split, parse, Empty()).value;
    FoldedIsLookup(stat, pairs, parse);
    FieldIsReported(stat, pairs, parse, BASELINE_FIELDS[0]);
    FieldIsReported(stat, pairs, parse, BASELINE_FIELDS[1]);
  }

  lemma FieldIsReported<A, V>(result: Snapshot<V>, pairs: seq<Pair<string, A>>,
                              parse: (string, A) -> Result<V, ParseError>, field: string)
    requires IsLookup(result, pairs, parse) && AllInterpretable(pairs, parse) && UnitOf(field) == Some(Bytes)
    ensures field in result.bytes <==> LastValue(pairs, field).Some?
  {
    LastValueIsListed(pairs, field);
    assert result.Get(Bytes, field) == Lookup(pairs, parse, Bytes, field);
  }
}
