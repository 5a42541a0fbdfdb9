/** RDMA files: one record per device, keyed by the device's name and its optional port index. */
module Rdma {
  import opened Wrappers
  import opened Errors
  import opened Text
  import opened Decimal
  import opened LastWins
  import opened Traversal
  import opened DeviceMaps

  datatype RdmaDevice = RdmaDevice(name: string, index: Option<nat>)

  const INDEX := "index"

  function ParseIndex(fields: map<string, string>): Result<Option<nat>, ParseError> {
    if INDEX !in fields then Ok(None)
    else
      match ParseUnsigned(fields[INDEX], U32_MAX)
      case None => Err(Invalid(INDEX, fields[INDEX]))
      case Some(index) => Ok(Some(index))
  }

  /** A line's key and record. Unlike I/O devices, a name with no fields is left to `parse`. */
  function ReadRdmaLine<T>(line: string, parse: Reader<T>): Result<Pair<RdmaDevice, T>, ParseError> {
    var tokens := Tokens(line);
    if tokens == [] then Err(Missing("device"))
    else
      var fields :- ReadFields(tokens[1..]);
      var index :- ParseIndex(fields);
      var record :- parse(fields);
      Ok(Pair(RdmaDevice(tokens[0], index), record))
  }

  function ReadRdmaLines<T>(lines: seq<string>, parse: Reader<T>): Result<seq<Pair<RdmaDevice, T>>, ParseError> {
    ReadAll(lines, (line: string) => ReadRdmaLine(line, parse))
  }

  function ParseDevices<T>(raw: string, parse: Reader<T>): Result<map<RdmaDevice, T>, ParseError> {
    var entries :- ReadRdmaLines(VisibleLines(Lines(raw)), parse);
    Ok(Collect(entries))
  }

  /** The last `index` on the line is the device's port, as a number; without one it has none. */
  ghost predicate HasIndex(fields: seq<Field>, index: Option<nat>) {
    match LastValue(fields, "index")
    case None => index == None
    case Some(text) => index.Some? && DenotesUnsigned(text, index.value) && index.value <= 4_294_967_295
  }

  ghost predicate DescribesRdma<T>(line: string, entry: Pair<RdmaDevice, T>, parse: Reader<T>) {
    exists fields: seq<Field> ::
      && |Tokens(line)| == |fields| + 1
      && AreFields(Tokens(line)[1..], fields)
      && Tokens(line)[0] == entry.key.name
      && HasIndex(fields, entry.key.index)
      && parse(Collect(fields)) == Ok(entry.value)
  }

  lemma ParseIndexExact(fields: seq<Field>, index: Option<nat>)
    ensures ParseIndex(Collect(fields)) == Ok(index) <==> HasIndex(fields, index)
  {
    CollectIsLastValue(fields, INDEX);
    if LastValue(fields, INDEX).Some? && index.Some? {
      ParseUnsignedExact(LastValue(fields, INDEX).value, U32_MAX, index.value);
    }
  }

  lemma ReadRdmaLineExact<T>(line: string, entry: Pair<RdmaDevice, T>, parse: Reader<T>)
    ensures ReadRdmaLine(line, parse) == Ok(entry) <==> DescribesRdma(line, entry, parse)
  {
    var tokens := Tokens(line);
    if tokens != [] {
      if ReadRdmaLine(line, parse) == Ok(entry) {
        var fields := ReadAll(tokens[1..], ReadField).value;
        ReadFieldsExact(tokens[1..], fields);
        ParseIndexExact(fields, entry.key.index);
      }
      forall fields: seq<Field> | |tokens| == |fields| + 1 && AreFields(tokens[1..], fields)
        ensures ReadFields(tokens[1..]) == Ok(Collect(fields))
        ensures ParseIndex(Collect(fields)) == Ok(entry.key.index) <==> HasIndex(fields, entry.key.index)
      {
        ReadFieldsExact(tokens[1..], fields);
        ParseIndexExact(fields, entry.key.index);
      }
    }
  }

  ghost predicate DescribeAllRdma<T>(lines: seq<string>, entries: seq<Pair<RdmaDevice, T>>, parse: Reader<T>) {
    && |entries| == |lines|
    && forall i :: 0 <= i < |lines| ==> DescribesRdma(lines[i], entries[i], parse)
  }

  lemma RdmaLinesDescribed<T>(lines: seq<string>, parse: Reader<T>, entries: seq<Pair<RdmaDevice, T>>)
    ensures ReadRdmaLines(lines, parse) == Ok(entries) <==> DescribeAllRdma(lines, entries, parse)
  {
    ReadAllExact(lines, (line: string) => ReadRdmaLine(line, parse), entries);
    forall i | 0 <= i < |lines| && i < |entries|
      ensures ReadRdmaLine(lines[i], parse) == Ok(entries[i]) <==> DescribesRdma(lines[i], entries[i], parse)
    {
      ReadRdmaLineExact(lines[i], entries[i], parse);
    }
  }

  /**
   A file is accepted exactly when every visible line describes a device, and each pair of
   name and index then has the record of the last line with that name and an index of that
   value. Lines that differ in the index, or in having one, do not replace one another.
   */
  lemma ParseDevicesExact<T>(raw: string, parse: Reader<T>, devices: map<RdmaDevice, T>)
    ensures ParseDevices(raw, parse) == Ok(devices) <==>
            exists entries :: DescribeAllRdma(VisibleLines(Lines(raw)), entries, parse) && IsLastOf(devices, entries)
  {
    RdmaLinesExact(VisibleLines(Lines(raw)), parse, devices);
  }

  lemma RdmaLinesExact<T>(lines: seq<string>, parse: Reader<T>, devices: map<RdmaDevice, T>)
    ensures ReadRdmaLines(lines, parse).Ok? && Collect(ReadRdmaLines(lines, parse).value) == devices <==>
            exists entries :: DescribeAllRdma(lines, entries, parse) && IsLastOf(devices, entries)
  {
    var read := ReadRdmaLines(lines, parse);
    if read.Ok? && Collect(read.value) == devices {
      RdmaLinesDescribed(lines, parse, read.value);
      CollectExact(read.value, devices);
      assert DescribeAllRdma(lines, read.value, parse) && IsLastOf(devices, read.value);
    }
    if entries :| DescribeAllRdma(lines, entries, parse) && IsLastOf(devices, entries) {
      RdmaLinesDescribed(lines, parse, entries);
      CollectExact(entries, devices);
    }
  }

  /**
   What is wrong with a visible line, in this order: a field without an equals sign, the
   index, the record. The name is never missing.
   */
  lemma LineErrors<T>(line: string, parse: Reader<T>, error: ParseError)
    requires !IsBlank(line)
    ensures var tokens := Tokens(line);
            && tokens != []
            && (ReadRdmaLine(line, parse) == Err(error) <==>
                  match ReadFields(tokens[1..])
                  case Err(bad) => error == bad
                  case Ok(fields) =>
                    if "index" in fields && ParseUnsigned(fields["index"], 4_294_967_295).None? then
                      error == Invalid("index", fields["index"])
                    else parse(fields) == Err(error))
  {
    VisibleLineHasToken(line);
  }
}
