/** Block devices, and the nested keyed files that hold one record per device. */
module DeviceMaps {
  import opened Wrappers
  import opened Errors
  import opened Text
  import opened Decimal
  import opened LastWins
  import opened Traversal

  datatype Device = Device(major: nat, minor: nat) {
    predicate IsValid() {
      major <= 4_294_967_295 && minor <= 4_294_967_295
    }

    function Print(): string {
      Decimal.Print(major) + ":" + Decimal.Print(minor)
    }
  }

  function ParseDevice(value: string): Result<Device, ParseError> {
    match SplitOnce(value, ':')
    case None => Err(Invalid("device", value))
    case Some((major, minor)) =>
      match (ParseUnsigned(major, U32_MAX), ParseUnsigned(minor, U32_MAX))
      case (Some(m), Some(n)) => Ok(Device(m, n))
      case _ => Err(Invalid("device", value))
  }

  /** Text that names a device: two numbers, leading zeros and plus signs included. */
  ghost predicate Spells(text: string, device: Device) {
    exists major: string, minor: string ::
      && text == major + ":" + minor
      && DenotesUnsigned(major, device.major)
      && DenotesUnsigned(minor, device.minor)
  }

  /** Only the parts around the first colon can be those numbers. */
  lemma SpellsParts(text: string, device: Device)
    ensures Spells(text, device) <==>
            && SplitOnce(text, ':').Some?
            && DenotesUnsigned(SplitOnce(text, ':').value.0, device.major)
            && DenotesUnsigned(SplitOnce(text, ':').value.1, device.minor)
  {
    if SplitOnce(text, ':').Some? {
      var (major, minor) := SplitOnce(text, ':').value;
      SplitOnceExact(text, ':', major, minor);
      assert text == major + ":" + minor;
    }
    forall major: string, minor: string | text == major + ":" + minor && DenotesUnsigned(major, device.major)
      ensures SplitOnce(text, ':') == Some((major, minor))
    {
      UnsignedIsPlain(major);
      SplitOnceExact(text, ':', major, minor);
    }
  }

  lemma ParseDeviceExact(text: string, device: Device)
    ensures ParseDevice(text) == Ok(device) <==> Spells(text, device) && device.IsValid()
  {
    SpellsParts(text, device);
    if SplitOnce(text, ':').Some? {
      ParseUnsignedExact(SplitOnce(text, ':').value.0, U32_MAX, device.major);
      ParseUnsignedExact(SplitOnce(text, ':').value.1, U32_MAX, device.minor);
    }
  }

  lemma JoinedWord(first: string, separator: char, second: string)
    requires IsWord(first) && IsWord(second) && !IsAsciiWhitespace(separator)
    ensures IsWord(first + [separator] + second)
  {
    var s := first + [separator] + second;
    forall i | 0 <= i < |s| ensures !IsAsciiWhitespace(s[i]) {
      assert s[i] == if i < |first| then first[i] else if i == |first| then separator else second[i - |first| - 1];
    }
  }

  /** Every device is read back from the way it is printed. */
  lemma ParsePrintDevice(device: Device)
    requires device.IsValid()
    ensures ParseDevice(device.Print()) == Ok(device) && IsWord(device.Print())
  {
    var major, minor := Decimal.Print(device.major), Decimal.Print(device.minor);
    ParsePrint(device.major, U32_MAX);
    ParsePrint(device.minor, U32_MAX);
    NumeralIsPlain(major);
    NumeralIsPlain(minor);
    assert Spells(device.Print(), device);
    ParseDeviceExact(device.Print(), device);
    JoinedWord(major, ':', minor);
  }

  // ---------- fields inside a line ----------

  type Field = Pair<string, string>

  function ReadField(token: string): Result<Field, ParseError> {
    match SplitOnce(token, '=')
    case None => Err(Invalid("value", token))
    case Some((key, value)) => Ok(Pair(key, value))
  }

  function PrintField(field: Field): string {
    field.key + "=" + field.value
  }

  function ReadFields(tokens: seq<string>): Result<map<string, string>, ParseError> {
    var fields :- ReadAll(tokens, ReadField);
    Ok(Collect(fields))
  }

  /** A token is a field exactly when it is the field's own text, cut at the first equals sign. */
  lemma ReadFieldExact(token: string, field: Field)
    ensures ReadField(token) == Ok(field) <==> token == PrintField(field) && !Contains(field.key, '=')
  {
    SplitOnceExact(token, '=', field.key, field.value);
  }

  // ---------- I/O devices ----------

  type Reader<!T> = map<string, string> -> Result<T, ParseError>

  /** A line's device and record, or the first thing on the line that is wrong. */
  function ReadLine<T>(line: string, parse: Reader<T>): Result<Pair<Device, T>, ParseError> {
    var tokens := Tokens(line);
    if tokens == [] then Err(Missing("device"))
    else
      var device :- ParseDevice(tokens[0]);
      if |tokens| == 1 then Err(Missing("value"))
      else
        var fields :- ReadFields(tokens[1..]);
        var record :- parse(fields);
        Ok(Pair(device, record))
  }

  function ReadLines<T>(lines: seq<string>, parse: Reader<T>): Result<seq<Pair<Device, T>>, ParseError> {
    ReadAll(lines, (line: string) => ReadLine(line, parse))
  }

  function ParseLines<T>(raw: string, parse: Reader<T>): Result<map<Device, T>, ParseError> {
    var entries :- ReadLines(VisibleLines(Lines(raw)), parse);
    Ok(Collect(entries))
  }

  /** A device, then at least one field; for a field given twice the later value counts. */
  ghost predicate Describes<T>(line: string, entry: Pair<Device, T>, parse: Reader<T>) {
    exists fields: seq<Field> ::
      && IsLine(Tokens(line), fields)
      && Spells(Tokens(line)[0], entry.key) && entry.key.IsValid()
      && parse(Collect(fields)) == Ok(entry.value)
  }

  predicate IsLine(tokens: seq<string>, fields: seq<Field>) {
    && |tokens| == |fields| + 1 > 1
    && AreFields(tokens[1..], fields)
  }

  predicate AreFields(tokens: seq<string>, fields: seq<Field>)
    requires |tokens| == |fields|
  {
    forall i :: 0 <= i < |fields| ==> tokens[i] == PrintField(fields[i]) && !Contains(fields[i].key, '=')
  }

  lemma ReadFieldsExact(tokens: seq<string>, fields: seq<Field>)
    ensures ReadAll(tokens, ReadField) == Ok(fields) <==> |tokens| == |fields| && AreFields(tokens, fields)
  {
    ReadAllExact(tokens, ReadField, fields);
    forall i | 0 <= i < |tokens| && i < |fields|
      ensures ReadField(tokens[i]) == Ok(fields[i]) <==> tokens[i] == PrintField(fields[i]) && !Contains(fields[i].key, '=')
    {
      ReadFieldExact(tokens[i], fields[i]);
    }
  }

  lemma ReadLineExact<T>(line: string, entry: Pair<Device, T>, parse: Reader<T>)
    ensures ReadLine(line, parse) == Ok(entry) <==> Describes(line, entry, parse)
  {
    var tokens := Tokens(line);
    if |tokens| > 1 {
      ParseDeviceExact(tokens[0], entry.key);
      if ReadLine(line, parse) == Ok(entry) {
        var fields := ReadAll(tokens[1..], ReadField).value;
        ReadFieldsExact(tokens[1..], fields);
        assert IsLine(tokens, fields);
      }
      if Describes(line, entry, parse) {
        var fields :| IsLine(tokens, fields) && parse(Collect(fields)) == Ok(entry.value);
        ReadFieldsExact(tokens[1..], fields);
      }
    }
  }

  ghost predicate DescribeAll<T>(lines: seq<string>, entries: seq<Pair<Device, T>>, parse: Reader<T>) {
    && |entries| == |lines|
    && forall i :: 0 <= i < |lines| ==> Describes(lines[i], entries[i], parse)
  }

  /**
   A file is accepted exactly when every visible line describes a device, and then each
   device has the record of the last line that names it, however that line spells it.
   */
  lemma ParseLinesExact<T>(raw: string, parse: Reader<T>, devices: map<Device, T>)
    ensures ParseLines(raw, parse) == Ok(devices) <==>
            exists entries :: DescribeAll(VisibleLines(Lines(raw)), entries, parse) && IsLastOf(devices, entries)
  {
    LinesExact(VisibleLines(Lines(raw)), parse, devices);
  }

  lemma LinesExact<T>(lines: seq<string>, parse: Reader<T>, devices: map<Device, T>)
    ensures ReadLines(lines, parse).Ok? && Collect(ReadLines(lines, parse).value) == devices <==>
            exists entries :: DescribeAll(lines, entries, parse) && IsLastOf(devices, entries)
  {
    var read := ReadLines(lines, parse);
    if read.Ok? && Collect(read.value) == devices {
      LinesDescribed(lines, parse, read.value);
      CollectExact(read.value, devices);
      assert DescribeAll(lines, read.value, parse) && IsLastOf(devices, read.value);
    }
    if entries :| DescribeAll(lines, entries, parse) && IsLastOf(devices, entries) {
      LinesDescribed(lines, parse, entries);
      CollectExact(entries, devices);
    }
  }

  lemma LinesDescribed<T>(lines: seq<string>, parse: Reader<T>, entries: seq<Pair<Device, T>>)
    ensures ReadLines(lines, parse) == Ok(entries) <==> DescribeAll(lines, entries, parse)
  {
    ReadAllExact(lines, (line: string) => ReadLine(line, parse), entries);
    forall i | 0 <= i < |lines| && i < |entries|
      ensures ReadLine(lines[i], parse) == Ok(entries[i]) <==> Describes(lines[i], entries[i], parse)
    {
      ReadLineExact(lines[i], entries[i], parse);
    }
  }

  /** A token without an equals sign. */
  predicate IsBadField(token: string, error: ParseError) {
    !Contains(token, '=') && error == Invalid("value", token)
  }

  /** The fields fail for the first token without an equals sign. */
  lemma FieldErrors(tokens: seq<string>, error: ParseError)
    ensures ReadFields(tokens) == Err(error) <==>
            exists i :: 0 <= i < |tokens| && IsBadField(tokens[i], error)
              && forall j :: 0 <= j < i ==> Contains(tokens[j], '=')
    ensures ReadFields(tokens).Ok? <==> forall token <- tokens :: Contains(token, '=')
  {
    FirstErrorWins(tokens, ReadField, error);
    ReadAllSucceeds(tokens, ReadField);
    assert forall token <- tokens :: ReadField(token) == Err(error) <==> IsBadField(token, error);
  }

  /**
   What is wrong with a visible line, in this order: the device, no field at all, a field
   without an equals sign, the record. `Traversal.FirstErrorWins` says which line counts.
   */
  lemma LineErrors<T>(line: string, parse: Reader<T>, error: ParseError)
    requires !IsBlank(line)
    ensures var tokens := Tokens(line);
            && tokens != []
            && (ReadLine(line, parse) == Err(error) <==>
                  if forall device :: Spells(tokens[0], device) ==> !device.IsValid() then error == Invalid("device", tokens[0])
                  else if |tokens| == 1 then error == Missing("value")
                  else match ReadFields(tokens[1..])
                    case Err(bad) => error == bad
                    case Ok(fields) => parse(fields) == Err(error))
  {
    VisibleLineHasToken(line);
    var name := Tokens(line)[0];
    if ParseDevice(name).Ok? {
      ParseDeviceExact(name, ParseDevice(name).value);
    }
    forall device | Spells(name, device) && device.IsValid() ensures ParseDevice(name).Ok? {
      ParseDeviceExact(name, device);
    }
  }

  /** A visible line always has a first token, so a device is never reported missing. */
  lemma DeviceIsNeverMissing<T>(raw: string, parse: Reader<T>)
    requires forall fields :: parse(fields) != Err(Missing("device"))
    ensures ParseLines(raw, parse) != Err(Missing("device"))
  {
    var lines := VisibleLines(Lines(raw));
    forall line <- lines ensures ReadLine(line, parse) != Err(Missing("device")) {
      DeviceIsThere(line, parse);
    }
    FirstErrorWins(lines, (line: string) => ReadLine(line, parse), Missing("device"));
  }

  lemma DeviceIsThere<T>(line: string, parse: Reader<T>)
    requires forall fields :: parse(fields) != Err(Missing("device"))
    requires !IsBlank(line)
    ensures ReadLine(line, parse) != Err(Missing("device"))
  {
    VisibleLineHasToken(line);
    OtherError(Tokens(line)[1..]);
  }

  lemma OtherError(tokens: seq<string>)
    ensures ReadFields(tokens) != Err(Missing("device"))
  {
    FirstErrorWins(tokens, ReadField, Missing("device"));
  }

  // ---------- printing ----------

  type Listing = Pair<Device, seq<Field>>

  predicate IsPlainField(field: Field) {
    IsWord(PrintField(field)) && !Contains(field.key, '=')
  }

  predicate IsPlainListing(listing: Listing) {
    listing.key.IsValid() && listing.value != [] && forall field <- listing.value :: IsPlainField(field)
  }

  function PrintFields(fields: seq<Field>): string {
    if fields == [] then []
    else " " + (PrintField(fields[0]) + PrintFields(fields[1..]))
  }

  function PrintListing(listing: Listing): string {
    listing.key.Print() + PrintFields(listing.value)
  }

  function PrintListings(listings: seq<Listing>): string {
    if listings == [] then []
    else PrintListing(listings[0]) + "\n" + PrintListings(listings[1..])
  }

  lemma {:induction false} TokensOfFields(word: string, fields: seq<Field>)
    requires IsWord(word)
    requires forall field <- fields :: IsPlainField(field)
    ensures IsLine(Tokens(word + PrintFields(fields)), fields) || fields == []
    ensures Tokens(word + PrintFields(fields))[..1] == [word]
    ensures |Tokens(word + PrintFields(fields))| == |fields| + 1
    decreases |fields|
  {
    var rest := PrintFields(fields);
    TokensOfWord(word, rest);
    if fields != [] {
      var first := PrintField(fields[0]);
      assert IsPlainField(fields[0]);
      TokensOfFields(first, fields[1..]);
      assert rest[1..] == first + PrintFields(fields[1..]);
      assert Tokens(rest) == Tokens(first + PrintFields(fields[1..]));
      FieldsFrom(Tokens(rest), fields);
    }
  }

  lemma FieldsFrom(tokens: seq<string>, fields: seq<Field>)
    requires fields != [] && |tokens| == |fields| && tokens[..1] == [PrintField(fields[0])] && IsPlainField(fields[0])
    requires |fields| > 1 ==> AreFields(tokens[1..], fields[1..])
    ensures AreFields(tokens, fields)
  {
    assert tokens[0] == tokens[..1][0];
    forall i | 0 < i < |fields| ensures tokens[i] == PrintField(fields[i]) && !Contains(fields[i].key, '=') {
      assert tokens[i] == tokens[1..][i - 1] && fields[i] == fields[1..][i - 1];
    }
  }

  /** Text without line breaks; true of what is made of words and spaces. */
  predicate IsOneLine(s: string) {
    forall i :: 0 <= i < |s| ==> s[i] != '\n' && s[i] != '\r'
  }

  lemma {:induction false} FieldsAreOneLine(fields: seq<Field>)
    requires forall field <- fields :: IsPlainField(field)
    ensures IsOneLine(PrintFields(fields))
  {
    if fields != [] {
      assert IsPlainField(fields[0]);
      FieldsAreOneLine(fields[1..]);
      WordIsOneLine(PrintField(fields[0]));
    }
  }

  lemma WordIsOneLine(word: string)
    requires IsWord(word)
    ensures IsOneLine(word)
  {
    forall i | 0 <= i < |word| ensures word[i] != '\n' && word[i] != '\r' {
      assert !IsAsciiWhitespace(word[i]);
    }
  }

  lemma ListingIsOneLine(listing: Listing)
    requires IsPlainListing(listing)
    ensures IsOneLine(PrintListing(listing)) && !IsBlank(PrintListing(listing))
  {
    var line, name := PrintListing(listing), listing.key.Print();
    ParsePrintDevice(listing.key);
    WordIsOneLine(name);
    FieldsAreOneLine(listing.value);
    assert IsDigit(name[0]) && !IsWhitespace(name[0]) && line[0] == name[0];
  }

  lemma ListingIsDescribed<T>(listing: Listing, record: T, parse: Reader<T>)
    requires IsPlainListing(listing) && parse(Collect(listing.value)) == Ok(record)
    ensures Describes(PrintListing(listing), Pair(listing.key, record), parse)
  {
    var name := listing.key.Print();
    ParsePrintDevice(listing.key);
    ParseDeviceExact(name, listing.key);
    TokensOfFields(name, listing.value);
    var tokens := Tokens(PrintListing(listing));
    assert tokens[0] == tokens[..1][0] == name;
  }

  lemma {:induction false} ListingLines(listings: seq<Listing>) returns (lines: seq<string>)
    requires forall listing <- listings :: IsOneLine(PrintListing(listing)) && !IsBlank(PrintListing(listing))
    ensures lines == VisibleLines(Lines(PrintListings(listings)))
    ensures |lines| == |listings| && forall i :: 0 <= i < |lines| ==> lines[i] == PrintListing(listings[i])
  {
    lines := [];
    if listings != [] {
      var first, rest := PrintListing(listings[0]), PrintListings(listings[1..]);
      var others := ListingLines(listings[1..]);
      LinesOfLine(first, rest);
      lines := [first] + others;
      assert ([first] + Lines(rest))[1..] == Lines(rest);
    }
  }

  /**
   A file printed from any list of devices and fields is read back as the map from each
   device to what `parse` makes of its last listing.
   */
  lemma PrintedListingsParse<T>(listings: seq<Listing>, parse: Reader<T>, records: seq<Pair<Device, T>>)
    requires |records| == |listings|
    requires forall i :: 0 <= i < |listings| ==>
               && IsPlainListing(listings[i])
               && records[i].key == listings[i].key
               && parse(Collect(listings[i].value)) == Ok(records[i].value)
    ensures ParseLines(PrintListings(listings), parse) == Ok(Collect(records))
  {
    forall i | 0 <= i < |listings|
      ensures Describes(PrintListing(listings[i]), records[i], parse)
      ensures IsOneLine(PrintListing(listings[i])) && !IsBlank(PrintListing(listings[i]))
    {
      ListingIsDescribed(listings[i], records[i].value, parse);
      ListingIsOneLine(listings[i]);
    }
    var lines := ListingLines(listings);
    LinesDescribed(lines, parse, records);
  }
}
