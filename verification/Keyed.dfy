/**
 Flat keyed files: one key and one value on each visible line. The last line for a key wins
 and a value is interpreted only when its field is asked for.
 */
module Keyed {
  import opened Wrappers
  import opened Errors
  import opened Text
  import opened LastWins
  import opened Traversal

  type Entry = Pair<string, string>

  // ---------- one line ----------

  /** A cursor over the tokens of one line. */
  class Parser {
    var fields: seq<string>

    constructor (line: string)
      ensures fields == Tokens(line)
    {
      fields := Tokens(line);
    }

    method NextRawField(field: string) returns (r: Result<string, ParseError>)
      modifies this
      ensures old(fields) == [] ==> r == Err(Missing(field)) && fields == []
      ensures old(fields) != [] ==> r == Ok(old(fields)[0]) && fields == old(fields)[1..]
    {
      if fields == [] {
        return Err(Missing(field));
      }
      r := Ok(fields[0]);
      fields := fields[1..];
    }

    method Finish() returns (r: Result<(), ParseError>)
      modifies this
      ensures r == if old(fields) == [] then Ok(()) else Err(Excess)
      ensures fields == if old(fields) == [] then [] else old(fields)[1..]
    {
      if fields == [] {
        return Ok(());
      }
      fields := fields[1..];
      r := Err(Excess);
    }
  }

  /** What a line means: its two tokens, or the first of them that is missing, or an excess. */
  function KeyValue(line: string, valueField: string -> string): Result<Entry, ParseError> {
    var tokens := Tokens(line);
    if |tokens| == 2 then Ok(Pair(tokens[0], tokens[1]))
    else if |tokens| > 2 then Err(Excess)
    else Err(Missing(if tokens == [] then "key" else valueField(tokens[0])))
  }

  method ParseKeyValue(line: string, valueField: string -> string) returns (r: Result<Entry, ParseError>)
    ensures r == KeyValue(line, valueField)
  {
    var parser := new Parser(line);
    var key :- parser.NextRawField("key");
    var value :- parser.NextRawField(valueField(key));
    var _ :- parser.Finish();
    r := Ok(Pair(key, value));
  }

  // ---------- all lines ----------

  function Entries(lines: seq<string>, valueField: string -> string): Result<seq<Entry>, ParseError> {
    ReadAll(lines, (line: string) => KeyValue(line, valueField))
  }

  function FileEntries(raw: string, valueField: string -> string): Result<seq<Entry>, ParseError> {
    Entries(VisibleLines(Lines(raw)), valueField)
  }

  function Fields(raw: string, valueField: string -> string): Result<map<string, string>, ParseError> {
    var entries :- FileEntries(raw, valueField);
    Ok(Collect(entries))
  }

  function Required<T>(fields: map<string, string>, field: string, parse: string -> Option<T>): Result<T, ParseError> {
    if field !in fields then Err(Missing(field))
    else
      match parse(fields[field])
      case None => Err(Invalid(field, fields[field]))
      case Some(value) => Ok(value)
  }

  function Optional<T>(fields: map<string, string>, field: string, parse: string -> Option<T>)
    : Result<Option<T>, ParseError>
  {
    if field !in fields then Ok(None)
    else
      match parse(fields[field])
      case None => Err(Invalid(field, fields[field]))
      case Some(value) => Ok(Some(value))
  }

  // ---------- lines and entries ----------

  /** A line is accepted exactly when it has two tokens, and then those are the entry. */
  lemma EntriesExact(lines: seq<string>, valueField: string -> string, entries: seq<Entry>)
    ensures Entries(lines, valueField) == Ok(entries) <==>
            && |entries| == |lines|
            && forall i :: 0 <= i < |lines| ==> Tokens(lines[i]) == [entries[i].key, entries[i].value]
  {
    ReadAllExact(lines, (line: string) => KeyValue(line, valueField), entries);
  }

  /** What is wrong with a visible line that does not have two tokens. */
  predicate IsBadLine(line: string, valueField: string -> string, error: ParseError) {
    || (|Tokens(line)| == 1 && error == Missing(valueField(Tokens(line)[0])))
    || (|Tokens(line)| > 2 && error == Excess)
  }

  /** The first of these lines that does not have two tokens has this error. */
  ghost predicate IsFirstBadLine(lines: seq<string>, valueField: string -> string, error: ParseError) {
    exists i :: 0 <= i < |lines| && IsBadLine(lines[i], valueField, error)
      && forall j :: 0 <= j < i ==> |Tokens(lines[j])| == 2
  }

  /** A file is rejected for its first visible line that does not have two tokens. */
  lemma FileErrors(raw: string, valueField: string -> string, error: ParseError)
    ensures FileEntries(raw, valueField) == Err(error) <==>
            IsFirstBadLine(VisibleLines(Lines(raw)), valueField, error)
  {
    LinesErrors(VisibleLines(Lines(raw)), valueField, error);
  }

  lemma LinesErrors(lines: seq<string>, valueField: string -> string, error: ParseError)
    requires forall line <- lines :: !IsBlank(line)
    ensures Entries(lines, valueField) == Err(error) <==> IsFirstBadLine(lines, valueField, error)
  {
    forall line <- lines
      ensures KeyValue(line, valueField) == Err(error) <==> IsBadLine(line, valueField, error)
      ensures KeyValue(line, valueField).Ok? <==> |Tokens(line)| == 2
    {
      VisibleLineHasToken(line);
    }
    var read := (line: string) => KeyValue(line, valueField);
    FirstErrorWins(lines, read, error);
    forall i | 0 <= i < |lines|
      ensures read(lines[i]) == Err(error) <==> IsBadLine(lines[i], valueField, error)
      ensures read(lines[i]).Ok? <==> |Tokens(lines[i])| == 2
    {
      assert lines[i] in lines;
    }
  }

  /** A visible line always has a first token, so a key is never reported missing. */
  lemma KeyIsNeverMissing(raw: string, valueField: string -> string)
    requires forall key :: valueField(key) != "key"
    ensures FileEntries(raw, valueField) != Err(Missing("key"))
  {
    var lines := VisibleLines(Lines(raw));
    FirstErrorWins(lines, (line: string) => KeyValue(line, valueField), Missing("key"));
    forall line <- lines ensures KeyValue(line, valueField) != Err(Missing("key")) {
      VisibleLineHasToken(line);
    }
  }

  /** The same visible lines in another order give the same entries in another order. */
  lemma ReorderedEntries(lines: seq<string>, reordered: seq<string>, valueField: string -> string)
    requires Entries(lines, valueField).Ok?
    requires forall line :: line in lines <==> line in reordered
    ensures Entries(reordered, valueField).Ok?
    ensures forall entry :: entry in Entries(lines, valueField).value <==> entry in Entries(reordered, valueField).value
  {
    var entries := Entries(lines, valueField).value;
    EntriesExact(lines, valueField, entries);
    var others := seq(|reordered|, i requires 0 <= i < |reordered| =>
      var tokens := Tokens(reordered[i]); if |tokens| == 2 then Pair(tokens[0], tokens[1]) else Pair("", ""));
    forall i | 0 <= i < |reordered| ensures Tokens(reordered[i]) == [others[i].key, others[i].value] {
      assert reordered[i] in lines;
      var j :| 0 <= j < |lines| && lines[j] == reordered[i];
    }
    EntriesExact(reordered, valueField, others);
    forall i | 0 <= i < |lines| ensures entries[i] in others {
      assert lines[i] in reordered;
      var j :| 0 <= j < |reordered| && reordered[j] == lines[i];
      assert others[j] == entries[i];
    }
    forall i | 0 <= i < |reordered| ensures others[i] in entries {
      assert reordered[i] in lines;
      var j :| 0 <= j < |lines| && lines[j] == reordered[i];
      assert others[i] == entries[j];
    }
  }

  lemma EntriesConcat(before: seq<string>, after: seq<string>, valueField: string -> string)
    ensures Entries(before + after, valueField) ==
            if Entries(before, valueField).Err? then Entries(before, valueField)
            else if Entries(after, valueField).Err? then Entries(after, valueField)
            else Ok(Entries(before, valueField).value + Entries(after, valueField).value)
  {
    ReadAllConcat(before, after, (line: string) => KeyValue(line, valueField));
  }

  /** Inserting one well-formed line changes the lookup of no other key, nor any earlier error. */
  lemma InsertedLine(before: seq<string>, line: string, after: seq<string>, valueField: string -> string, key: string)
    requires |Tokens(line)| == 2 && Tokens(line)[0] != key
    ensures var with, without := Entries(before + [line] + after, valueField), Entries(before + after, valueField);
            && (with.Err? || without.Err? ==> with == without)
            && (with.Ok? && without.Ok? ==> LastValue(with.value, key) == LastValue(without.value, key))
  {
    EntriesConcat(before + [line], after, valueField);
    EntriesConcat(before, [line], valueField);
    EntriesConcat(before, after, valueField);
    EntriesExact([line], valueField, [KeyValue(line, valueField).value]);
    if Entries(before, valueField).Ok? && Entries(after, valueField).Ok? {
      var first, last := Entries(before, valueField).value, Entries(after, valueField).value;
      var middle := [KeyValue(line, valueField).value];
      LastValueConcat(first + middle, last, key);
      LastValueConcat(first, middle, key);
      LastValueConcat(first, last, key);
      assert LastValue(middle, key) == None by {
        assert middle[1..] == [];
      }
    }
  }

  // ---------- printing ----------

  /** A token that is not Unicode white space throughout. */
  predicate IsPlainWord(s: string) {
    IsWord(s) && !IsBlank(s)
  }

  function PrintEntry(entry: Entry): string {
    entry.key + " " + entry.value
  }

  function PrintEntries(entries: seq<Entry>): string {
    if entries == [] then []
    else PrintEntry(entries[0]) + "\n" + PrintEntries(entries[1..])
  }

  /** Any list of keys and values, written one pair a line, is read back as it was. */
  lemma PrintedEntriesParse(entries: seq<Entry>, valueField: string -> string)
    requires forall entry <- entries :: IsPlainWord(entry.key) && IsWord(entry.value)
    ensures FileEntries(PrintEntries(entries), valueField) == Ok(entries)
  {
    var lines := PrintedLines(entries);
    EntriesExact(lines, valueField, entries);
  }

  lemma {:induction false} PrintedLines(entries: seq<Entry>) returns (lines: seq<string>)
    requires forall entry <- entries :: IsPlainWord(entry.key) && IsWord(entry.value)
    ensures lines == VisibleLines(Lines(PrintEntries(entries)))
    ensures |lines| == |entries|
    ensures forall i :: 0 <= i < |lines| ==> Tokens(lines[i]) == [entries[i].key, entries[i].value]
  {
    lines := [];
    if entries != [] {
      var first, rest := PrintEntry(entries[0]), PrintEntries(entries[1..]);
      var others := PrintedLines(entries[1..]);
      PrintedLine(entries[0]);
      LinesOfLine(first, rest);
      lines := [first] + others;
      assert ([first] + Lines(rest))[1..] == Lines(rest);
    }
  }

  lemma PrintedLine(entry: Entry)
    requires IsPlainWord(entry.key) && IsWord(entry.value)
    ensures var line := PrintEntry(entry);
            && Tokens(line) == [entry.key, entry.value]
            && !Contains(line, '\n') && StripCarriageReturn(line) == line && !IsBlank(line)
  {
    var line := PrintEntry(entry);
    TokensOfPair(entry.key, entry.value);
    assert forall i :: 0 <= i < |entry.key| ==> line[i] == entry.key[i];
    assert forall i :: |entry.key| < i < |line| ==> line[i] == entry.value[i - |entry.key| - 1];
  }
}
