/**
 Text operations the parsers are written in, over sequences of Unicode characters.
 They follow the documented behaviour of Rust's `str`: `trim`, `split`, `split_once`,
 `lines` and `split_ascii_whitespace`.
 */
module Text {
  import opened Wrappers
  import opened Traversal

  /** The Unicode White_Space property, which `trim` uses. */
  predicate IsWhitespace(c: char) {
    || '\t' <= c <= '\r'
    || c == ' ' || c == '\U{0085}' || c == '\U{00A0}' || c == '\U{1680}'
    || c == '\U{2028}' || c == '\U{2029}' || c == '\U{202F}' || c == '\U{205F}' || c == '\U{3000}'
    || '\U{2000}' <= c <= '\U{200A}'
  }

  /** ASCII whitespace, which separates tokens. Unlike `IsWhitespace` it has no vertical tab. */
  predicate IsAsciiWhitespace(c: char)
    ensures IsAsciiWhitespace(c) ==> IsWhitespace(c)
  {
    c == ' ' || c == '\t' || c == '\n' || c == '\r' || c == '\U{000C}'
  }

  /** Text that trims to nothing; see `BlankTrimsToNothing`. */
  predicate IsBlank(s: string) {
    forall i :: 0 <= i < |s| ==> IsWhitespace(s[i])
  }

  // ---------- trim ----------

  lemma BlankFirst(s: string, n: nat)
    requires s != [] && n < |s| && IsWhitespace(s[0]) && IsBlank(s[1..][..n])
    ensures IsBlank(s[..n + 1]) && s[1..][n..] == s[n + 1..]
  {
    forall i | 0 < i <= n ensures IsWhitespace(s[i]) {
      assert s[i] == s[1..][..n][i - 1];
    }
  }

  function TrimStart(s: string): (r: string)
    ensures |r| <= |s| && r == s[|s| - |r|..]
    ensures IsBlank(s[..|s| - |r|])
    ensures r != [] ==> !IsWhitespace(r[0])
  {
    if s != [] && IsWhitespace(s[0]) then
      var rest := s[1..];
      var r := TrimStart(rest);
      var n := |rest| - |r|;
      assert r == rest[n..] && IsBlank(rest[..n]);
      BlankFirst(s, n);
      r
    else s
  }

  function TrimEnd(s: string): (r: string)
    ensures |r| <= |s| && r == s[..|r|]
    ensures IsBlank(s[|r|..])
    ensures r != [] ==> !IsWhitespace(r[|r| - 1])
  {
    if s != [] && IsWhitespace(s[|s| - 1]) then
      var r := TrimEnd(s[..|s| - 1]);
      assert s[|r|..] == s[..|s| - 1][|r|..] + [s[|s| - 1]];
      r
    else s
  }

  function Trim(s: string): string {
    TrimEnd(TrimStart(s))
  }

  /** Text that starts and ends with a visible character: exactly what `Trim` returns. */
  predicate IsTrimmed(s: string) {
    s != [] ==> !IsWhitespace(s[0]) && !IsWhitespace(s[|s| - 1])
  }

  /** Trimming returns trimmed text, and leaves only text that is trimmed already alone. */
  lemma TrimmedIsFixed(s: string)
    ensures IsTrimmed(Trim(s))
    ensures Trim(s) == s <==> IsTrimmed(s)
  {
    var t := TrimStart(s);
    var r := TrimEnd(t);
    if r != [] {
      assert r[0] == t[0];
    }
  }

  lemma SliceOfSuffix<T>(s: seq<T>, i: nat, n: nat)
    requires i + n <= |s|
    ensures s[i..][..n] == s[i..i + n] && s[i..][n..] == s[i + n..]
  {
  }

  /** What is trimmed away is blank, on both sides. */
  lemma TrimExact(s: string) returns (from: nat, to: nat)
    ensures from <= to <= |s| && Trim(s) == s[from..to]
    ensures IsBlank(s[..from]) && IsBlank(s[to..])
  {
    var t := TrimStart(s);
    from, to := |s| - |t|, |s| - |t| + |TrimEnd(t)|;
    SliceOfSuffix(s, from, |TrimEnd(t)|);
  }

  lemma BlankTrimsToNothing(s: string)
    ensures Trim(s) == [] <==> IsBlank(s)
  {
    var t := TrimStart(s);
    var n := |s| - |t|;
    if t == [] {
      assert s[..n] == s;
    } else {
      assert t[0] == s[n];
      assert t[0..] == t;
    }
  }

  // ---------- split and join ----------

  predicate Contains(s: string, c: char) {
    exists i :: 0 <= i < |s| && s[i] == c
  }

  lemma ContainsJoined(before: string, separator: char, after: string, c: char)
    ensures Contains(before + [separator] + after, c) <==> Contains(before, c) || separator == c || Contains(after, c)
  {
    var s := before + [separator] + after;
    assert forall i :: 0 <= i < |before| ==> before[i] == s[i];
    assert s[|before|] == separator;
    assert forall i :: 0 <= i < |after| ==> after[i] == s[|before| + 1 + i];
    assert forall i :: |before| < i < |s| ==> s[i] == after[i - |before| - 1];
  }

  function Find(s: string, c: char): (r: Option<nat>)
    ensures r.None? <==> !Contains(s, c)
    ensures r.Some? ==> r.value < |s| && s[r.value] == c && !Contains(s[..r.value], c)
  {
    if s == [] then None
    else if s[0] == c then Some(0)
    else
      var rest := Find(s[1..], c);
      assert s == [s[0]] + s[1..];
      match rest
      case None => None
      case Some(i) =>
        assert s[..i + 1] == [s[0]] + s[1..][..i];
        Some(i + 1)
  }

  /** `str::split` on one character: always at least one part. */
  function Split(s: string, separator: char): (parts: seq<string>)
    ensures parts != []
  {
    match Find(s, separator)
    case None => [s]
    case Some(i) => [s[..i]] + Split(s[i + 1..], separator)
  }

  function Join(parts: seq<string>, separator: char): string {
    if parts == [] then []
    else if |parts| == 1 then parts[0]
    else parts[0] + [separator] + Join(parts[1..], separator)
  }

  lemma FindFirst(before: string, c: char, after: string)
    requires !Contains(before, c)
    ensures Find(before + [c] + after, c) == Some(|before|)
  {
    var s := before + [c] + after;
    assert s[|before|] == c;
    var r := Find(s, c);
    assert forall i :: |before| < i < |s| ==> s[..i][|before|] == c;
  }

  lemma {:induction false} SplitJoin(parts: seq<string>, separator: char)
    requires parts != []
    requires forall i :: 0 <= i < |parts| ==> !Contains(parts[i], separator)
    ensures Split(Join(parts, separator), separator) == parts
  {
    if |parts| > 1 {
      var rest := Join(parts[1..], separator);
      FindFirst(parts[0], separator, rest);
      SplitJoin(parts[1..], separator);
      var s := parts[0] + [separator] + rest;
      assert s[..|parts[0]|] == parts[0];
      assert s[|parts[0]| + 1..] == rest;
    }
  }

  /** The parts determine the text, and none of them holds a separator. */
  lemma {:induction false} JoinSplit(s: string, separator: char)
    ensures Join(Split(s, separator), separator) == s
    ensures forall i :: 0 <= i < |Split(s, separator)| ==> !Contains(Split(s, separator)[i], separator)
    decreases |s|
  {
    match Find(s, separator)
    case None =>
    case Some(i) =>
      JoinSplit(s[i + 1..], separator);
      assert s == s[..i] + [s[i]] + s[i + 1..];
  }

  function SplitOnce(s: string, separator: char): (r: Option<(string, string)>)
    ensures r.None? <==> !Contains(s, separator)
  {
    match Find(s, separator)
    case None => None
    case Some(i) => Some((s[..i], s[i + 1..]))
  }

  /** The split is at the first separator, and no other decomposition has none before it. */
  lemma SplitOnceExact(s: string, separator: char, before: string, after: string)
    ensures SplitOnce(s, separator) == Some((before, after)) <==>
            s == before + [separator] + after && !Contains(before, separator)
  {
    if s == before + [separator] + after && !Contains(before, separator) {
      SplitOnceAt(before, separator, after);
    }
    if SplitOnce(s, separator) == Some((before, after)) {
      var i := Find(s, separator).value;
      assert s == s[..i] + [s[i]] + s[i + 1..];
    }
  }

  lemma SplitOnceAt(before: string, separator: char, after: string)
    requires !Contains(before, separator)
    ensures SplitOnce(before + [separator] + after, separator) == Some((before, after))
  {
    FindFirst(before, separator, after);
    var s := before + [separator] + after;
    assert s[..|before|] == before && s[|before| + 1..] == after;
  }

  /** `str::strip_prefix`, and `Path::strip_prefix` when the items are path components. */
  function StripPrefix<T(==)>(s: seq<T>, prefix: seq<T>): (r: Option<seq<T>>)
    ensures r.Some? <==> prefix <= s
    ensures r.Some? ==> s == prefix + r.value
  {
    if prefix <= s then Some(s[|prefix|..]) else None
  }

  function StripSuffix(s: string, suffix: string): (r: Option<string>)
    ensures r.Some? ==> s == r.value + suffix
    ensures r.None? ==> forall t: string :: s != t + suffix
  {
    if |suffix| <= |s| && s[|s| - |suffix|..] == suffix then
      Some(s[..|s| - |suffix|])
    else
      None
  }

  // ---------- lines and tokens ----------

  function StripCarriageReturn(s: string): string {
    if s != [] && s[|s| - 1] == '\r' then s[..|s| - 1] else s
  }

  /** `str::lines`: the final line ending is optional and `\r\n` ends a line too. */
  function Lines(s: string): seq<string> {
    if s == [] then []
    else
      match Find(s, '\n')
      case None => [s]
      case Some(i) => [StripCarriageReturn(s[..i])] + Lines(s[i + 1..])
  }

  lemma FirstLine(line: string, rest: string)
    requires !Contains(line, '\n')
    ensures Lines(line + "\n" + rest) == [StripCarriageReturn(line)] + Lines(rest)
  {
    FindFirst(line, '\n', rest);
    var s := line + "\n" + rest;
    assert s[..|line|] == line && s[|line| + 1..] == rest;
  }

  lemma CarriageReturn(line: string)
    ensures StripCarriageReturn(line + "\r") == line
    ensures (forall body: string :: line != body + "\r") ==> StripCarriageReturn(line) == line
    ensures Contains(line + "\r", '\n') ==> Contains(line, '\n')
  {
    assert (line + "\r")[..|line|] == line;
    assert line != [] && line[|line| - 1] == '\r' ==> line == line[..|line| - 1] + "\r";
    assert forall i :: 0 <= i < |line| ==> (line + "\r")[i] == line[i];
  }

  lemma Reassociate(a: string, b: string, c: string, d: string)
    ensures a + (b + c) + d == (a + b) + c + d
  {
  }

  lemma CarriageReturnLine(line: string, rest: string)
    requires !Contains(line, '\n')
    ensures Lines(line + "\r\n" + rest) == [line] + Lines(rest)
  {
    CarriageReturn(line);
    FirstLine(line + "\r", rest);
    assert "\r\n" == "\r" + "\n";
    Reassociate(line, "\r", "\n", rest);
  }

  /** Nothing, a last line without an ending, or a line with one of the two endings first. */
  lemma LinesExact(line: string, rest: string)
    requires !Contains(line, '\n')
    ensures Lines([]) == []
    ensures line != [] ==> Lines(line) == [line]
    ensures (forall body: string :: line != body + "\r") ==> Lines(line + "\n" + rest) == [line] + Lines(rest)
    ensures Lines(line + "\r\n" + rest) == [line] + Lines(rest)
  {
    CarriageReturn(line);
    FirstLine(line, rest);
    CarriageReturnLine(line, rest);
  }

  lemma LinesOfLine(line: string, rest: string)
    requires !Contains(line, '\n') && StripCarriageReturn(line) == line
    ensures Lines(line + "\n" + rest) == [line] + Lines(rest)
  {
    FirstLine(line, rest);
  }

  /** The lines the interface parsers look at: those that are not blank. */
  function VisibleLines(lines: seq<string>): (r: seq<string>)
    ensures forall line <- r :: line in lines && !IsBlank(line)
  {
    Filter(lines, line => !IsBlank(line))
  }

  /** The visible lines are those that do not trim to nothing, in the order of the file. */
  lemma VisibleLinesExact(lines: seq<string>, line: string)
    ensures VisibleLines([]) == []
    ensures VisibleLines(lines + [line]) == if Trim(line) == [] then VisibleLines(lines) else VisibleLines(lines) + [line]
  {
    FilterAppend(lines, line, line => !IsBlank(line));
    BlankTrimsToNothing(line);
  }

  predicate IsWord(s: string) {
    s != [] && forall i :: 0 <= i < |s| ==> !IsAsciiWhitespace(s[i])
  }

  function WordLength(s: string): (n: nat)
    ensures n <= |s|
    ensures forall i :: 0 <= i < n ==> !IsAsciiWhitespace(s[i])
    ensures n < |s| ==> IsAsciiWhitespace(s[n])
  {
    if s == [] || IsAsciiWhitespace(s[0]) then 0 else 1 + WordLength(s[1..])
  }

  /** `str::split_ascii_whitespace`. */
  function Tokens(s: string): (tokens: seq<string>)
    ensures forall token <- tokens :: IsWord(token)
    decreases |s|
  {
    if s == [] then []
    else if IsAsciiWhitespace(s[0]) then Tokens(s[1..])
    else
      var n := WordLength(s);
      [s[..n]] + Tokens(s[n..])
  }

  lemma TokensOfWord(word: string, rest: string)
    requires IsWord(word)
    requires rest != [] ==> IsAsciiWhitespace(rest[0])
    ensures Tokens(word + rest) == [word] + Tokens(rest)
  {
    var s := word + rest;
    var n := WordLength(s);
    assert forall i :: 0 <= i < |word| ==> s[i] == word[i];
    assert rest != [] ==> s[|word|] == rest[0];
    assert s[..n] == word && s[n..] == rest;
  }

  /** These three cases are all there are: nothing, white space first, or a word first. */
  lemma TokensExact(word: string, space: char, rest: string)
    requires IsWord(word) && IsAsciiWhitespace(space)
    ensures Tokens([]) == []
    ensures Tokens([space] + rest) == Tokens(rest)
    ensures Tokens(word) == [word]
    ensures Tokens(word + [space] + rest) == [word] + Tokens(rest)
  {
    assert ([space] + rest)[1..] == rest;
    TokensOfWord(word, []);
    assert word + [] == word;
    TokensOfWord(word, [space] + rest);
    assert word + [space] + rest == word + ([space] + rest);
  }

  /** Two words with one space between them are two tokens. */
  lemma TokensOfPair(first: string, second: string)
    requires IsWord(first) && IsWord(second)
    ensures Tokens(first + " " + second) == [first, second]
  {
    assert first + " " + second == first + (" " + second);
    TokensOfWord(first, " " + second);
    assert (" " + second)[1..] == second;
    TokensOfWord(second, []);
    assert second + [] == second;
  }

  /**
   A line that is not blank has a first token, although blankness is judged by Unicode
   white space and tokens are separated by ASCII white space.
   */
  lemma {:induction false} VisibleLineHasToken(line: string)
    requires !IsBlank(line)
    ensures Tokens(line) != []
  {
    if IsAsciiWhitespace(line[0]) {
      assert IsWhitespace(line[0]);
      if IsBlank(line[1..]) {
        forall i | 0 <= i < |line| ensures IsWhitespace(line[i]) {
          assert i > 0 ==> line[i] == line[1..][i - 1];
        }
      }
      VisibleLineHasToken(line[1..]);
    }
  }
}
