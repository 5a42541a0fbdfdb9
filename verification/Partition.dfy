/** The state of `cpuset.cpus.partition`, with the kernel's diagnostic reason kept verbatim. */
module Partition {
  import opened Wrappers
  import opened Errors
  import opened Text

  const SEPARATOR := " invalid ("

  datatype Partition =
    | Member
    | Root
    | Isolated
    | RootInvalid(reason: Option<string>)
    | IsolatedInvalid(reason: Option<string>)
  {
    function State(): string {
      match this
      case Member => "member"
      case Root => "root"
      case RootInvalid(_) => "root"
      case Isolated => "isolated"
      case IsolatedInvalid(_) => "isolated"
    }

    predicate IsInvalid() {
      RootInvalid? || IsolatedInvalid?
    }

    function Reason(): Option<string> {
      if IsInvalid() then reason else None
    }

    /** A reason the kernel can report: visible text on one line. */
    predicate IsReportable() {
      Reason().Some? ==> IsReason(Reason().value)
    }

    /** The text the kernel writes. */
    function Print(): string {
      if !IsInvalid() then State()
      else
        match reason
        case None => State() + " invalid"
        case Some(why) => State() + " invalid (" + (why + ")")
    }
  }

  predicate IsReason(reason: string) {
    !IsBlank(reason) && !Contains(reason, '\n') && !Contains(reason, '\r')
  }

  predicate OccursAt(s: string, pattern: string, at: nat) {
    at <= |s| && pattern <= s[at..]
  }

  lemma OccursLater(s: string, pattern: string)
    requires s != []
    ensures forall at: nat :: OccursAt(s, pattern, at + 1) <==> OccursAt(s[1..], pattern, at)
    ensures forall at: nat :: at > 0 ==> (OccursAt(s, pattern, at) <==> OccursAt(s[1..], pattern, at - 1))
  {
    assert forall at: nat :: at < |s| ==> s[at + 1..] == s[1..][at..];
  }

  /** `str::split_once` on a longer separator: split at its first occurrence. */
  function SplitOnceAtText(s: string, pattern: string): (r: Option<(string, string)>)
    ensures r.None? ==> forall at: nat :: !OccursAt(s, pattern, at)
    ensures r.Some? ==>
              && s == r.value.0 + pattern + r.value.1
              && forall at: nat :: at < |r.value.0| ==> !OccursAt(s, pattern, at)
  {
    if pattern <= s then
      Some(([], s[|pattern|..]))
    else if s == [] then
      None
    else
      var rest := SplitOnceAtText(s[1..], pattern);
      OccursLater(s, pattern);
      match rest
      case None => None
      case Some((before, after)) => Some(([s[0]] + before, after))
  }

  function Parse(raw: string): Result<Partition, ParseError> {
    ParseValue(Trim(raw))
  }

  function ParseValue(value: string): Result<Partition, ParseError> {
    if value == "" then Err(Missing("partition"))
    else if value == "member" then Ok(Member)
    else if value == "root" then Ok(Root)
    else if value == "isolated" then Ok(Isolated)
    else if value == "root invalid" then Ok(RootInvalid(None))
    else if value == "isolated invalid" then Ok(IsolatedInvalid(None))
    else
      match ParseReasoned(value)
      case None => Err(Invalid("partition", value))
      case Some(partition) => Ok(partition)
  }

  /** An invalid root with its reason in parentheses. */
  function ParseReasoned(value: string): (r: Option<Partition>)
    ensures r.Some? ==>
              && r.value.Reason().Some?
              && IsReason(r.value.Reason().value)
              && value == r.value.Print()
  {
    match SplitOnceAtText(value, SEPARATOR)
    case None => None
    case Some((state, rest)) =>
      match StripSuffix(rest, ")")
      case None => None
      case Some(reason) =>
        if !IsReason(reason) then None
        else if state == "root" then Some(RootInvalid(Some(reason)))
        else if state == "isolated" then Some(IsolatedInvalid(Some(reason)))
        else None
  }

  /** Whatever the reason holds, even the separator itself, the split finds the state before it. */
  lemma SplitAfterState(state: string, rest: string)
    requires !Contains(state, ' ')
    ensures SplitOnceAtText(state + SEPARATOR + rest, SEPARATOR) == Some((state, rest))
  {
    var s := state + SEPARATOR + rest;
    assert s[|state|..] == SEPARATOR + rest;
    assert OccursAt(s, SEPARATOR, |state|);
    var (before, after) := SplitOnceAtText(s, SEPARATOR).value;
    assert s[|before|] == SEPARATOR[0] == ' ';
    assert forall i :: 0 <= i < |state| ==> s[i] == state[i];
    assert s[..|state|] == state && s[..|before|] == before;
    assert s[|state| + |SEPARATOR|..] == rest && s[|before| + |SEPARATOR|..] == after;
  }

  lemma PrintIsTrimmed(partition: Partition)
    ensures IsTrimmed(partition.Print()) && partition.Print() != []
  {
    var state := partition.State();
    assert !IsWhitespace(state[0]);
    if partition.Reason().Some? {
      var text := partition.Print();
      assert text[0] == state[0] && text[|text| - 1] == ')';
    }
  }

  lemma ParseReasonedPrint(partition: Partition)
    requires partition.Reason().Some? && partition.IsReportable()
    ensures ParseReasoned(partition.Print()) == Some(partition)
  {
    var state, reason := partition.State(), partition.Reason().value;
    var rest := reason + ")";
    assert partition.Print() == state + SEPARATOR + rest;
    SplitAfterState(state, rest);
    assert rest[..|reason|] == reason;
  }

  lemma ParseValuePrint(partition: Partition)
    requires partition.IsReportable()
    ensures ParseValue(partition.Print()) == Ok(partition)
  {
    var text := partition.Print();
    if partition.Reason().Some? {
      ParseReasonedPrint(partition);
      assert text[|text| - 1] == ')';
    }
  }

  lemma AcceptedIsPrinted(value: string)
    requires ParseValue(value).Ok?
    ensures ParseValue(value).value.IsReportable() && value == ParseValue(value).value.Print()
  {
    if value == "member" || value == "root" || value == "isolated" {
    } else if value == "root invalid" {
      assert "root" + " invalid" == "root invalid";
    } else if value == "isolated invalid" {
      assert "isolated" + " invalid" == "isolated invalid";
    } else {
      assert ParseReasoned(value).Some?;
    }
  }

  /** Every reportable state survives its kernel text, whatever characters its reason holds. */
  lemma ParsePrint(partition: Partition)
    requires partition.IsReportable()
    ensures Parse(partition.Print()) == Ok(partition)
  {
    PrintIsTrimmed(partition);
    TrimmedIsFixed(partition.Print());
    ParseValuePrint(partition);
  }

  /** A text is accepted exactly when, trimmed, it is the kernel text of a reportable state. */
  lemma ParseExact(raw: string, partition: Partition)
    ensures Parse(raw) == Ok(partition) <==> partition.IsReportable() && Trim(raw) == partition.Print()
  {
    if Parse(raw) == Ok(partition) {
      AcceptedIsPrinted(Trim(raw));
    } else if partition.IsReportable() && Trim(raw) == partition.Print() {
      ParseValuePrint(partition);
    }
  }

  /** Blank text is a missing state; other text that is refused is reported trimmed. */
  lemma ParseErrors(raw: string, error: ParseError)
    requires Parse(raw) == Err(error)
    ensures error == if IsBlank(raw) then Missing("partition") else Invalid("partition", Trim(raw))
  {
    BlankTrimsToNothing(raw);
  }

  /** The three getters together lose nothing. */
  lemma GettersDetermine(one: Partition, other: Partition)
    requires one.State() == other.State()
    requires one.IsInvalid() == other.IsInvalid() && one.Reason() == other.Reason()
    ensures one == other
  {
    assert "root"[0] != "isolated"[0] && "root"[0] != "member"[0] && "member"[0] != "isolated"[0];
  }
}
