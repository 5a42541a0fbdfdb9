/** `memory.numa_stat`: for each field, one number per NUMA node (`anon N0=4096 N2=8192`). */
module NumaStat {
  import opened Wrappers
  import opened Errors
  import opened Text
  import opened Decimal
  import opened LastWins
  import opened Traversal
  import opened MemoryFields
  import opened EagerStat

  type Nodes = map<nat, nat>

  function ParseNode(field: string, token: string): Result<Pair<nat, nat>, ParseError> {
    match SplitOnce(token, '=')
    case None => Err(Invalid("node", token))
    case Some((node, value)) =>
      match StripPrefix(node, "N")
      case None => Err(Invalid("node", token))
      case Some(id) =>
        match ParseUnsigned(id, U32_MAX)
        case None => Err(Invalid("node", token))
        case Some(n) =>
          match ParseUnsigned(value, U64_MAX)
          case None => Err(Invalid(field, value))
          case Some(v) => Ok(Pair(n, v))
  }

  function ParseEach(field: string, tokens: seq<string>): Result<seq<Pair<nat, nat>>, ParseError> {
    ReadAll(tokens, (token: string) => ParseNode(field, token))
  }

  function ParseNodes(field: string, tokens: seq<string>): Result<Nodes, ParseError> {
    if tokens == [] then Err(Missing("node"))
    else
      var pairs :- ParseEach(field, tokens);
      Ok(Collect(pairs))
  }

  function SplitLine(line: string): Result<Pair<string, seq<string>>, ParseError> {
    var tokens := Tokens(line);
    if tokens == [] then Err(Missing("key")) else Ok(Pair(tokens[0], tokens[1..]))
  }

  function Parse(contents: string): Result<Snapshot<Nodes>, ParseError> {
    FromLines(VisibleLines(Lines(contents)), SplitLine, ParseNodes)
  }

  class NumaStat {
    var bytes: map<string, Nodes>
    var pages: map<string, Nodes>
    var counts: map<string, Nodes>

    constructor ()
      ensures View() == Empty()
    {
      bytes, pages, counts := map[], map[], map[];
    }

    function View(): Snapshot<Nodes>
      reads this
    {
      Snapshot(bytes, pages, counts)
    }

    method Insert(key: string, tokens: seq<string>) returns (r: Result<(), ParseError>)
      modifies this
      ensures EagerStat.Insert(old(View()), Pair(key, tokens), ParseNodes) ==
              match r { case Ok(_) => Ok(View()) case Err(error) => Err(error) }
      ensures r.Err? ==> View() == old(View())
    {
      if key in BYTE_FIELDS {
        var nodes :- ParseNodes(key, tokens);
        bytes := bytes[key := nodes];
      } else if key in PAGE_FIELDS {
        var nodes :- ParseNodes(key, tokens);
        pages := pages[key := nodes];
      } else if key in COUNT_FIELDS {
        var nodes :- ParseNodes(key, tokens);
        counts := counts[key := nodes];
      }
      r := Ok(());
    }

    static method FromStr(contents: string) returns (r: Result<NumaStat, ParseError>)
      ensures r.Ok? ==> fresh(r.value)
      ensures Parse(contents) == match r { case Ok(stat) => Ok(stat.View()) case Err(error) => Err(error) }
    {
      var lines := VisibleLines(Lines(contents));
      var stat := new NumaStat();
      for i := 0 to |lines|
        invariant fresh(stat)
        invariant Fold(lines, SplitLine, ParseNodes, Empty()) == Fold(lines[i..], SplitLine, ParseNodes, stat.View())
      {
        var line :- SplitLine(lines[i]);
        var _ :- stat.Insert(line.key, line.value);
        assert lines[i..][1..] == lines[i + 1..];
      }
      match stat.View().MissingBaseline() {
        case Some(field) => r := Err(Missing(field));
        case None => r := Ok(stat);
      }
    }
  }

  // ---------- tokens and nodes ----------

  /** `N<id>=<value>`, with a 32-bit node ID and a 64-bit value. */
  ghost predicate SpellsNode(token: string, pair: Pair<nat, nat>) {
    exists id: string, value: string ::
      && token == "N" + id + "=" + value
      && DenotesUnsigned(id, pair.key) && pair.key <= 4_294_967_295
      && DenotesUnsigned(value, pair.value) && pair.value <= 18_446_744_073_709_551_615
  }

  lemma SpellsParts(token: string, pair: Pair<nat, nat>)
    ensures SpellsNode(token, pair) <==>
            && SplitOnce(token, '=').Some?
            && var (node, value) := SplitOnce(token, '=').value;
               && StripPrefix(node, "N").Some?
               && DenotesUnsigned(StripPrefix(node, "N").value, pair.key) && pair.key <= U32_MAX
               && DenotesUnsigned(value, pair.value) && pair.value <= U64_MAX
  {
    if SplitOnce(token, '=').Some? {
      var (node, value) := SplitOnce(token, '=').value;
      SplitOnceExact(token, '=', node, value);
      assert token == node + "=" + value;
    }
    forall id: string, value: string | token == "N" + id + "=" + value && DenotesUnsigned(id, pair.key)
      ensures SplitOnce(token, '=') == Some(("N" + id, value)) && StripPrefix("N" + id, "N") == Some(id)
    {
      NodeTokenSplits(token, id, value);
    }
  }

  lemma NodeTokenSplits(token: string, id: string, value: string)
    requires token == "N" + id + "=" + value && IsNumeral(Unsigned(id))
    ensures SplitOnce(token, '=') == Some(("N" + id, value)) && StripPrefix("N" + id, "N") == Some(id)
  {
    UnsignedIsPlain(id);
    var node := "N" + id;
    assert forall i :: 0 < i < |node| ==> node[i] == id[i - 1];
    assert node[1..] == id;
    SplitOnceExact(token, '=', node, value);
  }

  lemma ParseNodeExact(field: string, token: string, pair: Pair<nat, nat>)
    ensures ParseNode(field, token) == Ok(pair) <==> SpellsNode(token, pair)
  {
    SpellsParts(token, pair);
    if SplitOnce(token, '=').Some? {
      var (node, value) := SplitOnce(token, '=').value;
      ParseUnsignedExact(value, U64_MAX, pair.value);
      if StripPrefix(node, "N").Some? {
        ParseUnsignedExact(StripPrefix(node, "N").value, U32_MAX, pair.key);
      }
    }
  }

  /** A token up to its equals sign: `N` and a 32-bit number. */
  ghost predicate SpellsNodeBefore(token: string, value: string) {
    exists id: string, n: nat :: token == "N" + id + "=" + value && DenotesUnsigned(id, n) && n <= 4_294_967_295
  }

  /** The node before the first equals sign, if there is one and it is well formed. */
  function NodeBefore(token: string): Option<nat> {
    match SplitOnce(token, '=')
    case None => None
    case Some((node, _)) =>
      match StripPrefix(node, "N")
      case None => None
      case Some(id) => ParseUnsigned(id, U32_MAX)
  }

  lemma NodeBeforeExact(token: string, value: string)
    ensures SpellsNodeBefore(token, value) <==> NodeBefore(token).Some? && SplitOnce(token, '=').value.1 == value
  {
    if NodeBefore(token).Some? && SplitOnce(token, '=').value.1 == value {
      var node := SplitOnce(token, '=').value.0;
      var id := StripPrefix(node, "N").value;
      SplitOnceExact(token, '=', node, value);
      ParseUnsignedExact(id, U32_MAX, NodeBefore(token).value);
      assert token == "N" + id + "=" + value;
    }
    if SpellsNodeBefore(token, value) {
      var id: string, n: nat :| token == "N" + id + "=" + value && DenotesUnsigned(id, n) && n <= 4_294_967_295;
      NodeTokenSplits(token, id, value);
      ParseUnsignedExact(id, U32_MAX, n);
    }
  }

  /** A malformed node is reported with the whole token, a malformed value as one of the field. */
  lemma ParseNodeErrors(field: string, token: string, error: ParseError)
    ensures ParseNode(field, token) == Err(error) <==>
            || (error == Invalid("node", token) && forall value :: !SpellsNodeBefore(token, value))
            || exists value :: SpellsNodeBefore(token, value) && ParseUnsigned(value, U64_MAX).None? && error == Invalid(field, value)
  {
    forall value
      ensures SpellsNodeBefore(token, value) <==> NodeBefore(token).Some? && SplitOnce(token, '=').value.1 == value
    {
      NodeBeforeExact(token, value);
    }
    if NodeBefore(token).Some? {
      assert SpellsNodeBefore(token, SplitOnce(token, '=').value.1);
    }
  }

  /** The first of these tokens that is no node of the field has this error. */
  predicate IsFirstBadNode(field: string, tokens: seq<string>, error: ParseError) {
    exists i :: 0 <= i < |tokens| && ParseNode(field, tokens[i]) == Err(error)
      && forall j :: 0 <= j < i ==> ParseNode(field, tokens[j]).Ok?
  }

  lemma NodesErrors(field: string, tokens: seq<string>, error: ParseError)
    ensures ParseNodes(field, tokens) == Err(error) <==>
            if tokens == [] then error == Missing("node") else IsFirstBadNode(field, tokens, error)
  {
    FirstErrorWins(tokens, (token: string) => ParseNode(field, token), error);
  }

  /** What is wrong with a line: nothing after a known field, or its first token that is no node. */
  lemma LineErrors(line: string, error: ParseError)
    requires !IsBlank(line)
    ensures Tokens(line) != []
    ensures IsLineError(line, SplitLine, ParseNodes, error) <==>
            var field, rest := Tokens(line)[0], Tokens(line)[1..];
            && UnitOf(field).Some?
            && if rest == [] then error == Missing("node") else IsFirstBadNode(field, rest, error)
  {
    VisibleLineHasToken(line);
    NodesErrors(Tokens(line)[0], Tokens(line)[1..], error);
  }

  lemma ParseEachExact(field: string, tokens: seq<string>, pairs: seq<Pair<nat, nat>>)
    ensures ParseEach(field, tokens) == Ok(pairs) <==>
            |pairs| == |tokens| && forall i :: 0 <= i < |tokens| ==> SpellsNode(tokens[i], pairs[i])
  {
    ReadAllExact(tokens, (token: string) => ParseNode(field, token), pairs);
    forall i | 0 <= i < |tokens| && i < |pairs|
      ensures ParseNode(field, tokens[i]) == Ok(pairs[i]) <==> SpellsNode(tokens[i], pairs[i])
    {
      ParseNodeExact(field, tokens[i], pairs[i]);
    }
  }

  /** A line is accepted exactly when it has node tokens only, and at least one of them. */
  lemma ParseNodesExact(field: string, tokens: seq<string>, nodes: Nodes)
    ensures ParseNodes(field, tokens) == Ok(nodes) <==>
            && tokens != []
            && exists pairs: seq<Pair<nat, nat>> ::
                 && |pairs| == |tokens|
                 && (forall i :: 0 <= i < |tokens| ==> SpellsNode(tokens[i], pairs[i]))
                 && nodes == Collect(pairs)
  {
    var each := ParseEach(field, tokens);
    if each.Ok? {
      ParseEachExact(field, tokens, each.value);
    }
    forall pairs: seq<Pair<nat, nat>> |
      |pairs| == |tokens| && forall i :: 0 <= i < |tokens| ==> SpellsNode(tokens[i], pairs[i])
      ensures each == Ok(pairs)
    {
      ParseEachExact(field, tokens, pairs);
    }
  }

  /**
   A repeated field replaces its whole node map: what is stored is the reading of its last
   line alone, so a node that only an earlier line names is gone.
   */
  lemma RepeatedFieldReplaces(contents: string, measure: Unit, field: string, lines: seq<Pair<string, seq<string>>>)
    requires Parse(contents).Ok?
    requires Splits(VisibleLines(Lines(contents)), SplitLine, lines)
    ensures Parse(contents).value.Get(measure, field).Some? <==>
            UnitOf(field) == Some(measure) && LastValue(lines, field).Some?
    ensures Parse(contents).value.Get(measure, field).Some? ==>
              && ParseNodes(field, LastValue(lines, field).value) == Ok(Parse(contents).value.Get(measure, field).value)
              && forall node: nat :: node in Parse(contents).value.Get(measure, field).value <==>
                   exists token <- LastValue(lines, field).value, n: nat :: SpellsNode(token, Pair(node, n))
  {
    var visible := VisibleLines(Lines(contents));
    FromLinesExact(visible, SplitLine, ParseNodes);
    FoldExact(visible, SplitLine, lines, ParseNodes, Empty());
    LastValueIsListed(lines, field);
    if UnitOf(field) == Some(measure) && LastValue(lines, field).Some? {
      var tokens := LastValue(lines, field).value;
      var nodes := ParseNodes(field, tokens).value;
      NodesAreTokens(field, tokens);
      assert Parse(contents).value.Get(measure, field) == Some(nodes);
    }
  }

  lemma NodesAreTokens(field: string, tokens: seq<string>)
    requires ParseNodes(field, tokens).Ok?
    ensures forall node: nat :: node in ParseNodes(field, tokens).value <==>
              exists token <- tokens, n: nat :: SpellsNode(token, Pair(node, n))
  {
    var pairs := ParseEach(field, tokens).value;
    ParseEachExact(field, tokens, pairs);
    forall node: nat ensures node in Collect(pairs) <==> exists token <- tokens, n: nat :: SpellsNode(token, Pair(node, n)) {
      CollectIsLastValue(pairs, node);
      LastValueIsListed(pairs, node);
      if node in Collect(pairs) {
        var i :| 0 <= i < |pairs| && pairs[i].key == node;
        assert SpellsNode(tokens[i], Pair(node, pairs[i].value)) && tokens[i] in tokens;
      }
      forall i, n: nat | 0 <= i < |tokens| && SpellsNode(tokens[i], Pair(node, n)) ensures pairs[i].key == node {
        ParseNodeExact(field, tokens[i], pairs[i]);
        ParseNodeExact(field, tokens[i], Pair(node, n));
      }
    }
  }
}
