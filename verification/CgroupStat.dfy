/** `cgroup.stat`: two totals, and counts per controller under two key prefixes. */
module CgroupStat {
  import opened Wrappers
  import opened Errors
  import opened Text
  import opened Decimal
  import opened LastWins
  import opened Traversal
  import opened OrderedMap
  import Keyed

  // ---------- controller names ----------

  datatype Controller =
    | Cpu | Cpuset | Io | Memory | Hugetlb | Pids | Rdma | Misc | Dmem | PerfEvent
    | Other(name: string)
  {
    function Print(): string {
      match this
      case Cpu => "cpu"
      case Cpuset => "cpuset"
      case Io => "io"
      case Memory => "memory"
      case Hugetlb => "hugetlb"
      case Pids => "pids"
      case Rdma => "rdma"
      case Misc => "misc"
      case Dmem => "dmem"
      case PerfEvent => "perf_event"
      case Other(name) => name
    }

    /** Every controller except `Other` with a name that has a variant of its own. */
    predicate IsCanonical() {
      Other? ==> name !in NAMES
    }
  }

  const NAMES: seq<string> :=
    ["cpu", "cpuset", "io", "memory", "hugetlb", "pids", "rdma", "misc", "dmem", "perf_event"]

  function FromName(name: string): Controller {
    if name == "cpu" then Cpu
    else if name == "cpuset" then Cpuset
    else if name == "io" then Io
    else if name == "memory" then Memory
    else if name == "hugetlb" then Hugetlb
    else if name == "pids" then Pids
    else if name == "rdma" then Rdma
    else if name == "misc" then Misc
    else if name == "dmem" then Dmem
    else if name == "perf_event" then PerfEvent
    else Other(name)
  }

  /** No name is lost or changed, known or not, so distinct names are distinct controllers. */
  lemma NameRoundTrip(name: string)
    ensures FromName(name).Print() == name
    ensures FromName(name).IsCanonical()
  {
  }

  /**
   A controller is read back from its name unless it is `Other` with a known name, which a
   caller can build but no file produces.
   */
  lemma ControllerRoundTrip(controller: Controller)
    ensures FromName(controller.Print()) == controller <==> controller.IsCanonical()
  {
  }

  // ---------- the subsystem maps ----------

  const LIVE := "nr_subsys_"
  const DYING := "nr_dying_subsys_"

  function Prefixed(sorted: seq<Entry>, prefix: string): seq<Entry> {
    if sorted == [] then []
    else
      (match StripPrefix(sorted[0].key, prefix)
       case None => []
       case Some(name) => [Pair(name, sorted[0].value)])
      + Prefixed(sorted[1..], prefix)
  }

  function ParseCount(value: string): Option<nat> {
    ParseUnsigned(value, U64_MAX)
  }

  function ReadSubsystem(entry: Entry, prefix: string): Result<Pair<Controller, nat>, ParseError> {
    if entry.key == [] then Err(Invalid("controller", entry.key))
    else
      match ParseCount(entry.value)
      case None => Err(Invalid(prefix, entry.value))
      case Some(count) => Ok(Pair(FromName(entry.key), count))
  }

  function ReadSubsystems(entries: seq<Entry>, prefix: string): Result<seq<Pair<Controller, nat>>, ParseError> {
    ReadAll(Prefixed(Ordered(entries), prefix), (entry: Entry) => ReadSubsystem(entry, prefix))
  }

  function ParseSubsystems(entries: seq<Entry>, prefix: string): Result<map<Controller, nat>, ParseError> {
    var pairs :- ReadSubsystems(entries, prefix);
    Ok(Collect(pairs))
  }

  datatype CgroupStat = CgroupStat(
    descendants: nat, dyingDescendants: nat, subsystems: map<Controller, nat>, dyingSubsystems: map<Controller, nat>)

  function ValueLabel(key: string): string {
    "value"
  }

  function Parse(raw: string): Result<CgroupStat, ParseError> {
    var entries :- Keyed.FileEntries(raw, ValueLabel);
    FromEntries(entries)
  }

  function FromEntries(entries: seq<Entry>): Result<CgroupStat, ParseError> {
    var descendants :- Keyed.Required(Collect(entries), "nr_descendants", ParseCount);
    var dyingDescendants :- Keyed.Required(Collect(entries), "nr_dying_descendants", ParseCount);
    var subsystems :- ParseSubsystems(entries, LIVE);
    var dyingSubsystems :- ParseSubsystems(entries, DYING);
    Ok(CgroupStat(descendants, dyingDescendants, subsystems, dyingSubsystems))
  }

  // ---------- what the maps hold ----------

  /** The count on the last line for a key, if it is one. */
  function LastCount(entries: seq<Entry>, key: string): Option<nat> {
    match LastValue(entries, key)
    case None => None
    case Some(value) => ParseCount(value)
  }

  lemma {:induction false} PrefixedExact(sorted: seq<Entry>, prefix: string, entry: Entry)
    ensures entry in Prefixed(sorted, prefix) <==> Pair(prefix + entry.key, entry.value) in sorted
  {
    if sorted != [] {
      PrefixedExact(sorted[1..], prefix, entry);
      var whole := Pair(prefix + entry.key, entry.value);
      assert whole in sorted <==> whole == sorted[0] || whole in sorted[1..];
      if prefix <= sorted[0].key {
        assert sorted[0].key == prefix + sorted[0].key[|prefix|..];
        assert whole.key[|prefix|..] == entry.key;
      }
    }
  }

  lemma SubsystemListed(entries: seq<Entry>, prefix: string, entry: Entry)
    ensures entry in Prefixed(Ordered(entries), prefix) <==> LastValue(entries, prefix + entry.key) == Some(entry.value)
  {
    PrefixedExact(Ordered(entries), prefix, entry);
    OrderedIsLastValue(entries, Pair(prefix + entry.key, entry.value));
  }

  predicate IsCounted(entries: seq<Entry>, prefix: string) {
    forall entry <- entries :: prefix <= entry.key ==> entry.key != prefix && LastCount(entries, entry.key).Some?
  }

  /** Each key with the prefix must name a controller, and its last value must be a count. */
  lemma SubsystemsAccept(entries: seq<Entry>, prefix: string)
    ensures ParseSubsystems(entries, prefix).Ok? <==> IsCounted(entries, prefix)
  {
    var found := Prefixed(Ordered(entries), prefix);
    ReadAllSucceeds(found, (entry: Entry) => ReadSubsystem(entry, prefix));
    forall entry | entry in entries && prefix <= entry.key
      ensures LastValue(entries, entry.key).Some?
      ensures Pair(entry.key[|prefix|..], LastValue(entries, entry.key).value) in found
    {
      LastValueIsListed(entries, entry.key);
      assert entry.key == prefix + entry.key[|prefix|..];
      SubsystemListed(entries, prefix, Pair(entry.key[|prefix|..], LastValue(entries, entry.key).value));
    }
    forall entry <- found
      ensures LastValue(entries, prefix + entry.key) == Some(entry.value)
      ensures Pair(prefix + entry.key, entry.value) in entries
    {
      SubsystemListed(entries, prefix, entry);
      LastValueIsListed(entries, prefix + entry.key);
    }
  }

  /** What a map must say about one controller. */
  ghost predicate IsCountOf(counts: map<Controller, nat>, entries: seq<Entry>, prefix: string, controller: Controller) {
    if controller in counts then
      controller.IsCanonical() && LastCount(entries, prefix + controller.Print()) == Some(counts[controller])
    else
      controller.IsCanonical() ==> LastValue(entries, prefix + controller.Print()) == None
  }

  lemma SubsystemAt(entries: seq<Entry>, prefix: string, i: nat)
    requires ReadSubsystems(entries, prefix).Ok?
    ensures |ReadSubsystems(entries, prefix).value| == |Prefixed(Ordered(entries), prefix)|
    ensures i < |Prefixed(Ordered(entries), prefix)| ==>
              var found, pair := Prefixed(Ordered(entries), prefix)[i], ReadSubsystems(entries, prefix).value[i];
              && FromName(found.key) == pair.key
              && LastCount(entries, prefix + found.key) == Some(pair.value)
  {
    var found := Prefixed(Ordered(entries), prefix);
    ReadAllExact(found, (entry: Entry) => ReadSubsystem(entry, prefix), ReadSubsystems(entries, prefix).value);
    if i < |found| {
      SubsystemListed(entries, prefix, found[i]);
    }
  }

  lemma SubsystemIsCounted(entries: seq<Entry>, prefix: string, controller: Controller)
    requires ReadSubsystems(entries, prefix).Ok?
    requires controller.IsCanonical() && LastValue(entries, prefix + controller.Print()).Some?
    ensures LastValue(ReadSubsystems(entries, prefix).value, controller).Some?
  {
    var found := Prefixed(Ordered(entries), prefix);
    var entry := Pair(controller.Print(), LastValue(entries, prefix + controller.Print()).value);
    SubsystemListed(entries, prefix, entry);
    var i :| 0 <= i < |found| && found[i] == entry;
    SubsystemAt(entries, prefix, i);
    ControllerRoundTrip(controller);
    var pairs := ReadSubsystems(entries, prefix).value;
    LastValueIsListed(pairs, controller);
    assert pairs[i] in pairs;
  }

  /**
   Re-keying from names to controllers loses nothing: each map has exactly one count for each
   key with its prefix, that of the key's last line.
   */
  lemma SubsystemsExact(entries: seq<Entry>, prefix: string, controller: Controller)
    requires ParseSubsystems(entries, prefix).Ok?
    ensures IsCountOf(ParseSubsystems(entries, prefix).value, entries, prefix, controller)
  {
    var pairs := ReadSubsystems(entries, prefix).value;
    CollectIsLastValue(pairs, controller);
    LastValueIsListed(pairs, controller);
    if controller in Collect(pairs) {
      var i :| 0 <= i < |pairs| && pairs[i] == Pair(controller, Collect(pairs)[controller]);
      SubsystemAt(entries, prefix, i);
      NameRoundTrip(Prefixed(Ordered(entries), prefix)[i].key);
    } else if controller.IsCanonical() && LastValue(entries, prefix + controller.Print()).Some? {
      SubsystemIsCounted(entries, prefix, controller);
    }
  }

  /** No key counts in both maps. */
  lemma PrefixesAreDisjoint(key: string)
    ensures !(LIVE <= key && DYING <= key)
  {
    assert LIVE[3] != DYING[3];
  }

  /** The whole file: both totals, and two maps that are views of disjoint sets of keys. */
  ghost predicate Reports(entries: seq<Entry>, stat: CgroupStat) {
    && LastCount(entries, "nr_descendants") == Some(stat.descendants)
    && LastCount(entries, "nr_dying_descendants") == Some(stat.dyingDescendants)
    && IsCounted(entries, "nr_subsys_") && IsCounted(entries, "nr_dying_subsys_")
    && (forall controller :: IsCountOf(stat.subsystems, entries, "nr_subsys_", controller))
    && (forall controller :: IsCountOf(stat.dyingSubsystems, entries, "nr_dying_subsys_", controller))
  }

  lemma CountsAreUnique(entries: seq<Entry>, prefix: string, counts: map<Controller, nat>, others: map<Controller, nat>)
    requires forall controller :: IsCountOf(counts, entries, prefix, controller)
    requires forall controller :: IsCountOf(others, entries, prefix, controller)
    ensures counts == others
  {
    forall controller
      ensures controller in counts <==> controller in others
      ensures controller in counts ==> counts[controller] == others[controller]
    {
      assert IsCountOf(counts, entries, prefix, controller) && IsCountOf(others, entries, prefix, controller);
    }
  }

  lemma TotalExact(entries: seq<Entry>, field: string, count: nat)
    ensures Keyed.Required(Collect(entries), field, ParseCount) == Ok(count) <==> LastCount(entries, field) == Some(count)
  {
    CollectIsLastValue(entries, field);
  }

  lemma SubsystemMapExact(entries: seq<Entry>, prefix: string, counts: map<Controller, nat>)
    ensures ParseSubsystems(entries, prefix) == Ok(counts) <==>
            IsCounted(entries, prefix) && forall controller :: IsCountOf(counts, entries, prefix, controller)
  {
    SubsystemsAccept(entries, prefix);
    var r := ParseSubsystems(entries, prefix);
    if r.Ok? {
      forall controller ensures IsCountOf(r.value, entries, prefix, controller) {
        SubsystemsExact(entries, prefix, controller);
      }
      if forall controller :: IsCountOf(counts, entries, prefix, controller) {
        CountsAreUnique(entries, prefix, counts, r.value);
      }
    }
  }

  lemma FromEntriesExact(entries: seq<Entry>, stat: CgroupStat)
    ensures FromEntries(entries) == Ok(stat) <==> Reports(entries, stat)
  {
    TotalExact(entries, "nr_descendants", stat.descendants);
    TotalExact(entries, "nr_dying_descendants", stat.dyingDescendants);
    SubsystemMapExact(entries, LIVE, stat.subsystems);
    SubsystemMapExact(entries, DYING, stat.dyingSubsystems);
  }

  /**
   A file is accepted exactly when every visible line has two tokens, the last line of each
   total is a count, and so is that of each prefixed key, none of which is the bare prefix.
   */
  lemma ParseExact(raw: string, stat: CgroupStat)
    ensures Parse(raw) == Ok(stat) <==>
            Keyed.FileEntries(raw, ValueLabel).Ok? && Reports(Keyed.FileEntries(raw, ValueLabel).value, stat)
  {
    var entries := Keyed.FileEntries(raw, ValueLabel);
    if entries.Ok? {
      FromEntriesExact(entries.value, stat);
    }
  }

  // ---------- errors ----------

  lemma {:induction false} SamePrefix(prefix: string, one: string, other: string)
    ensures Before(prefix + one, prefix + other) <==> Before(one, other)
  {
    if prefix == [] {
      assert prefix + one == one && prefix + other == other;
    } else {
      SamePrefix(prefix[1..], one, other);
      assert (prefix + one)[1..] == prefix[1..] + one && (prefix + other)[1..] == prefix[1..] + other;
    }
  }

  lemma {:induction false} PrefixedAscends(sorted: seq<Entry>, prefix: string)
    requires Ascends(sorted)
    ensures Ascends(Prefixed(sorted, prefix))
  {
    if sorted != [] {
      PrefixedAscends(sorted[1..], prefix);
      if prefix <= sorted[0].key {
        var name := sorted[0].key[|prefix|..];
        var rest := Prefixed(sorted[1..], prefix);
        forall i | 0 <= i < |rest| ensures Before(name, rest[i].key) {
          PrefixedExact(sorted[1..], prefix, rest[i]);
          SamePrefix(prefix, name, rest[i].key);
          assert sorted[0].key == prefix + name;
        }
      }
    }
  }

  /** The bare prefix, or else a last value that is no count. */
  predicate IsSubsystemError(name: string, value: string, prefix: string, error: ParseError) {
    if name == "" then error == Invalid("controller", "")
    else ParseCount(value).None? && error == Invalid(prefix, value)
  }

  /** A map fails for the least bad key with its prefix, wherever its line stands. */
  lemma SubsystemErrors(entries: seq<Entry>, prefix: string, error: ParseError)
    ensures ParseSubsystems(entries, prefix) == Err(error) <==>
            var found := Prefixed(Ordered(entries), prefix);
            exists entry <- found :: IsSubsystemError(entry.key, entry.value, prefix, error)
              && forall other <- found :: Before(other.key, entry.key) ==> other.key != "" && ParseCount(other.value).Some?
  {
    var found := Prefixed(Ordered(entries), prefix);
    OrderedIsLastValue(entries, Pair("", ""));
    PrefixedAscends(Ordered(entries), prefix);
    LeastErrorWins(found, (entry: Entry) => ReadSubsystem(entry, prefix), error);
  }

  /** What is wrong with one of the totals. */
  predicate IsTotalError(entries: seq<Entry>, field: string, error: ParseError) {
    match LastValue(entries, field)
    case None => error == Missing(field)
    case Some(value) => ParseCount(value).None? && error == Invalid(field, value)
  }

  lemma TotalErrors(entries: seq<Entry>, field: string, error: ParseError)
    ensures Keyed.Required(Collect(entries), field, ParseCount) == Err(error) <==> IsTotalError(entries, field, error)
    ensures Keyed.Required(Collect(entries), field, ParseCount).Ok? <==> LastCount(entries, field).Some?
  {
    CollectIsLastValue(entries, field);
  }

  /** In this order: the two totals, the live subsystems, the dying ones. */
  lemma FromEntriesErrors(entries: seq<Entry>, error: ParseError)
    ensures FromEntries(entries) == Err(error) <==>
            if LastCount(entries, "nr_descendants").None? then IsTotalError(entries, "nr_descendants", error)
            else if LastCount(entries, "nr_dying_descendants").None? then IsTotalError(entries, "nr_dying_descendants", error)
            else if !IsCounted(entries, "nr_subsys_") then ParseSubsystems(entries, "nr_subsys_") == Err(error)
            else ParseSubsystems(entries, "nr_dying_subsys_") == Err(error)
  {
    TotalErrors(entries, "nr_descendants", error);
    TotalErrors(entries, "nr_dying_descendants", error);
    SubsystemsAccept(entries, "nr_subsys_");
  }

  /** A line with a key alone lacks its value. */
  lemma OneTokenLine(line: string)
    requires |Tokens(line)| == 1
    ensures Keyed.KeyValue(line, ValueLabel) == Err(Missing("value"))
  {
  }
}
