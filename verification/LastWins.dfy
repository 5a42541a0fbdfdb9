/** Pairs collected into a map in file order: a later pair replaces an earlier one with its key. */
module LastWins {
  import opened Wrappers

  datatype Pair<+K, +V> = Pair(key: K, value: V)

  /** Collecting pairs into a map, in file order. */
  function Collect<K(==), V>(entries: seq<Pair<K, V>>): map<K, V> {
    if entries == [] then map[]
    else
      var last := entries[|entries| - 1];
      Collect(entries[..|entries| - 1])[last.key := last.value]
  }

  /** The value on the last line for a key, found by reading the lines in order. */
  function LastValue<K(==), V>(entries: seq<Pair<K, V>>, key: K): Option<V> {
    if entries == [] then None
    else
      match LastValue(entries[1..], key)
      case Some(value) => Some(value)
      case None => if entries[0].key == key then Some(entries[0].value) else None
  }

  lemma {:induction false} LastValueAppend<K, V>(entries: seq<Pair<K, V>>, last: Pair<K, V>, key: K)
    ensures LastValue(entries + [last], key) ==
            if last.key == key then Some(last.value) else LastValue(entries, key)
  {
    if entries != [] {
      LastValueAppend(entries[1..], last, key);
      assert (entries + [last])[1..] == entries[1..] + [last];
    }
  }

  /** The collected map is exactly last-line-wins lookup. */
  lemma {:induction false} CollectIsLastValue<K, V>(entries: seq<Pair<K, V>>, key: K)
    ensures key in Collect(entries) <==> LastValue(entries, key).Some?
    ensures key in Collect(entries) ==> LastValue(entries, key) == Some(Collect(entries)[key])
  {
    if entries != [] {
      var n := |entries| - 1;
      CollectIsLastValue(entries[..n], key);
      LastValueAppend(entries[..n], entries[n], key);
      assert entries == entries[..n] + [entries[n]];
    }
  }

  /** A map that holds, for each key listed, the value of its last entry, and nothing else. */
  ghost predicate IsLastOf<K(!new), V>(m: map<K, V>, entries: seq<Pair<K, V>>) {
    forall key :: if key in m then LastValue(entries, key) == Some(m[key]) else LastValue(entries, key) == None
  }

  lemma CollectExact<K(!new), V>(entries: seq<Pair<K, V>>, m: map<K, V>)
    ensures IsLastOf(m, entries) <==> Collect(entries) == m
  {
    forall key
      ensures key in Collect(entries) <==> LastValue(entries, key).Some?
      ensures key in Collect(entries) ==> LastValue(entries, key) == Some(Collect(entries)[key])
    {
      CollectIsLastValue(entries, key);
    }
  }

  lemma {:induction false} LastValueIsListed<K, V>(entries: seq<Pair<K, V>>, key: K)
    ensures LastValue(entries, key).Some? ==> Pair(key, LastValue(entries, key).value) in entries
    ensures LastValue(entries, key).None? <==> forall entry <- entries :: entry.key != key
  {
    if entries != [] {
      LastValueIsListed(entries[1..], key);
      assert forall entry :: entry in entries <==> entry == entries[0] || entry in entries[1..];
    }
  }

  /** The last entry for a key is the one after which the key does not come again. */
  lemma {:induction false} LastValueAt<K, V>(entries: seq<Pair<K, V>>, key: K, i: nat)
    requires i < |entries| && entries[i].key == key
    requires forall j :: i < j < |entries| ==> entries[j].key != key
    ensures LastValue(entries, key) == Some(entries[i].value)
  {
    if i > 0 {
      LastValueAt(entries[1..], key, i - 1);
    } else {
      LastValueIsListed(entries[1..], key);
    }
  }

  lemma {:induction false} LastIndex<K, V>(entries: seq<Pair<K, V>>, key: K) returns (i: nat)
    requires LastValue(entries, key).Some?
    ensures i < |entries| && entries[i].key == key
    ensures forall j :: i < j < |entries| ==> entries[j].key != key
  {
    if LastValue(entries[1..], key).Some? {
      i := LastIndex(entries[1..], key);
      i := i + 1;
      assert forall j :: i < j < |entries| ==> entries[j] == entries[1..][j - 1];
    } else {
      i := 0;
      LastValueIsListed(entries[1..], key);
      assert forall j :: 0 < j < |entries| ==> entries[j] in entries[1..];
    }
  }

  /** An entry that a later entry for the same key replaces. */
  predicate IsReplaced<K(==), V>(entries: seq<Pair<K, V>>, i: nat)
    requires i < |entries|
  {
    exists j :: i < j < |entries| && entries[j].key == entries[i].key
  }

  /** Entries are what the collected map holds, and what was replaced on the way. */
  lemma ReplacedOrLast<K, V>(entries: seq<Pair<K, V>>, m: map<K, V>, holds: Pair<K, V> -> bool)
    requires m == Collect(entries)
    ensures (forall entry <- entries :: holds(entry)) <==>
            (forall key <- m :: holds(Pair(key, m[key])))
            && forall i :: 0 <= i < |entries| && IsReplaced(entries, i) ==> holds(entries[i])
  {
    forall key <- m ensures Pair(key, m[key]) in entries {
      CollectIsLastValue(entries, key);
      LastValueIsListed(entries, key);
    }
    forall i | 0 <= i < |entries| && !IsReplaced(entries, i)
      ensures entries[i].key in m && Pair(entries[i].key, m[entries[i].key]) == entries[i]
    {
      LastValueAt(entries, entries[i].key, i);
      CollectIsLastValue(entries, entries[i].key);
    }
  }

  /** No key is given two different values. */
  predicate IsConsistent<K(==), V(==)>(entries: seq<Pair<K, V>>) {
    forall one <- entries, other <- entries :: one.key == other.key ==> one == other
  }

  /** Without conflicting lines, the map depends on which lines there are, not on their order. */
  lemma OrderDoesNotMatter<K(!new), V>(entries: seq<Pair<K, V>>, reordered: seq<Pair<K, V>>)
    requires IsConsistent(entries)
    requires forall entry :: entry in entries <==> entry in reordered
    ensures Collect(entries) == Collect(reordered)
  {
    forall key
      ensures key in Collect(entries) <==> key in Collect(reordered)
      ensures key in Collect(entries) ==> Collect(entries)[key] == Collect(reordered)[key]
    {
      CollectIsLastValue(entries, key);
      CollectIsLastValue(reordered, key);
      LastValueIsListed(entries, key);
      LastValueIsListed(reordered, key);
    }
  }

  lemma {:induction false} LastValueConcat<K, V>(before: seq<Pair<K, V>>, after: seq<Pair<K, V>>, key: K)
    ensures LastValue(before + after, key) ==
            if LastValue(after, key).Some? then LastValue(after, key) else LastValue(before, key)
  {
    if before == [] {
      assert before + after == after;
    } else {
      LastValueConcat(before[1..], after, key);
      assert (before + after)[1..] == before[1..] + after;
    }
  }
}
