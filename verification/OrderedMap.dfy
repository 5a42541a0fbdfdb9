/** A map with text keys, iterated in ascending order of its keys. */
module OrderedMap {
  import opened Wrappers
  import opened LastWins
  import opened Traversal

  type Entry = Pair<string, string>

  /** Strictly before, comparing character by character. */
  predicate Before(a: string, b: string) {
    if b == [] then false
    else if a == [] then true
    else a[0] < b[0] || (a[0] == b[0] && Before(a[1..], b[1..]))
  }

  lemma {:induction false} BeforeIsTotal(a: string, b: string)
    ensures Before(a, b) || a == b || Before(b, a)
    ensures !(Before(a, b) && (a == b || Before(b, a)))
  {
    if a != [] && b != [] {
      BeforeIsTotal(a[1..], b[1..]);
      assert a == [a[0]] + a[1..] && b == [b[0]] + b[1..];
    }
    if a == b && a != [] {
      BeforeIsTotal(a[1..], a[1..]);
    }
  }

  lemma {:induction false} BeforeIsTransitive(a: string, b: string, c: string)
    requires Before(a, b) && Before(b, c)
    ensures Before(a, c)
  {
    if a != [] && a[0] == b[0] == c[0] {
      BeforeIsTransitive(a[1..], b[1..], c[1..]);
    }
  }

  predicate Ascends(sorted: seq<Entry>) {
    forall i, j :: 0 <= i < j < |sorted| ==> Before(sorted[i].key, sorted[j].key)
  }

  /** Inserting into an ordered map: in place of an equal key, or before the first greater one. */
  function Put(sorted: seq<Entry>, entry: Entry): seq<Entry> {
    if sorted == [] || Before(entry.key, sorted[0].key) then [entry] + sorted
    else if sorted[0].key == entry.key then [entry] + sorted[1..]
    else [sorted[0]] + Put(sorted[1..], entry)
  }

  /** The entries of the text-keyed map of a file, in the order in which it is iterated. */
  function Ordered(entries: seq<Entry>): seq<Entry> {
    if entries == [] then []
    else Put(Ordered(entries[..|entries| - 1]), entries[|entries| - 1])
  }

  lemma {:induction false} PutHolds(sorted: seq<Entry>, entry: Entry, other: Entry)
    requires Ascends(sorted)
    ensures other in Put(sorted, entry) <==> other == entry || (other in sorted && other.key != entry.key)
  {
    if sorted != [] {
      assert forall x :: x in sorted <==> x == sorted[0] || x in sorted[1..];
      if Before(entry.key, sorted[0].key) {
        forall x <- sorted ensures x.key != entry.key {
          BeforeIsTotal(entry.key, entry.key);
          if x != sorted[0] {
            BeforeIsTransitive(entry.key, sorted[0].key, x.key);
          }
        }
      } else if sorted[0].key == entry.key {
        forall x <- sorted[1..] ensures x.key != entry.key {
          BeforeIsTotal(entry.key, entry.key);
        }
      } else {
        PutHolds(sorted[1..], entry, other);
      }
    }
  }

  lemma {:induction false} PutAscends(sorted: seq<Entry>, entry: Entry)
    requires Ascends(sorted)
    ensures Ascends(Put(sorted, entry))
  {
    if sorted != [] {
      BeforeIsTotal(entry.key, sorted[0].key);
      if Before(entry.key, sorted[0].key) {
        forall i | 0 <= i < |sorted| ensures Before(entry.key, sorted[i].key) {
          if i > 0 {
            BeforeIsTransitive(entry.key, sorted[0].key, sorted[i].key);
          }
        }
      } else if sorted[0].key != entry.key {
        PutAscends(sorted[1..], entry);
        var rest := Put(sorted[1..], entry);
        forall i | 0 <= i < |rest| ensures Before(sorted[0].key, rest[i].key) {
          PutHolds(sorted[1..], entry, rest[i]);
        }
      }
    }
  }

  /** The ordered map holds, in ascending order of keys, the last value of every key. */
  lemma {:induction false} OrderedIsLastValue(entries: seq<Entry>, entry: Entry)
    ensures Ascends(Ordered(entries))
    ensures entry in Ordered(entries) <==> LastValue(entries, entry.key) == Some(entry.value)
  {
    if entries != [] {
      var n := |entries| - 1;
      OrderedIsLastValue(entries[..n], entry);
      PutHolds(Ordered(entries[..n]), entries[n], entry);
      PutAscends(Ordered(entries[..n]), entries[n]);
      LastValueAppend(entries[..n], entries[n], entry.key);
      assert entries == entries[..n] + [entries[n]];
    }
  }

  /** Reading the entries in order fails for the least key that cannot be read. */
  lemma LeastErrorWins<B, E>(sorted: seq<Entry>, read: Entry -> Result<B, E>, error: E)
    requires Ascends(sorted)
    ensures ReadAll(sorted, read) == Err(error) <==>
            exists entry <- sorted :: read(entry) == Err(error)
              && forall other <- sorted :: Before(other.key, entry.key) ==> read(other).Ok?
  {
    FirstErrorWins(sorted, read, error);
    forall i | 0 <= i < |sorted| ensures forall j :: 0 <= j < |sorted| ==> (Before(sorted[j].key, sorted[i].key) <==> j < i) {
      forall j | 0 <= j < |sorted| ensures Before(sorted[j].key, sorted[i].key) <==> j < i {
        BeforeIsTotal(sorted[j].key, sorted[i].key);
      }
    }
  }
}
