/** Going through a list: keeping some items, or reading every item and giving up at the first that cannot be read. */
module Traversal {
  import opened Wrappers

  function Filter<T>(items: seq<T>, keep: T -> bool): (r: seq<T>)
    ensures forall item <- r :: item in items && keep(item)
  {
    if items == [] then []
    else if keep(items[0]) then [items[0]] + Filter(items[1..], keep)
    else Filter(items[1..], keep)
  }

  lemma {:induction false} FilterAppend<T>(items: seq<T>, last: T, keep: T -> bool)
    ensures Filter(items + [last], keep) == if keep(last) then Filter(items, keep) + [last] else Filter(items, keep)
  {
    if items == [] {
      assert [] + [last] == [last] && [last][1..] == [];
    } else {
      FilterAppend(items[1..], last, keep);
      assert (items + [last])[1..] == items[1..] + [last];
    }
  }

  /** What is kept first was not preceded by anything to keep. */
  lemma {:induction false} FilterFirst<T>(items: seq<T>, keep: T -> bool) returns (i: nat)
    requires Filter(items, keep) != []
    ensures i < |items| && items[i] == Filter(items, keep)[0] && keep(items[i])
    ensures forall j :: 0 <= j < i ==> !keep(items[j])
  {
    if keep(items[0]) {
      i := 0;
    } else {
      i := FilterFirst(items[1..], keep);
      i := i + 1;
      assert forall j :: 0 < j < i ==> items[j] == items[1..][j - 1];
    }
  }

  function ReadAll<A, B, E>(items: seq<A>, read: A -> Result<B, E>): Result<seq<B>, E> {
    if items == [] then Ok([])
    else
      var first :- read(items[0]);
      var rest :- ReadAll(items[1..], read);
      Ok([first] + rest)
  }

  /** Success means that every item was read, and the results are in the order of the items. */
  lemma {:induction false} ReadAllExact<A, B, E>(items: seq<A>, read: A -> Result<B, E>, results: seq<B>)
    ensures ReadAll(items, read) == Ok(results) <==>
            && |results| == |items|
            && forall i :: 0 <= i < |items| ==> read(items[i]) == Ok(results[i])
  {
    if items != [] && results != [] {
      ReadAllExact(items[1..], read, results[1..]);
      assert results == [results[0]] + results[1..];
    }
  }

  lemma {:induction false} ReadAllConcat<A, B, E>(before: seq<A>, after: seq<A>, read: A -> Result<B, E>)
    ensures ReadAll(before + after, read) ==
            if ReadAll(before, read).Err? then ReadAll(before, read)
            else if ReadAll(after, read).Err? then ReadAll(after, read)
            else Ok(ReadAll(before, read).value + ReadAll(after, read).value)
  {
    if before == [] {
      assert before + after == after;
      var last := ReadAll(after, read);
      assert last.Ok? ==> [] + last.value == last.value;
    } else {
      ReadAllConcat(before[1..], after, read);
      assert (before + after)[1..] == before[1..] + after;
      var first, rest, last := read(before[0]), ReadAll(before[1..], read), ReadAll(after, read);
      if first.Ok? && rest.Ok? && last.Ok? {
        assert [first.value] + (rest.value + last.value) == ([first.value] + rest.value) + last.value;
      }
    }
  }

  lemma {:induction false} ReadAllSucceeds<A, B, E>(items: seq<A>, read: A -> Result<B, E>)
    ensures ReadAll(items, read).Ok? <==> forall item <- items :: read(item).Ok?
  {
    if items != [] {
      ReadAllSucceeds(items[1..], read);
      assert forall item :: item in items <==> item == items[0] || item in items[1..];
    }
  }

  /** The error is that of the first item that cannot be read. */
  lemma {:induction false} FirstErrorWins<A, B, E>(items: seq<A>, read: A -> Result<B, E>, error: E)
    ensures ReadAll(items, read) == Err(error) <==>
            exists i :: 0 <= i < |items| && read(items[i]) == Err(error)
              && forall j :: 0 <= j < i ==> read(items[j]).Ok?
  {
    if items != [] {
      FirstErrorWins(items[1..], read, error);
      var rest := items[1..];
      if ReadAll(rest, read) == Err(error) && read(items[0]).Ok? {
        var i :| 0 <= i < |rest| && read(rest[i]) == Err(error) && forall j :: 0 <= j < i ==> read(rest[j]).Ok?;
        assert read(items[i + 1]) == Err(error);
        assert forall j :: 0 < j < i + 1 ==> items[j] == rest[j - 1];
      }
      assert forall i :: 0 < i < |items| ==> items[i] == rest[i - 1];
      if i :| 0 < i < |items| && read(items[i]) == Err(error) && forall j :: 0 <= j < i ==> read(items[j]).Ok? {
        assert read(rest[i - 1]) == Err(error);
        assert forall j :: 0 <= j < i - 1 ==> rest[j] == items[j + 1];
      }
    }
  }
}
