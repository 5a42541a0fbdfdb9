/** Runs of a state machine: a step function applied to one action after another. */
module Runs {

  function Run<S, A>(step: (S, A) -> S, s: S, actions: seq<A>): S
    decreases |actions|
  {
    if actions == [] then s else Run(step, step(s, actions[0]), actions[1..])
  }

  lemma {:induction false} RunConcat<S, A>(step: (S, A) -> S, s: S, first: seq<A>, second: seq<A>)
    ensures Run(step, s, first + second) == Run(step, Run(step, s, first), second)
    decreases |first|
  {
    if first == [] {
      assert first + second == second;
    } else {
      assert (first + second)[1..] == first[1..] + second;
      RunConcat(step, step(s, first[0]), first[1..], second);
    }
  }

  lemma RunOne<S, A>(step: (S, A) -> S, s: S, action: A)
    ensures Run(step, s, [action]) == step(s, action)
  {
    assert [action][1..] == [];
  }

  lemma RunTwo<S, A>(step: (S, A) -> S, s: S, first: A, second: A)
    ensures Run(step, s, [first, second]) == step(step(s, first), second)
  {
    assert [first, second] == [first] + [second];
    RunConcat(step, s, [first], [second]);
    RunOne(step, s, first);
    RunOne(step, step(s, first), second);
  }

  /** What every step keeps, every run keeps. */
  lemma {:induction false} RunKeeps<S(!new), A(!new)>(step: (S, A) -> S, keeps: S -> bool, s: S, actions: seq<A>)
    requires keeps(s)
    requires forall t, action :: keeps(t) ==> keeps(step(t, action))
    ensures keeps(Run(step, s, actions))
    decreases |actions|
  {
    if actions != [] {
      RunKeeps(step, keeps, step(s, actions[0]), actions[1..]);
    }
  }
}
