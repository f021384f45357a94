/** The brute-force clustering driver of goose.go:123-149: enumerate every
    partition of the inputs, find the largest group count, keep the
    best-scoring partition.  The floating-point score of goose.go:140-142 is
    a parameter of the model. */
module Clustering {
  import opened Matching
  import opened Partitions

  /** The fold of goose.go:127-129: addInputToCombinations once per input,
      in input order. */
  method EnumerateCombinations<T>(inputs: seq<T>) returns (combinations: seq<Combination<T>>)
    ensures combinations == Enumerate(inputs)
  {
    combinations := [];
    for i := 0 to |inputs|
      invariant combinations == Enumerate(inputs[..i])
    {
      assert inputs[..i + 1][..i] == inputs[..i];
      combinations := AddInputToCombinations(inputs[i], combinations);
    }
    assert inputs[..|inputs|] == inputs;
  }

  /** The largest group count among `cs`, and 0 for no combination. */
  function MaxGroups<T>(cs: seq<Combination<T>>): (m: nat)
    ensures forall i :: 0 <= i < |cs| ==> |cs[i]| <= m
    ensures m == 0 || exists i :: 0 <= i < |cs| && |cs[i]| == m
  {
    if |cs| == 0 then 0
    else
      var rest := MaxGroups(cs[..|cs| - 1]);
      assert forall i :: 0 <= i < |cs| - 1 ==> cs[..|cs| - 1][i] == cs[i];
      if |cs[|cs| - 1]| > rest then |cs[|cs| - 1]| else rest
  }

  /** The loop of goose.go:132-138, starting from 0 and raising the running
      maximum on a strictly larger group count. */
  method MaxGroupCount<T>(combinations: seq<Combination<T>>) returns (totalElements: nat)
    ensures totalElements == MaxGroups(combinations)
  {
    totalElements := 0;
    for i := 0 to |combinations|
      invariant totalElements == MaxGroups(combinations[..i])
    {
      assert combinations[..i + 1][..i] == combinations[..i];
      var elements := |combinations[i]|;
      if elements > totalElements {
        totalElements := elements;
      }
    }
    assert combinations[..|combinations|] == combinations;
  }

  /** Over the partitions of n inputs the largest group count is n. */
  lemma MaxGroupsOfEnumerate<T>(xs: seq<T>)
    ensures MaxGroups(Enumerate(xs)) == |xs|
  {
    var cs := Enumerate(xs);
    EnumerateArePartitions(xs);
    forall i | 0 <= i < |cs|
      ensures |cs[i]| <= |xs|
    {
      PartitionGroupCount(cs[i], xs);
    }
    if |xs| > 0 {
      SingletonsEnumerated(xs);
    } else {
      assert cs == [];
    }
  }

  /** The loop of goose.go:139-147: the running best starts as the empty
      combination with score 0 and is replaced whenever a score is at least
      the best so far.  So nothing is chosen when every score is negative,
      and otherwise the choice is the LAST combination with the highest
      score. */
  method SelectBest<T>(combinations: seq<Combination<T>>, score: Combination<T> -> real) returns (bestCombination: Combination<T>)
    ensures (forall i :: 0 <= i < |combinations| ==> score(combinations[i]) < 0.0) ==> bestCombination == []
    ensures (exists i :: 0 <= i < |combinations| && score(combinations[i]) >= 0.0) ==>
      exists k :: 0 <= k < |combinations| && bestCombination == combinations[k] &&
        (forall i :: 0 <= i < |combinations| ==> score(combinations[i]) <= score(combinations[k])) &&
        (forall i :: k < i < |combinations| ==> score(combinations[i]) < score(combinations[k]))
  {
    bestCombination := [];
    var bestScore := 0.0;
    ghost var bestIndex := -1;
    for i := 0 to |combinations|
      invariant -1 <= bestIndex < i
      invariant bestIndex == -1 ==> bestCombination == [] && bestScore == 0.0
      invariant bestIndex == -1 ==> forall j :: 0 <= j < i ==> score(combinations[j]) < 0.0
      invariant bestIndex >= 0 ==> bestCombination == combinations[bestIndex] && bestScore == score(combinations[bestIndex])
      invariant bestIndex >= 0 ==> bestScore >= 0.0
      invariant forall j :: 0 <= j < i ==> score(combinations[j]) <= bestScore
      invariant forall j :: bestIndex < j < i ==> score(combinations[j]) < bestScore
    {
      var s := score(combinations[i]);
      if s >= bestScore {
        bestCombination := combinations[i];
        bestScore := s;
        bestIndex := i;
      }
    }
    if bestIndex >= 0 {
      assert bestScore == score(combinations[bestIndex]);
    }
  }

  /** bruteForceClustering of goose.go:123-149 with its score as a function
      of the combination and the largest group count (`totalElements`).
      The choice is the last partition of the inputs, in enumeration order,
      with the best non-negative score; the largest group count passed to
      the score is the number of inputs; nothing is chosen for no inputs or
      when every score is negative. */
  method BruteForceClustering(inputs: seq<Bytes>, score: (Combination<Bytes>, nat) -> real) returns (bestCombination: Combination<Bytes>)
    ensures LastBestChoice(Enumerate(inputs), score, |inputs|, bestCombination)
    ensures bestCombination == [] || IsPartitionOf(bestCombination, inputs)
    ensures |inputs| == 0 ==> bestCombination == []
  {
    var combinations := EnumerateCombinations(inputs);
    var totalElements := MaxGroupCount(combinations);
    MaxGroupsOfEnumerate(inputs);
    assert totalElements == |inputs|;
    var scoreOf := c => score(c, totalElements);
    bestCombination := SelectBest(combinations, scoreOf);
    assert forall i :: 0 <= i < |combinations| ==> scoreOf(combinations[i]) == score(combinations[i], |inputs|);
    BestUnderEqualScores(combinations, scoreOf, score, |inputs|, bestCombination);
    EnumerateArePartitions(inputs);
  }

  /** A last best choice under `f` is one under `score(., n)` when the two
      agree on every candidate, and it is one of the candidates. */
  lemma BestUnderEqualScores<T>(cs: seq<Combination<T>>, f: Combination<T> -> real,
                                score: (Combination<T>, nat) -> real, n: nat, best: Combination<T>)
    requires forall i :: 0 <= i < |cs| ==> f(cs[i]) == score(cs[i], n)
    requires (forall i :: 0 <= i < |cs| ==> f(cs[i]) < 0.0) ==> best == []
    requires (exists i :: 0 <= i < |cs| && f(cs[i]) >= 0.0) ==>
      exists k :: 0 <= k < |cs| && best == cs[k] &&
        (forall i :: 0 <= i < |cs| ==> f(cs[i]) <= f(cs[k])) &&
        (forall i :: k < i < |cs| ==> f(cs[i]) < f(cs[k]))
    ensures LastBestChoice(cs, score, n, best)
    ensures best == [] || best in cs
  {
  }

  /** `best` is what the selection loop of goose.go:139-147 keeps from the
      candidates `cs` scored by `score(., n)`: nothing when every score is
      negative, and otherwise the last candidate with the highest score. */
  ghost predicate LastBestChoice<T>(cs: seq<Combination<T>>, score: (Combination<T>, nat) -> real, n: nat, best: Combination<T>)
  {
    ((forall i :: 0 <= i < |cs| ==> score(cs[i], n) < 0.0) ==> best == []) &&
    ((exists i :: 0 <= i < |cs| && score(cs[i], n) >= 0.0) ==>
      exists k :: 0 <= k < |cs| && best == cs[k] &&
        (forall i :: 0 <= i < |cs| ==> score(cs[i], n) <= score(cs[k], n)) &&
        (forall i :: k < i < |cs| ==> score(cs[i], n) < score(cs[k], n)))
  }
}
