/** The set-partition enumerator of goose.go: addInputToCombinations
    (goose.go:102-121) and its fold over the inputs (goose.go:127-129).
    A combination is a list of groups; a group is a list of elements. */
module Partitions {
  type Group<T> = seq<T>
  type Combination<T> = seq<Group<T>>

  /** The children of one parent combination `c`, in the order the loops of
      goose.go:107-118 append them: for each group j, the parent with `x`
      appended to group j only, then the parent with the new group [x]. */
  function ChildrenOf<T>(x: T, c: Combination<T>): (r: seq<Combination<T>>)
    ensures |r| == |c| + 1
    ensures forall j :: 0 <= j < |c| ==> |r[j]| == |c|
    ensures |r[|c|]| == |c| + 1
  {
    seq(|c|, j requires 0 <= j < |c| => c[j := c[j] + [x]]) + [c + [[x]]]
  }

  /** The children of every parent, parent by parent.  Every parent has at
      least one child, so no combination is lost. */
  function Children<T>(x: T, cs: seq<Combination<T>>): (r: seq<Combination<T>>)
    ensures |r| >= |cs|
  {
    if |cs| == 0 then [] else Children(x, cs[..|cs| - 1]) + ChildrenOf(x, cs[|cs| - 1])
  }

  /** addInputToCombinations: the first element starts the single
      combination [[x]]; afterwards every combination is replaced by its
      children.  There is always a result, and there are at least as many
      results as parents. */
  function AddInput<T>(x: T, cs: seq<Combination<T>>): (r: seq<Combination<T>>)
    ensures |r| > 0
    ensures |r| >= |cs|
  {
    if |cs| == 0 then [[[x]]] else Children(x, cs)
  }

  /** The fold of goose.go:127-129 over the first |xs| inputs.  It yields
      combinations exactly when there are inputs, and the last one is the
      all-singletons combination. */
  function Enumerate<T>(xs: seq<T>): (r: seq<Combination<T>>)
    ensures |r| == 0 <==> |xs| == 0
    ensures |xs| > 0 ==> r[|r| - 1] == Singletons(xs)
    decreases |xs|
  {
    if |xs| == 0 then []
    else
      var prefix := xs[..|xs| - 1];
      assert Singletons(xs) == Singletons(prefix) + [[xs[|xs| - 1]]];
      AddInput(xs[|xs| - 1], Enumerate(prefix))
  }

  /** addInputToCombinations with its three loops (goose.go:102-121), on
      values: Go's `append` may share backing arrays, which this model does
      not capture. */
  method AddInputToCombinations<T>(input: T, combinations: seq<Combination<T>>) returns (newCombinations: seq<Combination<T>>)
    ensures newCombinations == AddInput(input, combinations)
  {
    if |combinations| == 0 {
      return [[[input]]];
    }
    newCombinations := [];
    for i := 0 to |combinations|
      invariant newCombinations == Children(input, combinations[..i])
    {
      var combination := combinations[i];
      ghost var done := newCombinations;
      for modifyGroupIndex := 0 to |combination|
        invariant newCombinations == done + ChildrenOf(input, combination)[..modifyGroupIndex]
      {
        var newCombination := ExtendGroup(input, combination, modifyGroupIndex);
        assert ChildrenOf(input, combination)[..modifyGroupIndex + 1]
            == ChildrenOf(input, combination)[..modifyGroupIndex] + [newCombination];
        newCombinations := newCombinations + [newCombination];
      }
      assert ChildrenOf(input, combination)
          == ChildrenOf(input, combination)[..|combination|] + [combination + [[input]]];
      newCombinations := newCombinations + [combination + [[input]]];
      assert combinations[..i + 1][..i] == combinations[..i];
    }
    assert combinations[..|combinations|] == combinations;
  }

  /** The innermost loop of goose.go:110-116: copy the groups of the parent,
      appending `input` to group `modifyGroupIndex` only. */
  method ExtendGroup<T>(input: T, combination: Combination<T>, modifyGroupIndex: nat) returns (newCombination: Combination<T>)
    requires modifyGroupIndex < |combination|
    ensures newCombination == combination[modifyGroupIndex := combination[modifyGroupIndex] + [input]]
  {
    newCombination := [];
    for groupIndex := 0 to |combination|
      invariant |newCombination| == groupIndex
      invariant forall g :: 0 <= g < groupIndex ==>
        newCombination[g] == if g == modifyGroupIndex then combination[g] + [input] else combination[g]
    {
      newCombination := newCombination + [combination[groupIndex]];
      if groupIndex == modifyGroupIndex {
        newCombination := newCombination[groupIndex := newCombination[groupIndex] + [input]];
      }
    }
    assert forall g :: 0 <= g < |combination| ==>
      newCombination[g] == combination[modifyGroupIndex := combination[modifyGroupIndex] + [input]][g];
  }

  // ---------------------------------------------------------------------
  // Shape of one step: length and order of the children.

  /** The number of children of the parents `cs`: |c| + 1 per parent c. */
  function TotalChildren<T>(cs: seq<Combination<T>>): (n: nat)
  {
    if |cs| == 0 then 0 else TotalChildren(cs[..|cs| - 1]) + |cs[|cs| - 1]| + 1
  }

  lemma {:induction false} ChildrenLength<T>(x: T, cs: seq<Combination<T>>)
    ensures |Children(x, cs)| == TotalChildren(cs)
    decreases |cs|
  {
    if |cs| > 0 {
      ChildrenLength(x, cs[..|cs| - 1]);
    }
  }

  /** The children of a concatenation are the children of each part. */
  lemma {:induction false} ChildrenAppend<T>(x: T, a: seq<Combination<T>>, b: seq<Combination<T>>)
    ensures Children(x, a + b) == Children(x, a) + Children(x, b)
    decreases |b|
  {
    if |b| > 0 {
      var b' := b[..|b| - 1];
      assert (a + b)[..|a + b| - 1] == a + b';
      ChildrenAppend(x, a, b');
    } else {
      assert a + b == a;
    }
  }

  /** The result of addInputToCombinations on a non-empty list has length
      the sum of |c| + 1 over the parents, and lists the children parent by
      parent: the children of parent i start at TotalChildren(cs[..i]); the
      j-th of them adds `x` to group j alone, the last opens the group [x]. */
  lemma AddInputShape<T>(x: T, cs: seq<Combination<T>>)
    ensures |cs| > 0 ==> |AddInput(x, cs)| == TotalChildren(cs)
    ensures forall i {:trigger TotalChildren(cs[..i])} :: 0 <= i < |cs| ==>
      TotalChildren(cs[..i]) + |cs[i]| < |AddInput(x, cs)| &&
      AddInput(x, cs)[TotalChildren(cs[..i]) + |cs[i]|] == cs[i] + [[x]]
    ensures forall i, j {:trigger cs[i][j]} :: 0 <= i < |cs| && 0 <= j < |cs[i]| ==>
      AddInput(x, cs)[TotalChildren(cs[..i]) + j] == cs[i][j := cs[i][j] + [x]]
  {
    AddInputLength(x, cs);
    AddInputNewGroup(x, cs);
    AddInputGrown(x, cs);
  }

  lemma AddInputLength<T>(x: T, cs: seq<Combination<T>>)
    ensures |cs| > 0 ==> |AddInput(x, cs)| == TotalChildren(cs)
  {
    ChildrenLength(x, cs);
  }

  lemma AddInputNewGroup<T>(x: T, cs: seq<Combination<T>>)
    ensures forall i {:trigger TotalChildren(cs[..i])} :: 0 <= i < |cs| ==>
      TotalChildren(cs[..i]) + |cs[i]| < |AddInput(x, cs)| &&
      AddInput(x, cs)[TotalChildren(cs[..i]) + |cs[i]|] == cs[i] + [[x]]
  {
    forall i | 0 <= i < |cs|
      ensures TotalChildren(cs[..i]) + |cs[i]| < |AddInput(x, cs)|
      ensures AddInput(x, cs)[TotalChildren(cs[..i]) + |cs[i]|] == cs[i] + [[x]]
    {
      ChildrenAt(x, cs, i, |cs[i]|);
      ChildrenOfAt(x, cs[i]);
    }
  }

  lemma AddInputGrown<T>(x: T, cs: seq<Combination<T>>)
    ensures forall i {:trigger TotalChildren(cs[..i])} :: 0 <= i < |cs| ==> TotalChildren(cs[..i]) + |cs[i]| < |AddInput(x, cs)|
    ensures forall i, j {:trigger cs[i][j]} :: 0 <= i < |cs| && 0 <= j < |cs[i]| ==>
      AddInput(x, cs)[TotalChildren(cs[..i]) + j] == cs[i][j := cs[i][j] + [x]]
  {
    AddInputNewGroup(x, cs);
    forall i, j | 0 <= i < |cs| && 0 <= j < |cs[i]|
      ensures AddInput(x, cs)[TotalChildren(cs[..i]) + j] == cs[i][j := cs[i][j] + [x]]
    {
      ChildrenAt(x, cs, i, j);
      ChildrenOfAt(x, cs[i]);
    }
  }

  /** Child j of parent i, located in the whole result. */
  lemma ChildrenAt<T>(x: T, cs: seq<Combination<T>>, i: nat, j: nat)
    requires i < |cs| && j <= |cs[i]|
    ensures TotalChildren(cs[..i]) + j < |AddInput(x, cs)|
    ensures AddInput(x, cs)[TotalChildren(cs[..i]) + j] == ChildrenOf(x, cs[i])[j]
  {
    var pre, mid, post := Children(x, cs[..i]), ChildrenOf(x, cs[i]), Children(x, cs[i + 1..]);
    assert AddInput(x, cs) == Children(x, cs);
    ChildrenSplit(x, cs, i);
    ChildrenLength(x, cs[..i]);
    ChildrenOfAt(x, cs[i]);
    IndexMiddle(pre, mid, post, j);
  }

  lemma ChildrenOfAt<T>(x: T, c: Combination<T>)
    ensures |ChildrenOf(x, c)| == |c| + 1
    ensures forall j :: 0 <= j < |c| ==> ChildrenOf(x, c)[j] == c[j := c[j] + [x]]
    ensures ChildrenOf(x, c)[|c|] == c + [[x]]
  {
  }

  lemma IndexMiddle<U>(a: seq<U>, b: seq<U>, c: seq<U>, j: nat)
    requires j < |b|
    ensures |a| + j < |a + b + c| && (a + b + c)[|a| + j] == b[j]
  {
  }

  lemma ChildrenSplit<T>(x: T, cs: seq<Combination<T>>, i: nat)
    requires i < |cs|
    ensures Children(x, cs) == Children(x, cs[..i]) + ChildrenOf(x, cs[i]) + Children(x, cs[i + 1..])
  {
    var a, c, b := cs[..i], cs[i], cs[i + 1..];
    SplitAt(cs, i);
    ChildrenAppend(x, a + [c], b);
    ChildrenAppend(x, a, [c]);
    ChildrenSingle(x, c);
  }

  lemma SplitAt<U>(s: seq<U>, i: nat)
    requires i < |s|
    ensures s == (s[..i] + [s[i]]) + s[i + 1..]
  {
    assert s[..i + 1] == s[..i] + [s[i]];
    assert s == s[..i + 1] + s[i + 1..];
  }

  lemma ChildrenSingle<T>(x: T, c: Combination<T>)
    ensures Children(x, [c]) == ChildrenOf(x, c)
  {
    var one := [c];
    assert one[..0] == [];
    assert Children(x, one) == Children(x, []) + ChildrenOf(x, c);
  }

  // ---------------------------------------------------------------------
  // Every enumerated combination is a set partition of the inputs.

  /** The elements of a combination, group after group. */
  function Flatten<T>(c: Combination<T>): (r: seq<T>)
  {
    if |c| == 0 then [] else Flatten(c[..|c| - 1]) + c[|c| - 1]
  }

  /** `c` partitions `xs`: no group is empty and every element of `xs` occurs
      in `c` exactly as often as in `xs`. */
  ghost predicate IsPartitionOf<T>(c: Combination<T>, xs: seq<T>)
  {
    (forall g :: 0 <= g < |c| ==> |c[g]| > 0) && multiset(Flatten(c)) == multiset(xs)
  }

  /** Appending `x` to one group adds `x` once to the flattened elements. */
  lemma {:induction false} FlattenExtend<T>(x: T, c: Combination<T>, j: nat)
    requires j < |c|
    ensures multiset(Flatten(c[j := c[j] + [x]])) == multiset(Flatten(c)) + multiset{x}
    decreases |c|
  {
    var c' := c[j := c[j] + [x]];
    var n := |c|;
    var init := c[..n - 1];
    assert Flatten(c) == Flatten(init) + c[n - 1];
    if j == n - 1 {
      assert c'[..n - 1] == init;
      assert Flatten(c') == Flatten(init) + (c[n - 1] + [x]);
      assert multiset(Flatten(c')) == multiset(Flatten(init)) + multiset(c[n - 1]) + multiset{x};
    } else {
      assert c'[..n - 1] == init[j := init[j] + [x]];
      assert Flatten(c') == Flatten(init[j := init[j] + [x]]) + c[n - 1];
      FlattenExtend(x, init, j);
      assert multiset(Flatten(c')) == multiset(Flatten(init)) + multiset{x} + multiset(c[n - 1]);
    }
  }

  /** The children of a partition of `xs` partition `xs + [x]`. */
  lemma ChildrenOfPartition<T>(x: T, c: Combination<T>, xs: seq<T>)
    requires IsPartitionOf(c, xs)
    ensures forall d :: d in ChildrenOf(x, c) ==> IsPartitionOf(d, xs + [x])
  {
    forall j | 0 <= j < |c|
      ensures IsPartitionOf(c[j := c[j] + [x]], xs + [x])
    {
      GrownIsPartition(x, c, xs, j);
    }
    NewGroupIsPartition(x, c, xs);
    forall d | d in ChildrenOf(x, c)
      ensures IsPartitionOf(d, xs + [x])
    {
      var k :| 0 <= k < |ChildrenOf(x, c)| && ChildrenOf(x, c)[k] == d;
      if k < |c| {
        assert d == c[k := c[k] + [x]];
      } else {
        assert d == c + [[x]];
      }
    }
  }

  /** Adding `x` to one group of a partition of `xs` partitions `xs + [x]`. */
  lemma GrownIsPartition<T>(x: T, c: Combination<T>, xs: seq<T>, j: nat)
    requires IsPartitionOf(c, xs) && j < |c|
    ensures IsPartitionOf(c[j := c[j] + [x]], xs + [x])
  {
    FlattenExtend(x, c, j);
    assert multiset(xs + [x]) == multiset(xs) + multiset{x};
  }

  /** Adding the group [x] to a partition of `xs` partitions `xs + [x]`. */
  lemma NewGroupIsPartition<T>(x: T, c: Combination<T>, xs: seq<T>)
    requires IsPartitionOf(c, xs)
    ensures IsPartitionOf(c + [[x]], xs + [x])
  {
    var d := c + [[x]];
    assert d[..|d| - 1] == c;
    assert Flatten(d) == Flatten(c) + [x];
    assert multiset(xs + [x]) == multiset(xs) + multiset{x};
  }

  /** Every child of a list of partitions of `xs` partitions `xs + [x]`. */
  lemma {:induction false} ChildrenArePartitions<T>(x: T, cs: seq<Combination<T>>, xs: seq<T>)
    requires forall c :: c in cs ==> IsPartitionOf(c, xs)
    ensures forall d :: d in Children(x, cs) ==> IsPartitionOf(d, xs + [x])
    decreases |cs|
  {
    if |cs| > 0 {
      var n := |cs|;
      assert forall c :: c in cs[..n - 1] ==> c in cs;
      ChildrenArePartitions(x, cs[..n - 1], xs);
      assert cs[n - 1] in cs;
      ChildrenOfPartition(x, cs[n - 1], xs);
    }
  }

  /** After folding over `xs`, every combination is a partition of `xs`:
      each input is in exactly one place and no group is empty. */
  lemma {:induction false} EnumerateArePartitions<T>(xs: seq<T>)
    ensures forall c :: c in Enumerate(xs) ==> IsPartitionOf(c, xs)
    decreases |xs|
  {
    if |xs| > 0 {
      var n := |xs|;
      var prefix, x := xs[..n - 1], xs[n - 1];
      assert prefix + [x] == xs;
      EnumerateArePartitions(prefix);
      if |prefix| == 0 {
        assert Enumerate(prefix) == [];
        assert Enumerate(xs) == [[[x]]];
        assert Flatten([[x]]) == [x] by {
          assert [[x]][..0] == [];
        }
      } else {
        ChildrenArePartitions(x, Enumerate(prefix), prefix);
      }
    }
  }

  /** A partition has no more groups than elements. */
  lemma {:induction false} PartitionGroupCount<T>(c: Combination<T>, xs: seq<T>)
    requires IsPartitionOf(c, xs)
    ensures |c| <= |xs|
  {
    FlattenLength(c);
    assert |multiset(Flatten(c))| == |Flatten(c)|;
    assert |multiset(xs)| == |xs|;
  }

  /** The flattened elements are at least as many as the non-empty groups. */
  lemma {:induction false} FlattenLength<T>(c: Combination<T>)
    requires forall g :: 0 <= g < |c| ==> |c[g]| > 0
    ensures |c| <= |Flatten(c)|
    decreases |c|
  {
    if |c| > 0 {
      FlattenLength(c[..|c| - 1]);
    }
  }

  /** The combination of singleton groups, one per input in input order. */
  function Singletons<T>(xs: seq<T>): (c: Combination<T>)
    ensures |c| == |xs|
  {
    seq(|xs|, i requires 0 <= i < |xs| => [xs[i]])
  }

  /** For every parent `c` in `cs`, the combination `c + [[x]]` that opens
      the new group [x] is among Children(x, cs). */
  lemma {:induction false} NewGroupIsChild<T>(x: T, cs: seq<Combination<T>>, c: Combination<T>)
    requires c in cs
    ensures c + [[x]] in Children(x, cs)
    decreases |cs|
  {
    var n := |cs|;
    if cs[n - 1] == c {
      assert c + [[x]] == ChildrenOf(x, c)[|c|];
    } else {
      assert c in cs[..n - 1];
      NewGroupIsChild(x, cs[..n - 1], c);
    }
  }

  /** The all-singletons combination is enumerated, so some combination of
      n inputs has n groups. */
  lemma {:induction false} SingletonsEnumerated<T>(xs: seq<T>)
    requires |xs| > 0
    ensures Singletons(xs) in Enumerate(xs)
    decreases |xs|
  {
    var n := |xs|;
    var prefix, x := xs[..n - 1], xs[n - 1];
    assert Singletons(xs) == Singletons(prefix) + [[x]];
    if n == 1 {
      assert prefix == [];
      assert Enumerate(xs) == AddInput(x, Enumerate(prefix));
      assert Enumerate(xs) == [[[x]]];
      assert Singletons(xs) == [[x]];
    } else {
      SingletonsEnumerated(prefix);
      NewGroupIsChild(x, Enumerate(prefix), Singletons(prefix));
    }
  }

  // ---------------------------------------------------------------------
  // Counting: n >= 1 inputs give S(n, k) combinations of k groups.

  /** Stirling numbers of the second kind: partitions of n elements into k
      non-empty groups. */
  function Stirling2(n: nat, k: nat): (s: nat)
  {
    if n == 0 then (if k == 0 then 1 else 0)
    else if k == 0 then 0
    else k * Stirling2(n - 1, k) + Stirling2(n - 1, k - 1)
  }

  /** How many of the combinations in `cs` have exactly `k` groups. */
  function CountWithGroups<T>(cs: seq<Combination<T>>, k: nat): (count: nat)
  {
    if |cs| == 0 then 0
    else CountWithGroups(cs[..|cs| - 1], k) + (if |cs[|cs| - 1]| == k then 1 else 0)
  }

  lemma {:induction false} CountAppend<T>(a: seq<Combination<T>>, b: seq<Combination<T>>, k: nat)
    ensures CountWithGroups(a + b, k) == CountWithGroups(a, k) + CountWithGroups(b, k)
    decreases |b|
  {
    if |b| > 0 {
      assert (a + b)[..|a + b| - 1] == a + b[..|b| - 1];
      CountAppend(a, b[..|b| - 1], k);
    } else {
      assert a + b == a;
    }
  }

  /** A list of combinations that all have m groups. */
  lemma {:induction false} CountUniform<T>(cs: seq<Combination<T>>, m: nat, k: nat)
    requires forall i :: 0 <= i < |cs| ==> |cs[i]| == m
    ensures CountWithGroups(cs, k) == if m == k then |cs| else 0
    decreases |cs|
  {
    if |cs| > 0 {
      CountUniform(cs[..|cs| - 1], m, k);
    }
  }

  /** A parent with m groups has m children with m groups and one with m + 1. */
  lemma CountChildrenOf<T>(x: T, c: Combination<T>, k: nat)
    ensures CountWithGroups(ChildrenOf(x, c), k)
         == (if |c| == k then k else 0) + (if |c| + 1 == k then 1 else 0)
  {
    var grown := seq(|c|, j requires 0 <= j < |c| => c[j := c[j] + [x]]);
    CountAppend(grown, [c + [[x]]], k);
    CountUniform(grown, |c|, k);
    CountUniform([c + [[x]]], |c| + 1, k);
  }

  /** The recurrence of the Stirling numbers, one step of the enumerator. */
  lemma {:induction false} CountChildren<T>(x: T, cs: seq<Combination<T>>, k: nat)
    ensures CountWithGroups(Children(x, cs), k)
         == k * CountWithGroups(cs, k) + (if k == 0 then 0 else CountWithGroups(cs, k - 1))
    decreases |cs|
  {
    if |cs| > 0 {
      var init, c := cs[..|cs| - 1], cs[|cs| - 1];
      CountChildren(x, init, k);
      CountAppend(Children(x, init), ChildrenOf(x, c), k);
      CountChildrenOf(x, c, k);
      assert CountWithGroups(cs, k) == CountWithGroups(init, k) + (if |c| == k then 1 else 0);
      if k > 0 {
        assert CountWithGroups(cs, k - 1) == CountWithGroups(init, k - 1) + (if |c| == k - 1 then 1 else 0);
      }
      Distribute(k, CountWithGroups(init, k), if |c| == k then 1 else 0);
    }
  }

  lemma Distribute(k: nat, a: nat, b: nat)
    ensures k * (a + b) == k * a + k * b
  {
  }

  /** For n >= 1 inputs the enumerator yields exactly S(n, k) combinations
      with k groups, the number of set partitions into k groups.  (For no
      inputs it yields no combination at all, where S(0, 0) = 1.) */
  lemma {:induction false} EnumerateCount<T>(xs: seq<T>, k: nat)
    requires |xs| >= 1
    ensures CountWithGroups(Enumerate(xs), k) == Stirling2(|xs|, k)
    decreases |xs|
  {
    var n := |xs|;
    var prefix, x := xs[..n - 1], xs[n - 1];
    if n == 1 {
      assert prefix == [];
      assert Enumerate(xs) == [[[x]]];
      var one: seq<Combination<T>> := [[[x]]];
      assert CountWithGroups(one, k) == if k == 1 then 1 else 0 by {
        assert one[..0] == [];
      }
    } else {
      var parents := Enumerate(prefix);
      assert Enumerate(xs) == Children(x, parents) by {
        assert |parents| > 0;
      }
      CountChildren(x, parents, k);
      EnumerateCount(prefix, k);
      if k > 0 {
        EnumerateCount(prefix, k - 1);
      }
    }
  }
}
