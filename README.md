# goose: longest common substrings and brute-force clustering, in Dafny

`goose.go` clusters byte strings. It has two parts:

- A similarity score, RLCS. It finds one longest common substring of all
  inputs with `LCS`. Then it scores the regions before and after that match
  the same way, recursively.
- A brute-force clusterer. It enumerates every set partition of the inputs
  with `addInputToCombinations`, scores each one, and keeps the best.

This project models those parts and proves properties of the model. It has
four modules.

- `Matching` (`lcs.dfy`) models `LCS`.
  - The functions `Others`, `Scan`, `Probe` and `Search` follow its loops
    step by step: the per-input scan, the start-offset scan, one
    binary-search probe, and the whole search. `Lcs` composes them.
  - The method `ComputeLcs` is the loop itself. It works on the arrays
    `matchIndices` and `lengths`, and is proved to compute `Lcs`.
  - Proved: the returned length is the true longest common substring
    length. The offset in `inputs[0]` is the leftmost start of a common
    substring of that length. Every offset leaves room for the match in its
    input.
  - The offsets of the other inputs are NOT promised to point at the match.
    A probe that fails after the last successful one can overwrite them, as
    in the code. `StaleOffsetExample` proves this on `["abc", "ca", "xabc"]`,
    where LCS returns `(1, [0, 1, 2])`.
- `Similarity` (`rlcs.dfy`) models `RLCS` as the function `Rlcs`, with
  `decreases |inputs[0]|`. `ComputeRlcs` is the code's version with the loop
  that builds the pre and post lists. `NormalizedRlcsTerms` models the
  integer part of `normalizedRLCS`.
- `Partitions` (`partitions.dfy`) models `addInputToCombinations`.
  - `ChildrenOf`, `Children` and `AddInput` give the children of one
    parent, of every parent, and the result. `Enumerate` is the fold over
    the inputs.
  - `AddInputToCombinations` is the three-loop method, proved equal to
    `AddInput`.
  - Proved: the shape of one step. Every enumerated combination is a
    partition of the inputs. For n >= 1 inputs there are S(n, k)
    combinations with k groups, where S is the Stirling number of the
    second kind. No inputs give no combination at all, although
    S(0, 0) = 1.
- `Clustering` (`clustering.dfy`) models the loops of `bruteForceClustering`.
  - The fold over the inputs, the largest-group-count loop, and the
    selection loop with its `>=`.
  - The floating-point score is a parameter of the model.

Bytes are the newtype `byte` (0 to 255). Byte strings are `seq<byte>`, and
examples are written as ASCII codes.

Facts about goose.go that the model makes precise:

- `LCS` finds the true longest common length, even though it takes the
  leftmost occurrence in each input: each other input is searched on its
  own for the same slice of `inputs[0]`, so the choice of occurrence never
  affects whether a length is found (`Matching.Lcs`).
- The offsets returned for inputs 1 to k-1 can be stale (goose.go:40): they
  need not point at the match.
- `addInputToCombinations` has no cap on the number of groups. Every
  parent also gets a child with a new singleton group.
- `normalizedRLCS` divides 0 by 0 when every input is empty, which gives
  NaN in Go.
- The brute-force score is the tuned formula of goose.go:140-142. Because the running best starts at score 0.0, nothing is
  chosen when every score is negative.
- With no inputs, `bruteForceClustering` enumerates nothing and returns
  `[]`. One input enumerates the single partition `[[x]]`, which is
  returned only when its score is at least 0.
- `LCS` and `RLCS` read `inputs[0]` without a guard, so an empty list of
  inputs panics. The model requires at least one input.

## Model

| member | source | states |
|---|---|---|
| Matching.MinLen | goose.go:11-17 | the result is at most every input's length and equal to one of them |
| Matching.MeasureLengths | goose.go:8-17 | fills a fresh array with every input's length and returns the shortest length |
| Matching.SlicesEqual | goose.go:32-38 | the byte-by-byte loop reports equal exactly when the two slices hold the same bytes |
| Matching.Others | goose.go:31-46 | writes offsets only for the inputs it scanned, writes only offsets where the slice of inputs[0] really occurs, each the leftmost occurrence in the range scanned (from the start offset in the first input scanned, from 0 in every later one), and ends at input 0 exactly when every scanned input has an occurrence at or after its start offset |
| Matching.MatchOthers | goose.go:29-46 | the while loop, with its `continue`, leaves subsetIndex and matchIndices as Others computes them |
| Matching.OthersStopsAtMissing | goose.go:31-46 | a failed inner loop stops at the first input, counting down from the last, in which the slice does not occur in the range scanned |
| Matching.Scan | goose.go:27-53 | succeeds exactly when some start at or after s1 gives a common substring; on success offs[0] is the leftmost such start and every other offset matches it; on failure offs[0] is unchanged; every offset is either unchanged or leaves room for the probe length |
| Matching.ScanLeftmostOffsets | goose.go:27-53 | on success every other offset is its input's leftmost occurrence of the slice at offs[0], because startIndex2 restarts at 0 after every match |
| Matching.ScanStarts | goose.go:27-53 | the start-offset loop, with its `break`, leaves subsetIndex and matchIndices as Scan computes them |
| Matching.Probe | goose.go:25-58 | each probe narrows the gap between upperBound and lowerBound, so the binary search terminates |
| Matching.RunProbe | goose.go:25-58 | one probe, updating matchIndices in place, gives the bounds, matched length and offsets that Probe computes |
| Matching.ProbeKeepsInvariant | goose.go:24-62 | each probe keeps the search invariant: the matched length is lowerBound - 1, it is common with the leftmost recorded start, all offsets leave room for it, and no length above upperBound is common |
| Matching.SuccessfulProbe | goose.go:47-55 | a successful probe makes its length the matched length and keeps the invariant |
| Matching.FailedProbe | goose.go:54-58 | a failed probe rules out its length and every longer one, even though it may overwrite offsets of inputs 1 to k-1 |
| Matching.InvariantAtEnd | goose.go:59-61 | when the bounds cross, the invariant is the promised longest match |
| Matching.Search | goose.go:24-62 | the binary search ends with the longest match |
| Matching.SearchStep | goose.go:24-62 | the search is one probe followed by the rest of the search, and the invariant holds in between |
| Matching.CommonAtShorter | goose.go:24-62 | a prefix of a common substring is common, so being common is monotone in the length, which the binary search relies on |
| Matching.ShorterCommon | goose.go:56-58 | if no substring of one length is common, no longer one is |
| Matching.BeyondMinLenNotCommon | goose.go:19-21 | no substring longer than the shortest input is common, so upperBound may start at minLen |
| Matching.LcsStartsSearch | goose.go:18-24 | with non-empty inputs the search starts with lowerBound 1, upperBound minLen, matched length 0 and zero offsets, and the invariant holds |
| Matching.Lcs | goose.go:7-64 | the matched length is the greatest length of a common substring of all inputs, at most the shortest input's length; offsets[0] is its leftmost start in inputs[0]; every offset leaves room for the match; if any input is empty the result is length 0 with all offsets 0 |
| Matching.ComputeLcs | goose.go:7-64 | the imperative binary search over the arrays returns exactly Lcs(inputs) |
| Matching.LcsOfTwoProbes | goose.go:24-62 | when the shortest input has length 2, the first probe succeeds and the second fails, the result is the second probe's offsets with length 1 |
| Matching.ExampleFirstProbe | goose.go:28-53 | on "abc", "ca", "xabc" the length-1 probe records offsets [0, 1, 1] |
| Matching.ExampleSecondProbeAt0 | goose.go:31-46 | the length-2 probe at start 0 fails at "ca" |
| Matching.ExampleSecondProbeAt1 | goose.go:31-46 | the length-2 probe at start 1 writes offset 2 for "xabc" before failing at "ca" |
| Matching.ExampleSecondProbe | goose.go:25-58 | the failing length-2 probe leaves offsets [0, 1, 2] |
| Matching.StaleOffsetExample | goose.go:40 | LCS(["abc", "ca", "xabc"]) is (1, [0, 1, 2]), and offset 2 of "xabc" holds "b", not the matched "a" |
| Matching.MatchesAtOne | goose.go:33-37 | a length-1 match compares one byte: both offsets are in range and the bytes there are equal |
| Matching.DifferentBytesDoNotMatch | goose.go:33-37 | two different bytes at in-range offsets are not a length-1 match |
| Similarity.Pre | goose.go:74 | one pre region per input |
| Similarity.Post | goose.go:75 | one post region per input |
| Similarity.Rlcs | goose.go:66-78 | the recursion terminates, and the score is at most every input's length |
| Similarity.SplitAround | goose.go:73-76 | the loop builds exactly the pre and post regions of every input around the match |
| Similarity.ComputeRlcs | goose.go:66-78 | the code's recursion, via ComputeLcs and the slicing loop, returns Rlcs(inputs) |
| Similarity.NormalizedRlcsTerms | goose.go:80-89 | maxLen is the largest input length, and the score is at most maxLen, so the ratio is at most 1 |
| Similarity.RlcsZeroIff | goose.go:66-78 | the score is 0 exactly when the inputs have no byte in common |
| Similarity.RlcsNoSharedByte | goose.go:66-78 | if some input shares no byte with the first, the score is 0 |
| Similarity.RlcsAbcXyz | goose.go:66-78 | RLCS(["abc", "xyz"]) is 0 |
| Similarity.RlcsAllEmpty | goose.go:70-72 | all-empty inputs score 0 |
| Similarity.RlcsOfCopies | goose.go:66-78 | copies of one string score its length: one full match at offset 0, then empty pre and post regions |
| Similarity.RlcsSingle | goose.go:66-78 | RLCS([s]) is the length of s |
| Similarity.RlcsPair | goose.go:66-78 | RLCS([s, s]) is the length of s |
| Partitions.ChildrenOf | goose.go:107-119 | one child per group of the parent plus one; the children that grow a group keep the parent's group count, and the last, which opens the new group [x], has one group more |
| Partitions.Children | goose.go:106-120 | the children of all parents, parent by parent; every parent contributes at least one child, so there are at least as many children as parents |
| Partitions.AddInput | goose.go:102-121 | one step of the enumeration never yields an empty list (no parents give the single combination [[x]]) and never yields fewer combinations than parents |
| Partitions.Enumerate | goose.go:127-129 | the fold yields combinations exactly when there are inputs, and its last combination is the all-singletons one |
| Partitions.ExtendGroup | goose.go:110-116 | the innermost loop copies the parent with the input appended to the chosen group only |
| Partitions.AddInputToCombinations | goose.go:102-121 | the three loops compute AddInput: [[[x]]] for no parents, otherwise the children parent by parent |
| Partitions.ChildrenLength | goose.go:106-120 | the number of children is the sum of the group count plus 1 over all parents |
| Partitions.ChildrenAppend | goose.go:106-120 | the children of two parent lists, one after the other, are the children of each list, one after the other |
| Partitions.ChildrenSplit | goose.go:106-120 | the children of parent i sit between those of the earlier and the later parents |
| Partitions.ChildrenSingle | goose.go:107-119 | the children of a single parent are its own children |
| Partitions.AddInputLength | goose.go:102-121 | for a non-empty parent list the output has one entry per group of every parent plus one per parent |
| Partitions.AddInputNewGroup | goose.go:118 | the last child of parent i, at the count of the earlier children plus its group count, is the parent with the new group [x] |
| Partitions.AddInputGrown | goose.go:108-116 | child j of parent i is the parent with x appended to group j alone |
| Partitions.ChildrenAt | goose.go:106-120 | the children of parent i occupy consecutive positions starting at the count of the earlier children |
| Partitions.AddInputShape | goose.go:102-121 | for a non-empty parent list the output has length the sum of the group count plus 1; the children of parent i start at the count of the earlier children; child j adds x to group j alone; the last child adds the group [x] |
| Partitions.FlattenExtend | goose.go:113 | appending x to one group adds x once to the combination's elements |
| Partitions.GrownIsPartition | goose.go:108-116 | adding x to one group of a partition of xs gives a partition of xs + [x] |
| Partitions.NewGroupIsPartition | goose.go:118 | adding the group [x] to a partition of xs gives a partition of xs + [x] |
| Partitions.ChildrenOfPartition | goose.go:107-119 | every child of a partition of xs is a partition of xs + [x] |
| Partitions.ChildrenArePartitions | goose.go:106-120 | every child of a list of partitions of xs is a partition of xs + [x] |
| Partitions.EnumerateArePartitions | goose.go:127-129 | after folding over the inputs, every combination is a partition: no group is empty and each input occurs exactly as often as in the inputs |
| Partitions.FlattenLength | goose.go:132-138 | a combination of non-empty groups has at least as many elements as groups |
| Partitions.PartitionGroupCount | goose.go:132-138 | a partition of n inputs has at most n groups |
| Partitions.Singletons | goose.go:118 | the all-singletons combination has one group per input |
| Partitions.NewGroupIsChild | goose.go:118 | every parent plus the new group [x] is among the children |
| Partitions.SingletonsEnumerated | goose.go:127-129 | for at least one input, the all-singletons combination is enumerated |
| Partitions.CountAppend | goose.go:106-120 | counting the combinations with k groups adds up over concatenation |
| Partitions.CountUniform | goose.go:108-117 | a list whose combinations all have m groups has all or none of them with k groups |
| Partitions.CountChildrenOf | goose.go:107-119 | a parent with m groups has m children with m groups and one with m + 1 |
| Partitions.CountChildren | goose.go:106-120 | one step follows the Stirling recurrence: the count with k groups is k times the parents with k groups plus the parents with k - 1 |
| Partitions.EnumerateCount | goose.go:127-129 | for n >= 1 inputs exactly S(n, k) combinations have k groups, the number of set partitions of n elements into k groups |
| Clustering.EnumerateCombinations | goose.go:127-129 | the fold over the inputs computes Enumerate(inputs) |
| Clustering.MaxGroups | goose.go:132-138 | the result bounds every combination's group count and is attained, or is 0 |
| Clustering.MaxGroupCount | goose.go:132-138 | the loop that raises the running maximum computes MaxGroups |
| Clustering.MaxGroupsOfEnumerate | goose.go:127-138 | over the enumerated partitions of n inputs the largest group count is exactly n |
| Clustering.SelectBest | goose.go:139-147 | returns [] when every score is negative; otherwise returns a combination with the highest score, and no later combination scores as high |
| Clustering.BestUnderEqualScores | goose.go:139-147 | the selection is the last best one under any score that agrees on the candidates, and any non-empty choice is a candidate |
| Clustering.BruteForceClustering | goose.go:123-149 | the result is [] for no inputs or when every score is negative; otherwise it is the last enumerated partition with the highest score, with the largest group count equal to the number of inputs; any non-empty result is a partition of the inputs |

## Left out

- Floating-point arithmetic (goose.go:88, 91-100, 140-142) is not
  modelled. This covers the division in `normalizedRLCS`,
  `normalizedCombinationRLCS`, and the tuned score. The brute-force score
  is a parameter of the model: a real-valued function of the combination
  and the largest group count.
- Matching.Lcs: requires at least one input (as do `Rlcs`, `ComputeLcs`,
  `ComputeRlcs` and `NormalizedRlcsTerms`). Go's `LCS` and `RLCS` index
  `inputs[0]` without a guard and panic on an empty list; that panic is not
  modelled.
- Similarity.NormalizedRlcsTerms: returns the integer numerator and
  denominator of `normalizedRLCS` rather than their `float64` ratio. The
  NaN that 0/0 produces for all-empty inputs is therefore not modelled.
- Clustering.SelectBest: scores are exact reals. Go's NaN scores, which
  compare false with `>=` and are never chosen, are not modelled.
- Clustering.MaxGroupCount: counts with `nat` where Go uses `float64`. The
  two agree below 2^53 groups.
- Partitions.AddInputToCombinations: models value semantics. Go's `append`
  can share backing arrays between a parent and its children
  (goose.go:113, 118). One sibling's append could then overwrite another's
  group, and the model does not capture that aliasing.
- `printCombination`, `printCombinations` and `main` (goose.go:151-181) are
  console output and demo glue. The RLCS value for the three demo strings
  in `main` is not pinned.
- Similarity.NormalizedRlcsTerms: the model does not prove that a ratio of
  1 implies identical inputs. It proves the converse direction:
  `RlcsOfCopies` gives score = length for identical inputs.
- Partitions.EnumerateCount: counts the combinations by group count. It
  does not prove them pairwise distinct, or that every set partition
  occurs (completeness).
- Hill-climb search, genetic search, random sources and a group-count cap
  are not part of goose.go and are not modelled.
