/** The single-level multi-sequence longest common substring match of goose.go
    (function LCS).  The pure functions Others, Scan and Search follow the three
    nested loops of the Go code step by step; Lcs is their composition, and the
    method ComputeLcs is the loop itself, proved to compute Lcs. */
module Matching {

  /** Go's `byte`. */
  newtype byte = b: int | 0 <= b < 256

  type Bytes = seq<byte>

  /** The match record: a length and one start offset per input. */
  datatype Match = Match(length: nat, offsets: seq<nat>)

  /** x[s1..s1+len] and y[s2..s2+len] both exist and hold the same bytes. */
  predicate MatchesAt(x: Bytes, s1: nat, y: Bytes, s2: nat, len: nat) {
    s1 + len <= |x| && s2 + len <= |y| && x[s1..s1 + len] == y[s2..s2 + len]
  }

  /** The slice x[s1..s1+len] occurs in y at an offset no smaller than `from`. */
  ghost predicate OccursFrom(x: Bytes, s1: nat, len: nat, y: Bytes, from: nat) {
    exists s2: nat :: from <= s2 && MatchesAt(x, s1, y, s2, len)
  }

  /** The length-`len` slice of inputs[0] starting at s1 occurs in every input. */
  ghost predicate CommonAt(inputs: seq<Bytes>, s1: nat, len: nat)
    requires |inputs| >= 1
  {
    s1 + len <= |inputs[0]| &&
    forall j :: 1 <= j < |inputs| ==> OccursFrom(inputs[0], s1, len, inputs[j], 0)
  }

  /** Some length-`len` slice of inputs[0] occurs in every input: the inputs
      have a common substring of that length. */
  ghost predicate Common(inputs: seq<Bytes>, len: nat)
    requires |inputs| >= 1
  {
    exists s1: nat :: CommonAt(inputs, s1, len)
  }

  /** The length of the shortest input. */
  function MinLen(inputs: seq<Bytes>): (m: nat)
    requires |inputs| >= 1
    ensures forall j :: 0 <= j < |inputs| ==> m <= |inputs[j]|
    ensures exists j :: 0 <= j < |inputs| && m == |inputs[j]|
  {
    if |inputs| == 1 then |inputs[0]|
    else
      var rest := MinLen(inputs[..|inputs| - 1]);
      assert forall j :: 0 <= j < |inputs| - 1 ==> inputs[..|inputs| - 1][j] == inputs[j];
      if |inputs[|inputs| - 1]| < rest then |inputs[|inputs| - 1]| else rest
  }

  /** No position of `y` from `from` up to, not including, `upto` holds
      x[s1..s1+len]: an occurrence at `upto` is the leftmost one from `from`. */
  ghost predicate NoMatchBefore(x: Bytes, s1: nat, len: nat, y: Bytes, from: nat, upto: nat)
  {
    forall t: nat :: from <= t < upto ==> !MatchesAt(x, s1, y, t, len)
  }

  /** The inner loop of one probe at start offset s1 (goose.go:31-46): from
      input `si` down to input 1, find the leftmost occurrence of
      inputs[0][s1..s1+len], scanning input `si` from s2 and every later one
      from 0, and record it in `offs`: no earlier position of the scanned
      range matches.  Stops at the first input without an occurrence.  The first component of the result is the final subsetIndex:
      0 exactly when every input had an occurrence. */
  function Others(inputs: seq<Bytes>, s1: nat, len: nat, si: nat, s2: nat, offs: seq<nat>): (r: (nat, seq<nat>))
    requires si < |inputs| == |offs|
    requires s1 + len <= |inputs[0]|
    ensures r.0 <= si && |r.1| == |offs|
    ensures forall j :: 0 <= j < |offs| && !(r.0 < j <= si) ==> r.1[j] == offs[j]
    ensures forall j :: r.0 < j <= si ==> MatchesAt(inputs[0], s1, inputs[j], r.1[j], len)
    ensures forall j :: r.0 < j <= si ==> NoMatchBefore(inputs[0], s1, len, inputs[j], if j == si then s2 else 0, r.1[j])
    ensures r.0 == 0 <==>
              (si == 0 || OccursFrom(inputs[0], s1, len, inputs[si], s2)) &&
              forall j :: 1 <= j < si ==> OccursFrom(inputs[0], s1, len, inputs[j], 0)
    decreases si, |inputs[si]| - s2
  {
    if si == 0 || s2 + len > |inputs[si]| then
      (si, offs)
    else if inputs[0][s1..s1 + len] == inputs[si][s2..s2 + len] then
      assert MatchesAt(inputs[0], s1, inputs[si], s2, len);
      Others(inputs, s1, len, si - 1, 0, offs[si := s2])
    else
      assert forall t: nat :: s2 <= t && MatchesAt(inputs[0], s1, inputs[si], t, len) ==> s2 + 1 <= t;
      Others(inputs, s1, len, si, s2 + 1, offs)
  }

  /** A failed inner loop stops at the first input, counting down, in which
      the slice does not occur in the range it scanned. */
  lemma {:induction false} OthersStopsAtMissing(inputs: seq<Bytes>, s1: nat, len: nat, si: nat, s2: nat, offs: seq<nat>)
    requires si < |inputs| == |offs|
    requires s1 + len <= |inputs[0]|
    ensures var r := Others(inputs, s1, len, si, s2, offs);
      r.0 > 0 ==> !OccursFrom(inputs[0], s1, len, inputs[r.0], if r.0 == si then s2 else 0)
    decreases si, |inputs[si]| - s2
  {
    if si == 0 || s2 + len > |inputs[si]| {
    } else if inputs[0][s1..s1 + len] == inputs[si][s2..s2 + len] {
      OthersStopsAtMissing(inputs, s1, len, si - 1, 0, offs[si := s2]);
    } else {
      OthersStopsAtMissing(inputs, s1, len, si, s2 + 1, offs);
      assert !MatchesAt(inputs[0], s1, inputs[si], s2, len);
    }
  }

  /** The loop over start offsets s1 in inputs[0] for one probe length
      (goose.go:27-53).  `si` is the value subsetIndex holds when the loop
      condition is evaluated.  The result is subsetIndex after the loop (0 on
      success) and the offsets, with offs[0] set to the successful s1. */
  function Scan(inputs: seq<Bytes>, len: nat, s1: nat, si: nat, offs: seq<nat>): (r: (nat, seq<nat>))
    requires si < |inputs| == |offs|
    requires si > 0 || s1 + len <= |inputs[0]|
    ensures |r.1| == |offs|
    ensures r.0 == 0 <==> exists s: nat :: s1 <= s && CommonAt(inputs, s, len)
    ensures r.0 == 0 ==> s1 <= r.1[0] && CommonAt(inputs, r.1[0], len)
    ensures r.0 == 0 ==> forall s: nat :: s1 <= s < r.1[0] ==> !CommonAt(inputs, s, len)
    ensures r.0 == 0 ==> forall j :: 1 <= j < |inputs| ==> MatchesAt(inputs[0], r.1[0], inputs[j], r.1[j], len)
    ensures r.0 != 0 ==> r.1[0] == offs[0]
    ensures forall j :: 0 <= j < |offs| ==> r.1[j] == offs[j] || r.1[j] + len <= |inputs[j]|
    decreases |inputs[0]| - s1
  {
    if s1 + len > |inputs[0]| then
      (si, offs)
    else
      var (si', offs') := Others(inputs, s1, len, |inputs| - 1, 0, offs);
      if si' == 0 then
        assert CommonAt(inputs, s1, len);
        (0, offs'[0 := s1])
      else
        Scan(inputs, len, s1 + 1, si', offs')
  }

  /** On success every other offset Scan records is its input's leftmost
      occurrence of the match in inputs[0]. */
  lemma {:induction false} ScanLeftmostOffsets(inputs: seq<Bytes>, len: nat, s1: nat, si: nat, offs: seq<nat>)
    requires si < |inputs| == |offs|
    requires si > 0 || s1 + len <= |inputs[0]|
    ensures var r := Scan(inputs, len, s1, si, offs);
      r.0 == 0 ==> forall j :: 1 <= j < |inputs| ==> NoMatchBefore(inputs[0], r.1[0], len, inputs[j], 0, r.1[j])
    decreases |inputs[0]| - s1
  {
    if s1 + len <= |inputs[0]| {
      var (si', offs') := Others(inputs, s1, len, |inputs| - 1, 0, offs);
      if si' != 0 {
        ScanLeftmostOffsets(inputs, len, s1 + 1, si', offs');
      }
    }
  }

  /** What the binary search keeps true from one probe to the next: the
      matched length is lowerBound - 1, every offset leaves room for it, the
      recorded match in inputs[0] is the leftmost one of that length, and no
      length above upperBound is common. */
  ghost predicate SearchInvariant(inputs: seq<Bytes>, lb: nat, ub: nat, matched: nat, offs: seq<nat>)
  {
    && 1 <= |inputs| == |offs|
    && 1 <= lb && ub <= MinLen(inputs)
    && matched + 1 == lb
    && (forall j :: 0 <= j < |offs| ==> offs[j] + matched <= |inputs[j]|)
    && (matched > 0 ==> CommonAt(inputs, offs[0], matched))
    && (matched > 0 ==> forall s: nat :: s < offs[0] ==> !CommonAt(inputs, s, matched))
    && (forall l: nat :: ub < l ==> !Common(inputs, l))
  }

  /** The outcome the single-level match promises. */
  ghost predicate LongestMatch(inputs: seq<Bytes>, r: Match)
    requires |inputs| >= 1
  {
    && |r.offsets| == |inputs|
    && r.length <= MinLen(inputs)
    && (forall j :: 0 <= j < |inputs| ==> r.offsets[j] + r.length <= |inputs[j]|)
    && (r.length > 0 ==> CommonAt(inputs, r.offsets[0], r.length))
    && (r.length > 0 ==> forall s: nat :: s < r.offsets[0] ==> !CommonAt(inputs, s, r.length))
    && (forall l: nat :: r.length < l ==> !Common(inputs, l))
  }

  /** One probe of the binary search (goose.go:25-58): probe the middle
      length, then raise lowerBound past it on success or lower upperBound
      below it on failure.  Returns (lowerBound, upperBound, matchedLen,
      offsets) after the probe. */
  function Probe(inputs: seq<Bytes>, lb: nat, ub: nat, matched: nat, offs: seq<nat>): (r: (nat, nat, nat, seq<nat>))
    requires 1 <= |inputs| == |offs|
    requires 1 <= lb <= ub <= MinLen(inputs)
    ensures r.1 - r.0 < ub - lb
  {
    var len := (lb + ub) / 2;
    var (si, offs') := Scan(inputs, len, 0, |inputs| - 1, offs);
    if si == 0 then (len + 1, ub, len, offs') else (lb, len - 1, matched, offs')
  }

  /** Each probe keeps the search invariant. */
  lemma ProbeKeepsInvariant(inputs: seq<Bytes>, lb: nat, ub: nat, matched: nat, offs: seq<nat>)
    requires SearchInvariant(inputs, lb, ub, matched, offs) && lb <= ub
    ensures var p := Probe(inputs, lb, ub, matched, offs);
            SearchInvariant(inputs, p.0, p.1, p.2, p.3)
  {
    var len := (lb + ub) / 2;
    var scan := Scan(inputs, len, 0, |inputs| - 1, offs);
    if scan.0 == 0 {
      assert Probe(inputs, lb, ub, matched, offs) == (len + 1, ub, len, scan.1);
      SuccessfulProbe(inputs, lb, ub, len, scan.1);
    } else {
      assert Probe(inputs, lb, ub, matched, offs) == (lb, len - 1, matched, scan.1);
      FailedProbe(inputs, lb, ub, matched, offs, len, scan.1);
    }
  }

  /** A successful probe at `len` makes `len` the matched length. */
  lemma SuccessfulProbe(inputs: seq<Bytes>, lb: nat, ub: nat, len: nat, offs': seq<nat>)
    requires 1 <= |inputs| == |offs'|
    requires 1 <= lb <= len <= ub <= MinLen(inputs)
    requires forall l: nat :: ub < l ==> !Common(inputs, l)
    requires CommonAt(inputs, offs'[0], len)
    requires forall s: nat :: 0 <= s < offs'[0] ==> !CommonAt(inputs, s, len)
    requires forall j :: 1 <= j < |inputs| ==> MatchesAt(inputs[0], offs'[0], inputs[j], offs'[j], len)
    ensures SearchInvariant(inputs, len + 1, ub, len, offs')
  {
    forall j | 0 <= j < |offs'|
      ensures offs'[j] + len <= |inputs[j]|
    {
      if j > 0 {
        assert MatchesAt(inputs[0], offs'[0], inputs[j], offs'[j], len);
      }
    }
  }

  /** A failed probe at `len` rules out every length from `len` up. */
  lemma FailedProbe(inputs: seq<Bytes>, lb: nat, ub: nat, matched: nat, offs: seq<nat>, len: nat, offs': seq<nat>)
    requires SearchInvariant(inputs, lb, ub, matched, offs)
    requires lb <= len <= ub && |offs'| == |offs|
    requires !exists s: nat :: 0 <= s && CommonAt(inputs, s, len)
    requires offs'[0] == offs[0]
    requires forall j :: 0 <= j < |offs| ==> offs'[j] == offs[j] || offs'[j] + len <= |inputs[j]|
    ensures SearchInvariant(inputs, lb, len - 1, matched, offs')
  {
    ShorterCommon(inputs, len);
    forall j | 0 <= j < |offs'|
      ensures offs'[j] + matched <= |inputs[j]|
    {
    }
  }

  /** When the bounds cross, the invariant is the promised outcome. */
  lemma InvariantAtEnd(inputs: seq<Bytes>, lb: nat, ub: nat, matched: nat, offs: seq<nat>)
    requires SearchInvariant(inputs, lb, ub, matched, offs) && lb > ub
    ensures LongestMatch(inputs, Match(matched, offs))
  {
  }

  /** The binary search over the probe length (goose.go:24-62), one probe per call. */
  function Search(inputs: seq<Bytes>, lb: nat, ub: nat, matched: nat, offs: seq<nat>): (r: Match)
    requires SearchInvariant(inputs, lb, ub, matched, offs)
    requires lb <= ub
    ensures LongestMatch(inputs, r)
    decreases ub - lb
  {
    ProbeKeepsInvariant(inputs, lb, ub, matched, offs);
    var (lb', ub', matched', offs') := Probe(inputs, lb, ub, matched, offs);
    if lb' > ub' then
      InvariantAtEnd(inputs, lb', ub', matched', offs');
      Match(matched', offs')
    else
      Search(inputs, lb', ub', matched', offs')
  }

  /** Search is one probe followed by the rest of the search. */
  lemma SearchStep(inputs: seq<Bytes>, lb: nat, ub: nat, matched: nat, offs: seq<nat>)
    requires SearchInvariant(inputs, lb, ub, matched, offs) && lb <= ub
    ensures var p := Probe(inputs, lb, ub, matched, offs);
            SearchInvariant(inputs, p.0, p.1, p.2, p.3) &&
            Search(inputs, lb, ub, matched, offs) ==
              if p.0 > p.1 then Match(p.2, p.3) else Search(inputs, p.0, p.1, p.2, p.3)
  {
    ProbeKeepsInvariant(inputs, lb, ub, matched, offs);
  }

  /** LCS(inputs) of goose.go:7-64. */
  function Lcs(inputs: seq<Bytes>): (r: Match)
    requires |inputs| >= 1
    ensures LongestMatch(inputs, r)
    ensures MinLen(inputs) == 0 ==> r == Match(0, seq(|inputs|, _ => 0))
  {
    var zeros: seq<nat> := seq(|inputs|, _ => 0);
    var minLen := MinLen(inputs);
    if minLen == 0 then
      Match(0, zeros)
    else
      BeyondMinLenNotCommon(inputs);
      Search(inputs, 1, minLen, 0, zeros)
  }

  /** A prefix of a matching pair of slices matches too. */
  lemma MatchesAtShorter(x: Bytes, s1: nat, y: Bytes, s2: nat, len: nat, len': nat)
    requires MatchesAt(x, s1, y, s2, len) && len' <= len
    ensures MatchesAt(x, s1, y, s2, len')
  {
    assert x[s1..s1 + len'] == x[s1..s1 + len][..len'];
    assert y[s2..s2 + len'] == y[s2..s2 + len][..len'];
  }

  /** A match of length one is a shared byte. */
  lemma MatchesAtOne(x: Bytes, s1: nat, y: Bytes, s2: nat)
    requires MatchesAt(x, s1, y, s2, 1)
    ensures s1 < |x| && s2 < |y| && x[s1] == y[s2]
  {
    assert x[s1..s1 + 1][0] == y[s2..s2 + 1][0];
  }

  /** Different bytes are no match of length one. */
  lemma DifferentBytesDoNotMatch(x: Bytes, s1: nat, y: Bytes, s2: nat)
    requires s1 < |x| && s2 < |y| && x[s1] != y[s2]
    ensures !MatchesAt(x, s1, y, s2, 1)
  {
    assert x[s1..s1 + 1][0] != y[s2..s2 + 1][0];
  }

  /** Common lengths are closed downwards: the predicate the binary search
      relies on is monotone. */
  lemma {:induction false} CommonAtShorter(inputs: seq<Bytes>, s1: nat, len: nat, len': nat)
    requires |inputs| >= 1 && CommonAt(inputs, s1, len) && len' <= len
    ensures CommonAt(inputs, s1, len')
  {
    forall j | 1 <= j < |inputs|
      ensures OccursFrom(inputs[0], s1, len', inputs[j], 0)
    {
      var s2: nat :| 0 <= s2 && MatchesAt(inputs[0], s1, inputs[j], s2, len);
      MatchesAtShorter(inputs[0], s1, inputs[j], s2, len, len');
    }
  }

  /** If no length-`len` slice is common, no longer one is. */
  lemma ShorterCommon(inputs: seq<Bytes>, len: nat)
    requires |inputs| >= 1 && !Common(inputs, len)
    ensures forall l: nat :: len <= l ==> !Common(inputs, l)
  {
    forall l: nat | len <= l && Common(inputs, l)
      ensures false
    {
      var s1: nat :| CommonAt(inputs, s1, l);
      CommonAtShorter(inputs, s1, l, len);
    }
  }

  /** No substring longer than the shortest input is common. */
  lemma BeyondMinLenNotCommon(inputs: seq<Bytes>)
    requires |inputs| >= 1
    ensures forall l: nat :: MinLen(inputs) < l ==> !Common(inputs, l)
  {
    var m := MinLen(inputs);
    var j :| 0 <= j < |inputs| && m == |inputs[j]|;
  }

  /** A search over lengths 1 and 2 whose first probe succeeds and whose
      second fails ends after those two probes. */
  lemma LcsOfTwoProbes(inputs: seq<Bytes>, offs1: seq<nat>, offs2: seq<nat>)
    requires |inputs| >= 1 && MinLen(inputs) == 2
    requires Probe(inputs, 1, 2, 0, seq(|inputs|, _ => 0)) == (2, 2, 1, offs1)
    requires |offs1| == |inputs| && Probe(inputs, 2, 2, 1, offs1) == (2, 1, 1, offs2)
    ensures Lcs(inputs) == Match(1, offs2)
  {
    var zeros: seq<nat> := seq(|inputs|, _ => 0);
    LcsStartsSearch(inputs);
    SearchStep(inputs, 1, 2, 0, zeros);
    assert Search(inputs, 1, 2, 0, zeros) == Search(inputs, 2, 2, 1, offs1);
    SearchStep(inputs, 2, 2, 1, offs1);
  }

  /** On non-empty inputs, Lcs is the search over lengths 1 to MinLen. */
  lemma LcsStartsSearch(inputs: seq<Bytes>)
    requires |inputs| >= 1 && MinLen(inputs) > 0
    ensures SearchInvariant(inputs, 1, MinLen(inputs), 0, seq(|inputs|, _ => 0))
    ensures Lcs(inputs) == Search(inputs, 1, MinLen(inputs), 0, seq(|inputs|, _ => 0))
  {
    BeyondMinLenNotCommon(inputs);
  }

  /** "abc", "ca" and "xabc" as ASCII codes. */
  const ExampleInputs: seq<Bytes> := [[97, 98, 99], [99, 97], [120, 97, 98, 99]]

  /** The length-1 probe: "a" occurs in "xabc" at 1 and in "ca" at 1. */
  lemma ExampleFirstProbe()
    ensures MinLen(ExampleInputs) == 2
    ensures Probe(ExampleInputs, 1, 2, 0, [0, 0, 0]) == (2, 2, 1, [0, 1, 1])
  {
    var inputs := ExampleInputs;
    assert MinLen(inputs) == 2;
    assert inputs[0][0..1] == [97] && inputs[1][0..1] == [99] && inputs[1][1..2] == [97];
    assert inputs[2][0..1] == [120] && inputs[2][1..2] == [97];
    assert [0, 0, 0][2 := 1] == [0, 0, 1] && [0, 0, 1][1 := 1] == [0, 1, 1] && [0, 1, 1][0 := 0] == [0, 1, 1];
    assert Others(inputs, 0, 1, 0, 0, [0, 1, 1]) == (0, [0, 1, 1]);
    assert Others(inputs, 0, 1, 1, 1, [0, 0, 1]) == (0, [0, 1, 1]);
    assert Others(inputs, 0, 1, 1, 0, [0, 0, 1]) == (0, [0, 1, 1]);
    assert Others(inputs, 0, 1, 2, 1, [0, 0, 0]) == (0, [0, 1, 1]);
    assert Others(inputs, 0, 1, 2, 0, [0, 0, 0]) == (0, [0, 1, 1]);
    assert Scan(inputs, 1, 0, 2, [0, 0, 0]) == (0, [0, 1, 1]);
  }

  /** The length-2 probe from offset 0: "ab" occurs in "xabc" at 1, not in "ca". */
  lemma ExampleSecondProbeAt0()
    ensures Others(ExampleInputs, 0, 2, 2, 0, [0, 1, 1]) == (1, [0, 1, 1])
  {
    var inputs := ExampleInputs;
    assert inputs[0][0..2] == [97, 98] && inputs[1][0..2] == [99, 97];
    assert inputs[2][0..2] == [120, 97] && inputs[2][1..3] == [97, 98];
    assert [0, 1, 1][2 := 1] == [0, 1, 1];
    assert Others(inputs, 0, 2, 1, 1, [0, 1, 1]) == (1, [0, 1, 1]);
    assert Others(inputs, 0, 2, 1, 0, [0, 1, 1]) == (1, [0, 1, 1]);
    assert Others(inputs, 0, 2, 2, 1, [0, 1, 1]) == (1, [0, 1, 1]);
  }

  /** The length-2 probe from offset 1: "bc" occurs in "xabc" at 2, not in "ca". */
  lemma ExampleSecondProbeAt1()
    ensures Others(ExampleInputs, 1, 2, 2, 0, [0, 1, 1]) == (1, [0, 1, 2])
  {
    var inputs := ExampleInputs;
    assert inputs[0][1..3] == [98, 99] && inputs[1][0..2] == [99, 97];
    assert inputs[2][0..2] == [120, 97] && inputs[2][1..3] == [97, 98] && inputs[2][2..4] == [98, 99];
    assert [0, 1, 1][2 := 2] == [0, 1, 2];
    assert Others(inputs, 1, 2, 1, 1, [0, 1, 2]) == (1, [0, 1, 2]);
    assert Others(inputs, 1, 2, 1, 0, [0, 1, 2]) == (1, [0, 1, 2]);
    assert Others(inputs, 1, 2, 2, 2, [0, 1, 1]) == (1, [0, 1, 2]);
    assert Others(inputs, 1, 2, 2, 1, [0, 1, 1]) == (1, [0, 1, 2]);
  }

  /** The length-2 probe fails and leaves the offset of "bc" in "xabc". */
  lemma ExampleSecondProbe()
    ensures Probe(ExampleInputs, 2, 2, 1, [0, 1, 1]) == (2, 1, 1, [0, 1, 2])
  {
    var inputs := ExampleInputs;
    ExampleSecondProbeAt0();
    ExampleSecondProbeAt1();
    assert Scan(inputs, 2, 2, 1, [0, 1, 2]) == (1, [0, 1, 2]);
    assert Scan(inputs, 2, 1, 1, [0, 1, 1]) == (1, [0, 1, 2]);
    assert Scan(inputs, 2, 0, 2, [0, 1, 1]) == (1, [0, 1, 2]);
  }

  /** The worked example LCS(["abc", "ca", "xabc"]).  The length-1 probe
      succeeds with "a"; the length-2 probe then fails, but on its way it
      records the occurrence of "bc" in "xabc" at offset 2, which overwrites
      the offset 1 of "a".  So the offset returned for "xabc" does not point
      at the matched byte. */
  lemma StaleOffsetExample()
    ensures Lcs(ExampleInputs) == Match(1, [0, 1, 2])
    ensures !MatchesAt(ExampleInputs[0], 0, ExampleInputs[2], 2, 1)
  {
    ExampleFirstProbe();
    ExampleSecondProbe();
    assert seq(3, _ => 0) == [0, 0, 0];
    LcsOfTwoProbes(ExampleInputs, [0, 1, 1], [0, 1, 2]);
    assert ExampleInputs[0][0] == 97 && ExampleInputs[2][2] == 98;
    DifferentBytesDoNotMatch(ExampleInputs[0], 0, ExampleInputs[2], 2);
  }

  /** The byte-by-byte comparison of goose.go:32-38. */
  method SlicesEqual(x: Bytes, s1: nat, y: Bytes, s2: nat, len: nat) returns (equal: bool)
    requires s1 + len <= |x| && s2 + len <= |y|
    ensures equal <==> x[s1..s1 + len] == y[s2..s2 + len]
  {
    equal := true;
    for checkIndex := 0 to len
      invariant x[s1..s1 + checkIndex] == y[s2..s2 + checkIndex]
      invariant equal
    {
      if x[s1 + checkIndex] != y[s2 + checkIndex] {
        assert x[s1..s1 + len][checkIndex] != y[s2..s2 + len][checkIndex];
        equal := false;
        break;
      }
      assert x[s1..s1 + checkIndex + 1] == x[s1..s1 + checkIndex] + [x[s1 + checkIndex]];
      assert y[s2..s2 + checkIndex + 1] == y[s2..s2 + checkIndex] + [y[s2 + checkIndex]];
    }
  }

  /** The per-input search of one probe at start offset startIndex1
      (goose.go:29-46): writes the leftmost occurrence in each input, from the
      last one back, into matchIndices, and returns the final subsetIndex. */
  method MatchOthers(inputs: seq<Bytes>, lengths: array<nat>, matchIndices: array<nat>, startIndex1: nat, subsetLen: nat)
    returns (subsetIndex: nat)
    requires 1 <= |inputs| == lengths.Length == matchIndices.Length && lengths != matchIndices
    requires forall j :: 0 <= j < |inputs| ==> lengths[j] == |inputs[j]|
    requires startIndex1 + subsetLen <= |inputs[0]|
    modifies matchIndices
    ensures (subsetIndex, matchIndices[..]) == Others(inputs, startIndex1, subsetLen, |inputs| - 1, 0, old(matchIndices[..]))
  {
    ghost var target := Others(inputs, startIndex1, subsetLen, |inputs| - 1, 0, matchIndices[..]);
    var startIndex2: nat := 0;
    subsetIndex := |inputs| - 1;
    while startIndex2 <= lengths[subsetIndex] - subsetLen && subsetIndex > 0
      invariant subsetIndex < |inputs| == matchIndices.Length
      invariant Others(inputs, startIndex1, subsetLen, subsetIndex, startIndex2, matchIndices[..]) == target
      decreases subsetIndex, |inputs[subsetIndex]| - startIndex2
    {
      var equal := SlicesEqual(inputs[0], startIndex1, inputs[subsetIndex], startIndex2, subsetLen);
      ghost var before := matchIndices[..];
      if equal {
        assert Others(inputs, startIndex1, subsetLen, subsetIndex, startIndex2, before)
            == Others(inputs, startIndex1, subsetLen, subsetIndex - 1, 0, before[subsetIndex := startIndex2]);
        matchIndices[subsetIndex] := startIndex2;
        assert matchIndices[..] == before[subsetIndex := startIndex2];
        subsetIndex := subsetIndex - 1;
        startIndex2 := 0;
        continue;
      }
      assert Others(inputs, startIndex1, subsetLen, subsetIndex, startIndex2, before)
          == Others(inputs, startIndex1, subsetLen, subsetIndex, startIndex2 + 1, before);
      startIndex2 := startIndex2 + 1;
    }
    assert Others(inputs, startIndex1, subsetLen, subsetIndex, startIndex2, matchIndices[..]) == (subsetIndex, matchIndices[..]);
  }

  /** The scan over start offsets in inputs[0] for one probe length
      (goose.go:27-53); returns subsetIndex after the scan, 0 on success, in
      which case matchIndices[0] holds the successful start offset. */
  method ScanStarts(inputs: seq<Bytes>, lengths: array<nat>, matchIndices: array<nat>, subsetLen: nat)
    returns (subsetIndex: nat)
    requires 1 <= |inputs| == lengths.Length == matchIndices.Length && lengths != matchIndices
    requires forall j :: 0 <= j < |inputs| ==> lengths[j] == |inputs[j]|
    requires subsetLen <= |inputs[0]|
    modifies matchIndices
    ensures (subsetIndex, matchIndices[..]) == Scan(inputs, subsetLen, 0, |inputs| - 1, old(matchIndices[..]))
  {
    subsetIndex := |inputs| - 1;
    var startIndex1: nat := 0;
    while startIndex1 <= lengths[0] - subsetLen
      invariant subsetIndex < |inputs|
      invariant subsetIndex > 0 || startIndex1 + subsetLen <= |inputs[0]|
      invariant Scan(inputs, subsetLen, startIndex1, subsetIndex, matchIndices[..])
                == Scan(inputs, subsetLen, 0, |inputs| - 1, old(matchIndices[..]))
      decreases |inputs[0]| - startIndex1
    {
      subsetIndex := MatchOthers(inputs, lengths, matchIndices, startIndex1, subsetLen);
      if subsetIndex == 0 {
        matchIndices[0] := startIndex1;
        break;
      }
      startIndex1 := startIndex1 + 1;
    }
  }

  /** One probe of the binary search (goose.go:25-58), updating matchIndices
      in place and returning the new bounds and matched length. */
  method RunProbe(inputs: seq<Bytes>, lengths: array<nat>, matchIndices: array<nat>, lowerBound: nat, upperBound: nat, matchedLen: nat)
    returns (lowerBound': nat, upperBound': nat, matchedLen': nat)
    requires 1 <= |inputs| == lengths.Length == matchIndices.Length && lengths != matchIndices
    requires forall j :: 0 <= j < |inputs| ==> lengths[j] == |inputs[j]|
    requires 1 <= lowerBound <= upperBound <= MinLen(inputs)
    modifies matchIndices
    ensures (lowerBound', upperBound', matchedLen', matchIndices[..])
            == Probe(inputs, lowerBound, upperBound, matchedLen, old(matchIndices[..]))
  {
    ghost var before := matchIndices[..];
    lowerBound', upperBound', matchedLen' := lowerBound, upperBound, matchedLen;
    var subsetLen := (upperBound + lowerBound) / 2;
    var subsetIndex := ScanStarts(inputs, lengths, matchIndices, subsetLen);
    ghost var scan := Scan(inputs, subsetLen, 0, |inputs| - 1, before);
    assert (subsetIndex, matchIndices[..]) == scan;
    assert Probe(inputs, lowerBound, upperBound, matchedLen, before)
        == if scan.0 == 0 then (subsetLen + 1, upperBound, subsetLen, scan.1)
           else (lowerBound, subsetLen - 1, matchedLen, scan.1);
    if subsetIndex == 0 {
      matchedLen' := subsetLen;
      lowerBound' := subsetLen + 1;
    } else {
      upperBound' := subsetLen - 1;
    }
  }

  /** The set-up of goose.go:8-17: an array of the input lengths and the
      shortest length. */
  method MeasureLengths(inputs: seq<Bytes>) returns (lengths: array<nat>, minLen: nat)
    requires |inputs| >= 1
    ensures fresh(lengths) && lengths.Length == |inputs|
    ensures forall j :: 0 <= j < |inputs| ==> lengths[j] == |inputs[j]|
    ensures minLen == MinLen(inputs)
  {
    lengths := new nat[|inputs|](_ => 0);
    minLen := |inputs[0]|;
    for i := 0 to |inputs|
      invariant forall j :: 0 <= j < i ==> lengths[j] == |inputs[j]|
      invariant forall j :: 0 <= j < i ==> minLen <= |inputs[j]|
      invariant minLen == |inputs[0]| || exists j :: 0 <= j < i && minLen == |inputs[j]|
    {
      lengths[i] := |inputs[i]|;
      if lengths[i] < minLen {
        minLen := lengths[i];
      }
    }
  }

  /** LCS of goose.go:7-64: the lengths and the match offsets live in arrays
      that the binary search, through ScanStarts and MatchOthers, updates in
      place. */
  method ComputeLcs(inputs: seq<Bytes>) returns (matchedLen: nat, offsets: seq<nat>)
    requires |inputs| >= 1
    ensures Match(matchedLen, offsets) == Lcs(inputs)
  {
    var inputsCount := |inputs|;
    var matchIndices := new nat[inputsCount](_ => 0);
    var lengths, minLen := MeasureLengths(inputs);
    assert matchIndices[..] == seq(inputsCount, _ => 0);
    matchedLen := 0;
    var upperBound: nat := minLen;
    var lowerBound: nat := 1;
    BeyondMinLenNotCommon(inputs);
    while minLen > 0
      invariant forall j :: 0 <= j < inputsCount ==> lengths[j] == |inputs[j]|
      invariant SearchInvariant(inputs, lowerBound, upperBound, matchedLen, matchIndices[..])
      invariant minLen > 0 ==> lowerBound <= upperBound
      invariant minLen == 0 ==> matchedLen == 0 && matchIndices[..] == seq(inputsCount, _ => 0)
      invariant minLen > 0 ==> Search(inputs, lowerBound, upperBound, matchedLen, matchIndices[..]) == Lcs(inputs)
      decreases upperBound - lowerBound
    {
      SearchStep(inputs, lowerBound, upperBound, matchedLen, matchIndices[..]);
      lowerBound, upperBound, matchedLen := RunProbe(inputs, lengths, matchIndices, lowerBound, upperBound, matchedLen);
      if lowerBound > upperBound {
        break;
      }
    }
    offsets := matchIndices[..];
  }
}
