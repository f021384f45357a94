/** The recursive longest common substring score of goose.go (RLCS) and the
    integer part of its normalisation (normalizedRLCS). */
module Similarity {
  import opened Matching

  /** The region of each input strictly before its match offset. */
  function Pre(inputs: seq<Bytes>, m: Match): (pre: seq<Bytes>)
    requires |m.offsets| == |inputs|
    requires forall j :: 0 <= j < |inputs| ==> m.offsets[j] + m.length <= |inputs[j]|
    ensures |pre| == |inputs|
  {
    seq(|inputs|, j requires 0 <= j < |inputs| => inputs[j][..m.offsets[j]])
  }

  /** The region of each input strictly after its matched span. */
  function Post(inputs: seq<Bytes>, m: Match): (post: seq<Bytes>)
    requires |m.offsets| == |inputs|
    requires forall j :: 0 <= j < |inputs| ==> m.offsets[j] + m.length <= |inputs[j]|
    ensures |post| == |inputs|
  {
    seq(|inputs|, j requires 0 <= j < |inputs| => inputs[j][m.offsets[j] + m.length..])
  }

  /** RLCS of goose.go:66-78: the matched length plus the scores of the pre
      and post regions.  It never exceeds the length of any input: the
      matched length and the two regions of any one input add up to that
      input's length. */
  function Rlcs(inputs: seq<Bytes>): (r: nat)
    requires |inputs| >= 1
    ensures forall j :: 0 <= j < |inputs| ==> r <= |inputs[j]|
    decreases |inputs[0]|
  {
    var m := Lcs(inputs);
    if m.length == 0 then
      0
    else
      var pre, post := Pre(inputs, m), Post(inputs, m);
      assert forall j :: 0 <= j < |inputs| ==> |pre[j]| + m.length + |post[j]| == |inputs[j]|;
      m.length + Rlcs(pre) + Rlcs(post)
  }

  /** The loop of goose.go:73-76: one pre slice and one post slice per
      input, appended in input order. */
  method SplitAround(inputs: seq<Bytes>, matchLen: nat, indices: seq<nat>) returns (preInputs: seq<Bytes>, postInputs: seq<Bytes>)
    requires |indices| == |inputs|
    requires forall j :: 0 <= j < |inputs| ==> indices[j] + matchLen <= |inputs[j]|
    ensures preInputs == Pre(inputs, Match(matchLen, indices))
    ensures postInputs == Post(inputs, Match(matchLen, indices))
  {
    ghost var m := Match(matchLen, indices);
    preInputs, postInputs := [], [];
    for i := 0 to |indices|
      invariant preInputs == Pre(inputs, m)[..i]
      invariant postInputs == Post(inputs, m)[..i]
    {
      assert inputs[i][indices[i] + matchLen..|inputs[i]|] == Post(inputs, m)[i];
      preInputs := preInputs + [inputs[i][0..indices[i]]];
      postInputs := postInputs + [inputs[i][indices[i] + matchLen..|inputs[i]|]];
      assert Pre(inputs, m)[..i + 1] == Pre(inputs, m)[..i] + [Pre(inputs, m)[i]];
      assert Post(inputs, m)[..i + 1] == Post(inputs, m)[..i] + [Post(inputs, m)[i]];
    }
    assert Pre(inputs, m)[..|indices|] == Pre(inputs, m);
    assert Post(inputs, m)[..|indices|] == Post(inputs, m);
  }

  /** RLCS as goose.go:66-78 runs it: the match from ComputeLcs, the pre and
      post lists, two recursive calls. */
  method ComputeRlcs(inputs: seq<Bytes>) returns (score: nat)
    requires |inputs| >= 1
    ensures score == Rlcs(inputs)
    decreases |inputs[0]|
  {
    var matchLen, indices := ComputeLcs(inputs);
    if matchLen == 0 {
      return 0;
    }
    var preInputs, postInputs := SplitAround(inputs, matchLen, indices);
    var preScore := ComputeRlcs(preInputs);
    var postScore := ComputeRlcs(postInputs);
    score := matchLen + preScore + postScore;
  }

  /** normalizedRLCS of goose.go:80-89 up to its final floating-point
      division: the maximum input length (the loop of goose.go:81-87) and the
      RLCS score, which never exceeds it, so the ratio lies in [0, 1]; when
      every input is empty both are 0. */
  method NormalizedRlcsTerms(inputs: seq<Bytes>) returns (score: nat, maxLen: nat)
    requires |inputs| >= 1
    ensures score == Rlcs(inputs)
    ensures forall j :: 0 <= j < |inputs| ==> |inputs[j]| <= maxLen
    ensures exists j :: 0 <= j < |inputs| && maxLen == |inputs[j]|
    ensures score <= maxLen
  {
    maxLen := 0;
    for i := 0 to |inputs|
      invariant forall j :: 0 <= j < i ==> |inputs[j]| <= maxLen
      invariant maxLen == 0 || exists j :: 0 <= j < i && maxLen == |inputs[j]|
    {
      var length := |inputs[i]|;
      if maxLen < length {
        maxLen := length;
      }
    }
    score := ComputeRlcs(inputs);
  }

  /** The score is 0 exactly when the inputs have no byte in common: a match
      of any length contains a common byte. */
  lemma RlcsZeroIff(inputs: seq<Bytes>)
    requires |inputs| >= 1
    ensures Rlcs(inputs) == 0 <==> !Common(inputs, 1)
  {
    var m := Lcs(inputs);
    if m.length > 0 {
      CommonAtShorter(inputs, m.offsets[0], m.length, 1);
    }
  }

  /** Inputs of which one shares no byte with the first score 0. */
  lemma RlcsNoSharedByte(inputs: seq<Bytes>, k: nat)
    requires 1 <= k < |inputs|
    requires forall a, b :: 0 <= a < |inputs[0]| && 0 <= b < |inputs[k]| ==> inputs[0][a] != inputs[k][b]
    ensures Rlcs(inputs) == 0
  {
    RlcsZeroIff(inputs);
    if Common(inputs, 1) {
      var s1: nat :| CommonAt(inputs, s1, 1);
      var s2: nat :| 0 <= s2 && MatchesAt(inputs[0], s1, inputs[k], s2, 1);
      MatchesAtOne(inputs[0], s1, inputs[k], s2);
    }
  }

  /** RLCS(["abc", "xyz"]) is 0 (bytes as ASCII codes). */
  lemma RlcsAbcXyz()
    ensures Rlcs([[97, 98, 99], [120, 121, 122]]) == 0
  {
    RlcsNoSharedByte([[97, 98, 99], [120, 121, 122]], 1);
  }

  /** Inputs that are all empty score 0. */
  lemma RlcsAllEmpty(inputs: seq<Bytes>)
    requires |inputs| >= 1 && forall j :: 0 <= j < |inputs| ==> inputs[j] == []
    ensures Rlcs(inputs) == 0
  {
  }

  /** Copies of one sequence score its length: the whole sequence is matched
      at offset 0 in every copy, leaving empty pre and post regions. */
  lemma RlcsOfCopies(inputs: seq<Bytes>, s: Bytes)
    requires |inputs| >= 1 && forall j :: 0 <= j < |inputs| ==> inputs[j] == s
    ensures Rlcs(inputs) == |s|
  {
    var m := Lcs(inputs);
    if |s| > 0 {
      assert MinLen(inputs) == |s|;
      forall j | 1 <= j < |inputs|
        ensures OccursFrom(inputs[0], 0, |s|, inputs[j], 0)
      {
        assert MatchesAt(inputs[0], 0, inputs[j], 0, |s|);
      }
      assert CommonAt(inputs, 0, |s|);
      assert Common(inputs, |s|);
      assert m.length == |s|;
      var pre, post := Pre(inputs, m), Post(inputs, m);
      forall j | 0 <= j < |inputs|
        ensures pre[j] == [] && post[j] == []
      {
        assert m.offsets[j] + |s| <= |inputs[j]|;
      }
      RlcsAllEmpty(pre);
      RlcsAllEmpty(post);
      assert Rlcs(inputs) == m.length + Rlcs(pre) + Rlcs(post);
    }
  }

  /** RLCS([s]) is |s|. */
  lemma RlcsSingle(s: Bytes)
    ensures Rlcs([s]) == |s|
  {
    RlcsOfCopies([s], s);
  }

  /** RLCS([s, s]) is |s|. */
  lemma RlcsPair(s: Bytes)
    ensures Rlcs([s, s]) == |s|
  {
    RlcsOfCopies([s, s], s);
  }
}
