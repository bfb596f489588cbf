/** The two training loops: seed, then select and merge until no pair repeats. */
module Training {
  import opened BpeTypes
  import opened PairCounts
  import opened Merge
  import opened FastMerge
  import opened Vocabulary
  import opened Selection

  /** Every token of s has an entry in v. */
  ghost predicate InVocab(v: seq<Rule>, s: seq<nat>)
  {
    forall x :: x in s ==> x < |v|
  }

  /** No adjacent pair occurs twice: the stopping condition of training. */
  ghost predicate Converged(s: seq<nat>)
  {
    forall q :: Count(s, q) <= 1
  }

  /** A sequence of two or more tokens has a non-empty index. */
  lemma CountsNonEmpty(m: map<Pair, nat>, s: seq<nat>)
    requires Consistent(m, s) && |s| >= 2
    ensures m != map[]
  {
    var q := Pair(s[0], s[1]);
    assert Count(s, q) > 0;
    assert q in m;
  }

  /** The state the loop keeps between iterations. */
  ghost predicate TrainState(input: seq<Byte>, tokens: seq<nat>, pairs: seq<Rule>, merges: nat)
  {
    && ValidVocab(pairs)
    && Acyclic(pairs)
    && |tokens| >= 2
    && InVocab(pairs, tokens)
    && RenderAll(pairs, tokens) == input
    && |pairs| == 256 + merges
    && |tokens| + merges <= |input|
    && (merges == 0 ==> tokens == input)
  }

  lemma InitialState(input: seq<Byte>, pairs: seq<Rule>)
    requires |input| >= 2
    requires |pairs| == 256 && ValidVocab(pairs)
    ensures TrainState(input, input, pairs, 0)
  {
    RenderSeed(pairs, input);
  }

  /** One select-and-merge step keeps the loop state: the appended rule refers to
      older ids, the decoded bytes do not change, and the sequence shrinks. */
  lemma MergeKeepsState(input: seq<Byte>, tokens: seq<nat>, pairs: seq<Rule>, merges: nat,
                        best: Pair, pairs': seq<Rule>, out: seq<nat>)
    requires TrainState(input, tokens, pairs, merges)
    requires Count(tokens, best) >= 2
    requires pairs' == pairs + [Rule(best.l, Some(best.r))]
    requires out == Merged(tokens, best, |pairs'| - 1)
    ensures TrainState(input, out, pairs', merges + 1)
    ensures |out| < |tokens|
  {
    var t := |pairs|;
    OccursInTokens(tokens, best);
    AppendKeepsValid(pairs, best);
    ValidIsAcyclic(pairs');
    RenderAllExtend(pairs, Rule(best.l, Some(best.r)), tokens);
    RenderAllMerged(pairs', tokens, best, t);
    MergedTokens(tokens, best, t);
    TwiceLeavesTwo(tokens, best, t);
    MergedShrinks(tokens, best, t);
  }

  /** A pair that occurs is made of tokens of the sequence. */
  lemma {:induction false} OccursInTokens(s: seq<nat>, q: Pair)
    requires Count(s, q) > 0
    ensures q.l in s && q.r in s
  {
    if !(s[0] == q.l && s[1] == q.r) {
      OccursInTokens(s[1..], q);
    }
  }

  /** When the best count is 1 nothing repeats. */
  lemma BestOneConverged(freq: map<Pair, nat>, tokens: seq<nat>, best: Pair)
    requires Consistent(freq, tokens)
    requires IsBest(freq, best) && freq[best] == 1
    ensures Converged(tokens)
  {
    forall q ensures Count(tokens, q) <= 1 {
      assert Get(freq, q) == Count(tokens, q);
    }
  }

  /** The incremental trainer (main.rs): the index is built once and then kept up to
      date by each merge. */
  method TrainFast(input: seq<Byte>) returns (tokens: seq<nat>, pairs: seq<Rule>, iterationCount: nat)
    requires |input| >= 2
    ensures ValidVocab(pairs)
    ensures |pairs| == 256 + iterationCount
    ensures InVocab(pairs, tokens)
    ensures RenderAll(pairs, tokens) == input
    ensures Converged(tokens)
    ensures |tokens| + iterationCount <= |input|
    ensures iterationCount == 0 <==> Converged(input)
  {
    pairs := SeedVocabulary();
    tokens := input;
    var tokensFreq := CountTokenPairs(tokens);
    iterationCount := 0;
    InitialState(input, pairs);
    while true
      invariant TrainState(input, tokens, pairs, iterationCount)
      invariant Converged(input) ==> iterationCount == 0
      invariant Consistent(tokensFreq, tokens)
      decreases |tokens|
    {
      CountsNonEmpty(tokensFreq, tokens);
      var maxPair, pairs' := MaxPairFreq(tokensFreq, pairs);
      if tokensFreq[maxPair] == 1 {
        BestOneConverged(tokensFreq, tokens, maxPair);
        pairs := pairs';
        break;
      }
      assert Count(tokens, maxPair) >= 2 by {
        assert Get(tokensFreq, maxPair) == Count(tokens, maxPair);
      }
      assert !Converged(input) by {
        assert iterationCount == 0 ==> Count(input, maxPair) >= 2;
      }
      var tokensOut;
      tokensOut, tokensFreq := TokenizeFast(tokens, tokensFreq, pairs', maxPair);
      MergeKeepsState(input, tokens, pairs, iterationCount, maxPair, pairs', tokensOut);
      pairs := pairs';
      tokens := tokensOut;
      iterationCount := iterationCount + 1;
    }
  }

  /** The reference trainer (slowBep.rs): the index is rebuilt from scratch on every
      iteration and the merge does no bookkeeping. */
  method TrainSlow(input: seq<Byte>) returns (tokens: seq<nat>, pairs: seq<Rule>, merges: nat)
    requires |input| >= 2
    ensures ValidVocab(pairs)
    ensures |pairs| == 256 + merges
    ensures InVocab(pairs, tokens)
    ensures RenderAll(pairs, tokens) == input
    ensures Converged(tokens)
    ensures |tokens| + merges <= |input|
    ensures merges == 0 <==> Converged(input)
  {
    pairs := SeedVocabulary();
    tokens := input;
    merges := 0;
    InitialState(input, pairs);
    while true
      invariant TrainState(input, tokens, pairs, merges)
      invariant Converged(input) ==> merges == 0
      decreases |tokens|
    {
      var tokensFreq := CountTokenPairs(tokens);
      ConsistentIsCountsOf(tokensFreq, tokens);
      CountsNonEmpty(tokensFreq, tokens);
      var maxPair, pairs' := MaxPairFreq(tokensFreq, pairs);
      if tokensFreq[maxPair] == 1 {
        BestOneConverged(tokensFreq, tokens, maxPair);
        pairs := pairs';
        break;
      }
      assert Count(tokens, maxPair) >= 2 by {
        assert Get(tokensFreq, maxPair) == Count(tokens, maxPair);
      }
      assert !Converged(input) by {
        assert merges == 0 ==> Count(input, maxPair) >= 2;
      }
      var tokensOut := Tokenize(tokens, pairs', maxPair);
      MergeKeepsState(input, tokens, pairs, merges, maxPair, pairs', tokensOut);
      tokens := tokensOut;
      pairs := pairs';
      merges := merges + 1;
    }
  }
}
