/** Choosing the pair to merge next. */
module Selection {
  import opened BpeTypes
  import opened PairCounts

  /** best is a live entry with the highest count, and no entry with that count has
      a smaller left id. Ties that share the left id are left open: the Rust code
      resolves them by the index map's internal order. */
  ghost predicate IsBest(freq: map<Pair, nat>, best: Pair)
  {
    && best in freq
    && forall k :: k in freq ==> freq[k] < freq[best] || (freq[k] == freq[best] && best.l <= k.l)
  }

  /** `max_pair_freq`: scan every entry once, in an order the caller does not control,
      keep the best so far, and append the winner to the vocabulary when it occurs
      more than once. */
  method MaxPairFreq(tokensFreq: map<Pair, nat>, pairs: seq<Rule>) returns (maxPair: Pair, pairsOut: seq<Rule>)
    requires Positive(tokensFreq)
    ensures tokensFreq == map[] ==> maxPair == Pair(0, 0)
    ensures tokensFreq != map[] ==> IsBest(tokensFreq, maxPair)
    ensures pairsOut == if maxPair in tokensFreq && tokensFreq[maxPair] > 1
                        then pairs + [Rule(maxPair.l, Some(maxPair.r))]
                        else pairs
  {
    maxPair := Pair(0, 0);
    var maxValue := 0;
    var unseen := tokensFreq.Keys;
    while unseen != {}
      invariant unseen <= tokensFreq.Keys
      invariant unseen != tokensFreq.Keys ==> maxPair in tokensFreq && tokensFreq[maxPair] == maxValue
      invariant unseen == tokensFreq.Keys ==> maxPair == Pair(0, 0) && maxValue == 0
      invariant forall k :: k in tokensFreq && k !in unseen ==>
                  tokensFreq[k] < maxValue || (tokensFreq[k] == maxValue && maxPair.l <= k.l)
      decreases unseen
    {
      var key :| key in unseen;
      var value := tokensFreq[key];
      if value > maxValue || (value == maxValue && key.l < maxPair.l) {
        maxPair := key;
        maxValue := value;
      }
      unseen := unseen - {key};
    }
    if maxValue > 1 {
      pairsOut := pairs + [Rule(maxPair.l, Some(maxPair.r))];
    } else {
      pairsOut := pairs;
    }
  }
}
