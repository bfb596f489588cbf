/** The incremental trainer's merge: rewrites the sequence and keeps the frequency
    index up to date by editing only the boundaries each replacement touches. */
module FastMerge {
  import opened BpeTypes
  import opened PairCounts
  import opened Merge

  /** The boundaries of out + [l, r] + rest around the occurrence of (l, r). */
  lemma SeamsBefore(out: seq<nat>, l: nat, r: nat, rest: seq<nat>, q: Pair)
    ensures Count(out + [l, r] + rest, q)
         == Count(out, q) + Seam(out, [l], q) + (if q == Pair(l, r) then 1 else 0)
            + Seam([r], rest, q) + Count(rest, q)
  {
    assert out + [l, r] + rest == out + ([l] + ([r] + rest));
    CountConcat(out, [l] + ([r] + rest), q);
    CountConcat([l], [r] + rest, q);
    CountConcat([r], rest, q);
  }

  /** The boundaries of out + [t] + rest around t. */
  lemma SeamsAfter(out: seq<nat>, t: nat, rest: seq<nat>, q: Pair)
    ensures Count(out + [t] + rest, q)
         == Count(out, q) + Seam(out, [t], q) + Seam([t], rest, q) + Count(rest, q)
  {
    assert out + [t] + rest == out + ([t] + rest);
    CountConcat(out, [t] + rest, q);
    CountConcat([t], rest, q);
  }

  /** The boundaries strictly inside out and strictly inside tail: what the
      sequence has in common before and after one replacement between them. */
  function Around(out: seq<nat>, tail: seq<nat>, q: Pair): nat
  {
    Count(out, q) + Count(tail, q)
  }

  /** Moving the boundary before the pair onto t (`tokenize_fast`, main.rs lines 40-52). */
  lemma LeftBoundaryMoved(f0: map<Pair, nat>, f1: map<Pair, nat>, out: seq<nat>, p: Pair,
                          tail: seq<nat>, t: nat)
    requires Consistent(f0, out + [p.l, p.r] + tail)
    requires f1 == if |out| > 0
                   then Increment(Decrement(f0, Pair(out[|out| - 1], p.l)), Pair(out[|out| - 1], t))
                   else f0
    ensures Positive(f1)
    ensures forall q :: Get(f1, q) == Around(out, tail, q) + Seam(out, [t], q)
                                      + (if q == p then 1 else 0) + Seam([p.r], tail, q)
  {
    if |out| > 0 {
      var x := Pair(out[|out| - 1], p.l);
      SeamsBefore(out, p.l, p.r, tail, x);
      assert x in f0;
      var d := Decrement(f0, x);
      DecrementCounts(f0, x);
      IncrementCounts(d, Pair(out[|out| - 1], t));
      forall q ensures Get(d, q) == Around(out, tail, q)
                                    + (if q == p then 1 else 0) + Seam([p.r], tail, q) {
        SeamsBefore(out, p.l, p.r, tail, q);
      }
    } else {
      forall q ensures Get(f1, q) == Around(out, tail, q) + Seam(out, [t], q)
                                     + (if q == p then 1 else 0) + Seam([p.r], tail, q) {
        SeamsBefore(out, p.l, p.r, tail, q);
      }
    }
  }

  /** Consuming the pair itself (main.rs lines 53-58). */
  lemma PairConsumed(f1: map<Pair, nat>, f2: map<Pair, nat>, out: seq<nat>, p: Pair,
                     tail: seq<nat>, t: nat)
    requires Positive(f1)
    requires forall q :: Get(f1, q) == Around(out, tail, q) + Seam(out, [t], q)
                                       + (if q == p then 1 else 0) + Seam([p.r], tail, q)
    requires f2 == Decrement(f1, p)
    ensures Positive(f2)
    ensures forall q :: Get(f2, q) == Around(out, tail, q) + Seam(out, [t], q) + Seam([p.r], tail, q)
  {
    assert Get(f1, p) > 0;
    DecrementCounts(f1, p);
  }

  /** Moving the boundary after the pair onto t (main.rs lines 62-73). */
  lemma RightBoundaryMoved(f2: map<Pair, nat>, f3: map<Pair, nat>, out: seq<nat>, p: Pair,
                           tail: seq<nat>, t: nat)
    requires Positive(f2)
    requires forall q :: Get(f2, q) == Around(out, tail, q) + Seam(out, [t], q) + Seam([p.r], tail, q)
    requires f3 == if |tail| > 0
                   then Increment(Decrement(f2, Pair(p.r, tail[0])), Pair(t, tail[0]))
                   else f2
    ensures Consistent(f3, out + [t] + tail)
  {
    if |tail| > 0 {
      var z := Pair(p.r, tail[0]);
      assert Get(f2, z) > 0;
      DecrementCounts(f2, z);
      IncrementCounts(Decrement(f2, z), Pair(t, tail[0]));
    }
    forall q ensures Get(f3, q) == Count(out + [t] + tail, q) {
      SeamsAfter(out, t, tail, q);
    }
  }

  /** One replacement, as `tokenize_fast` performs it, keeps the index exact: the
      boundary before the pair and the one after it are moved onto t, and the pair
      itself loses one occurrence. */
  lemma MergeStepKeepsCounts(f0: map<Pair, nat>, f1: map<Pair, nat>, f2: map<Pair, nat>,
                             f3: map<Pair, nat>, before: seq<nat>, out: seq<nat>, p: Pair,
                             tail: seq<nat>, t: nat)
    requires before == out + [p.l, p.r] + tail
    requires Positive(f0)
    requires f1 == if |out| > 0
                   then Increment(Decrement(f0, Pair(out[|out| - 1], p.l)), Pair(out[|out| - 1], t))
                   else f0
    requires f2 == Decrement(f1, p)
    requires f3 == if |tail| > 0
                   then Increment(Decrement(f2, Pair(p.r, tail[0])), Pair(t, tail[0]))
                   else f2
    ensures Consistent(f0, before) ==> Consistent(f3, out + [t] + tail)
  {
    if Consistent(f0, before) {
      LeftBoundaryMoved(f0, f1, out, p, tail, t);
      PairConsumed(f1, f2, out, p, tail, t);
      RightBoundaryMoved(f2, f3, out, p, tail, t);
    }
  }

  /** `tokenize_fast`: the same output as the reference merge, with the index of the
      input turned into the index of the output along the way. */
  method TokenizeFast(tokensIn: seq<nat>, tokensFreq: map<Pair, nat>, pairs: seq<Rule>, maxPair: Pair)
    returns (tokensOut: seq<nat>, freqOut: map<Pair, nat>)
    requires |pairs| > 0
    requires Positive(tokensFreq)
    ensures tokensOut == Merged(tokensIn, maxPair, |pairs| - 1)
    ensures Positive(freqOut)
    ensures Consistent(tokensFreq, tokensIn) ==> Consistent(freqOut, tokensOut)
  {
    var i := 0;
    var n := |tokensIn|;
    tokensOut := [];
    freqOut := tokensFreq;
    ghost var t := |pairs| - 1;
    ghost var consistent := Consistent(tokensFreq, tokensIn);
    // the sequence the index describes: what is emitted so far, then the unread input
    ghost var current := tokensIn;
    assert tokensOut + tokensIn[i..] == current;
    while i < n
      invariant 0 <= i <= n
      invariant tokensOut + Merged(tokensIn[i..], maxPair, t) == Merged(tokensIn, maxPair, t)
      invariant current == tokensOut + tokensIn[i..]
      invariant Positive(freqOut)
      invariant consistent ==> Consistent(freqOut, current)
    {
      if i + 1 < n {
        if tokensIn[i] == maxPair.l && tokensIn[i + 1] == maxPair.r {
          MatchStep(tokensIn, i, tokensOut, maxPair, t);
          ghost var out := tokensOut;
          ghost var f0 := freqOut;
          ghost var tail := tokensIn[i + 2..];
          if |tokensOut| > 0 {
            var pair := Pair(tokensOut[|tokensOut| - 1], tokensIn[i]);
            freqOut := Decrement(freqOut, pair);
            pair := pair.(r := |pairs| - 1);
            freqOut := Increment(freqOut, pair);
          }
          ghost var f1 := freqOut;
          freqOut := Decrement(freqOut, maxPair);
          ghost var f2 := freqOut;
          tokensOut := tokensOut + [|pairs| - 1];
          i := i + 2;
          if i < n {
            var pair := Pair(tokensIn[i - 1], tokensIn[i]);
            freqOut := Decrement(freqOut, pair);
            pair := pair.(l := tokensOut[|tokensOut| - 1]);
            freqOut := Increment(freqOut, pair);
          }
          MergeStepKeepsCounts(f0, f1, f2, freqOut, current, out, maxPair, tail, t);
          current := out + [t] + tail;
          assert current == tokensOut + tokensIn[i..];
        } else {
          CopyStep(tokensIn, i, tokensOut, maxPair, t);
          tokensOut := tokensOut + [tokensIn[i]];
          i := i + 1;
        }
      } else {
        CopyStep(tokensIn, i, tokensOut, maxPair, t);
        tokensOut := tokensOut + [tokensIn[i]];
        i := i + 1;
      }
    }
    assert tokensIn[n..] == [];
    assert current == tokensOut;
  }
}
