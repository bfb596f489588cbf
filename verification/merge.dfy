/** The greedy pair replacement, and the reference trainer's `tokenize` that computes it. */
module Merge {
  import opened BpeTypes
  import opened PairCounts

  /** Replace every greedy, left-to-right, non-overlapping occurrence of p in s by t. */
  function Merged(s: seq<nat>, p: Pair, t: nat): seq<nat>
    decreases |s|
  {
    if |s| == 0 then []
    else if |s| >= 2 && s[0] == p.l && s[1] == p.r then [t] + Merged(s[2..], p, t)
    else [s[0]] + Merged(s[1..], p, t)
  }

  /** Number of replacements the greedy scan makes. */
  function Matches(s: seq<nat>, p: Pair): nat
    decreases |s|
  {
    if |s| < 2 then 0
    else if s[0] == p.l && s[1] == p.r then 1 + Matches(s[2..], p)
    else Matches(s[1..], p)
  }

  /** Undo a merge: write each t back as the pair it stands for. */
  function Expand(s: seq<nat>, p: Pair, t: nat): seq<nat>
  {
    if s == [] then []
    else (if s[0] == t then [p.l, p.r] else [s[0]]) + Expand(s[1..], p, t)
  }

  /** Every match removes exactly one token; nothing else changes the length. */
  lemma {:induction false} MergedLength(s: seq<nat>, p: Pair, t: nat)
    ensures |Merged(s, p, t)| == |s| - Matches(s, p)
    decreases |s|
  {
    if |s| >= 2 && s[0] == p.l && s[1] == p.r {
      MergedLength(s[2..], p, t);
    } else if |s| > 0 {
      MergedLength(s[1..], p, t);
    }
  }

  /** A match consumes two tokens, so at most half the positions are replaced. */
  lemma {:induction false} MatchesBound(s: seq<nat>, p: Pair)
    ensures 2 * Matches(s, p) <= |s|
    decreases |s|
  {
    if |s| >= 2 {
      if s[0] == p.l && s[1] == p.r {
        MatchesBound(s[2..], p);
      } else {
        MatchesBound(s[1..], p);
      }
    }
  }

  /** The greedy scan matches at least once exactly when p occurs at all. */
  lemma {:induction false} MatchesIffOccurs(s: seq<nat>, p: Pair)
    ensures Matches(s, p) > 0 <==> Count(s, p) > 0
    ensures Matches(s, p) <= Count(s, p)
    decreases |s|
  {
    if |s| >= 2 {
      if s[0] == p.l && s[1] == p.r {
        MatchesIffOccurs(s[2..], p);
        CountConcat([s[0], s[1]], s[2..], p);
        assert s == [s[0], s[1]] + s[2..];
      } else {
        MatchesIffOccurs(s[1..], p);
      }
    }
  }

  /** When p does not occur the sequence is returned unchanged. */
  lemma {:induction false} MergedAbsent(s: seq<nat>, p: Pair, t: nat)
    requires Count(s, p) == 0
    ensures Merged(s, p, t) == s
    decreases |s|
  {
    if |s| >= 2 {
      MergedAbsent(s[1..], p, t);
    }
  }

  /** When p occurs the sequence strictly shrinks. */
  lemma MergedShrinks(s: seq<nat>, p: Pair, t: nat)
    requires Count(s, p) > 0
    ensures |Merged(s, p, t)| < |s|
  {
    MatchesIffOccurs(s, p);
    MergedLength(s, p, t);
  }

  /** At most one adjacent pair per boundary. */
  lemma {:induction false} CountBound(s: seq<nat>, q: Pair)
    ensures Count(s, q) <= |s| - 1 || (|s| == 0 && Count(s, q) == 0)
    decreases |s|
  {
    if |s| >= 2 {
      CountBound(s[1..], q);
    }
  }

  /** A pair seen twice leaves at least two tokens after merging it. */
  lemma TwiceLeavesTwo(s: seq<nat>, p: Pair, t: nat)
    requires Count(s, p) >= 2
    ensures |Merged(s, p, t)| >= 2
  {
    CountBound(s, p);
    MatchesBound(s, p);
    MergedLength(s, p, t);
  }

  /** Merging is inverted by expansion, as long as t was not already in use. */
  lemma {:induction false} ExpandMerged(s: seq<nat>, p: Pair, t: nat)
    requires t !in s
    ensures Expand(Merged(s, p, t), p, t) == s
    decreases |s|
  {
    if |s| >= 2 && s[0] == p.l && s[1] == p.r {
      ExpandMerged(s[2..], p, t);
      assert ([t] + Merged(s[2..], p, t))[1..] == Merged(s[2..], p, t);
      assert s == [p.l, p.r] + s[2..];
    } else if |s| > 0 {
      ExpandMerged(s[1..], p, t);
      assert ([s[0]] + Merged(s[1..], p, t))[1..] == Merged(s[1..], p, t);
      assert s == [s[0]] + s[1..];
    }
  }

  /** Merged tokens come from s itself or are t. */
  lemma {:induction false} MergedTokens(s: seq<nat>, p: Pair, t: nat)
    ensures forall x :: x in Merged(s, p, t) ==> x in s || x == t
    decreases |s|
  {
    if |s| >= 2 && s[0] == p.l && s[1] == p.r {
      MergedTokens(s[2..], p, t);
    } else if |s| > 0 {
      MergedTokens(s[1..], p, t);
    }
  }

  /** n copies of a. */
  function Repeat(a: nat, n: nat): (r: seq<nat>)
    ensures |r| == n
  {
    if n == 0 then [] else [a] + Repeat(a, n - 1)
  }

  /** A run of a self pair is merged two at a time, never re-using a consumed token:
      2k copies of a become k copies of t, and an odd run keeps its last a. */
  lemma {:induction false} SelfPairRun(a: nat, k: nat, t: nat)
    ensures Merged(Repeat(a, 2 * k), Pair(a, a), t) == Repeat(t, k)
    ensures Merged(Repeat(a, 2 * k + 1), Pair(a, a), t) == Repeat(t, k) + [a]
  {
    if k > 0 {
      SelfPairRun(a, k - 1, t);
      assert Repeat(a, 2 * k)[2..] == Repeat(a, 2 * (k - 1));
      assert Repeat(a, 2 * k + 1)[2..] == Repeat(a, 2 * (k - 1) + 1);
    } else {
      assert Repeat(a, 1) == [a];
    }
  }

  /** One step of the left-to-right scan at position i when no match starts there:
      s[i] is copied. */
  lemma CopyStep(s: seq<nat>, i: nat, out: seq<nat>, p: Pair, t: nat)
    requires i < |s|
    requires !(i + 1 < |s| && s[i] == p.l && s[i + 1] == p.r)
    requires out + Merged(s[i..], p, t) == Merged(s, p, t)
    ensures (out + [s[i]]) + Merged(s[i + 1..], p, t) == Merged(s, p, t)
    ensures (out + [s[i]]) + s[i + 1..] == out + s[i..]
  {
    assert s[i..][1..] == s[i + 1..];
    assert s[i..] == [s[i]] + s[i + 1..];
  }

  /** One step of the scan when (s[i], s[i+1]) is p: both are consumed, t is emitted. */
  lemma MatchStep(s: seq<nat>, i: nat, out: seq<nat>, p: Pair, t: nat)
    requires i + 1 < |s| && s[i] == p.l && s[i + 1] == p.r
    requires out + Merged(s[i..], p, t) == Merged(s, p, t)
    ensures (out + [t]) + Merged(s[i + 2..], p, t) == Merged(s, p, t)
    ensures out + s[i..] == out + [p.l, p.r] + s[i + 2..]
  {
    assert s[i..][2..] == s[i + 2..];
    assert s[i..] == [p.l, p.r] + s[i + 2..];
  }

  /** The reference trainer's merge: a while loop pushing to a fresh output. */
  method Tokenize(tokensIn: seq<nat>, pairs: seq<Rule>, pair: Pair) returns (tokensOut: seq<nat>)
    requires |pairs| > 0
    ensures tokensOut == Merged(tokensIn, pair, |pairs| - 1)
  {
    var i := 0;
    var n := |tokensIn|;
    tokensOut := [];
    ghost var t := |pairs| - 1;
    while i < n
      invariant 0 <= i <= n
      invariant tokensOut + Merged(tokensIn[i..], pair, t) == Merged(tokensIn, pair, t)
    {
      if i + 1 < n {
        if tokensIn[i] == pair.l && tokensIn[i + 1] == pair.r {
          MatchStep(tokensIn, i, tokensOut, pair, t);
          tokensOut := tokensOut + [|pairs| - 1];
          i := i + 2;
        } else {
          CopyStep(tokensIn, i, tokensOut, pair, t);
          tokensOut := tokensOut + [tokensIn[i]];
          i := i + 1;
        }
      } else {
        CopyStep(tokensIn, i, tokensOut, pair, t);
        tokensOut := tokensOut + [tokensIn[i]];
        i := i + 1;
      }
    }
    assert tokensIn[n..] == [];
    assert tokensIn[0..] == tokensIn;
  }
}
