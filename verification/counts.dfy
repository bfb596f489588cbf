/** The frequency index: adjacent-pair counts of a token sequence. */
module PairCounts {
  import opened BpeTypes

  /** Number of positions i with (s[i], s[i+1]) == q. */
  function Count(s: seq<nat>, q: Pair): nat
  {
    if |s| < 2 then 0
    else (if s[0] == q.l && s[1] == q.r then 1 else 0) + Count(s[1..], q)
  }

  /** 1 when the boundary between a and b is the pair q. */
  function Seam(a: seq<nat>, b: seq<nat>, q: Pair): nat
  {
    if |a| > 0 && |b| > 0 && a[|a| - 1] == q.l && b[0] == q.r then 1 else 0
  }

  /** The set of pairs that occur adjacently in s. */
  function AdjacentPairs(s: seq<nat>): set<Pair>
  {
    set i {:trigger s[i]} | 0 <= i < |s| - 1 :: Pair(s[i], s[i + 1])
  }

  /** The count stored for q, absent keys reading as 0. */
  function Get(m: map<Pair, nat>, q: Pair): nat
  {
    if q in m then m[q] else 0
  }

  /** No entry is kept at count 0. */
  ghost predicate Positive(m: map<Pair, nat>)
  {
    forall q :: q in m ==> m[q] > 0
  }

  /** m holds exactly the adjacent-pair counts of s. */
  ghost predicate Consistent(m: map<Pair, nat>, s: seq<nat>)
  {
    Positive(m) && forall q :: Get(m, q) == Count(s, q)
  }

  lemma {:induction false} CountConcat(a: seq<nat>, b: seq<nat>, q: Pair)
    ensures Count(a + b, q) == Count(a, q) + Seam(a, b, q) + Count(b, q)
  {
    if |a| == 0 {
      assert a + b == b;
    } else if |a| == 1 {
      if |b| == 0 {
        assert a + b == a;
      } else {
        assert (a + b)[1..] == b;
      }
    } else {
      assert (a + b)[1..] == a[1..] + b;
      CountConcat(a[1..], b, q);
    }
  }

  /** A pair occurs at all exactly when it is one of the adjacent pairs. */
  lemma {:induction false} CountPositiveIff(s: seq<nat>, q: Pair)
    ensures Count(s, q) > 0 <==> q in AdjacentPairs(s)
  {
    if |s| >= 2 {
      CountPositiveIff(s[1..], q);
      if q in AdjacentPairs(s[1..]) {
        var i :| 0 <= i < |s| - 2 && q == Pair(s[1..][i], s[1..][i + 1]);
        assert q == Pair(s[i + 1], s[i + 2]);
      }
      if q in AdjacentPairs(s) {
        var i :| 0 <= i < |s| - 1 && q == Pair(s[i], s[i + 1]);
        if i > 0 {
          assert q == Pair(s[1..][i - 1], s[1..][i]);
        }
      }
    }
  }

  /** The full recount of s: every adjacent pair with its number of occurrences. */
  function CountsOf(s: seq<nat>): (m: map<Pair, nat>)
    ensures Consistent(m, s)
    ensures m.Keys == AdjacentPairs(s)
  {
    forall q ensures Count(s, q) > 0 <==> q in AdjacentPairs(s) {
      CountPositiveIff(s, q);
    }
    map q | q in AdjacentPairs(s) :: Count(s, q)
  }

  /** An index consistent with s is the recount of s, and only it. */
  lemma ConsistentIsCountsOf(m: map<Pair, nat>, s: seq<nat>)
    ensures Consistent(m, s) <==> m == CountsOf(s)
  {
    if Consistent(m, s) {
      var c := CountsOf(s);
      forall q ensures q in m <==> q in c {
        assert Get(m, q) == Get(c, q);
      }
      forall q | q in m ensures m[q] == c[q] {
        assert Get(m, q) == Get(c, q);
      }
    }
  }

  /** Remove one occurrence of q if it is present, dropping the entry at 0. */
  function Decrement(m: map<Pair, nat>, q: Pair): (m': map<Pair, nat>)
    requires Positive(m)
    ensures Positive(m')
  {
    if q !in m then m
    else
      var c := m[q] - 1;
      if c == 0 then m - {q} else m[q := c]
  }

  /** Add one occurrence of q, creating the entry at 1 when absent. */
  function Increment(m: map<Pair, nat>, q: Pair): (m': map<Pair, nat>)
    requires Positive(m)
    ensures Positive(m')
  {
    m[q := Get(m, q) + 1]
  }

  /** Decrementing lowers the count of q by one when q is present, and no other count. */
  lemma DecrementCounts(m: map<Pair, nat>, q: Pair)
    requires Positive(m)
    ensures forall k :: Get(Decrement(m, q), k) == if k == q && q in m then Get(m, k) - 1 else Get(m, k)
  {
  }

  /** Incrementing raises the count of q by one, and no other count. */
  lemma IncrementCounts(m: map<Pair, nat>, q: Pair)
    requires Positive(m)
    ensures forall k :: Get(Increment(m, q), k) == if k == q then Get(m, k) + 1 else Get(m, k)
  {
  }

  /** Appending one token adds exactly the new trailing boundary. */
  lemma CountSnoc(s: seq<nat>, x: nat)
    ensures forall q :: Count(s + [x], q) == Count(s, q) + Seam(s, [x], q)
  {
    forall q ensures Count(s + [x], q) == Count(s, q) + Seam(s, [x], q) {
      CountConcat(s, [x], q);
    }
  }

  /** The single scan that builds the index from a token sequence. */
  method CountTokenPairs(tokensIn: seq<nat>) returns (tokensFreq: map<Pair, nat>)
    requires |tokensIn| > 0
    ensures tokensFreq == CountsOf(tokensIn)
  {
    tokensFreq := map[];
    for i := 0 to |tokensIn| - 1
      invariant Consistent(tokensFreq, tokensIn[..i + 1])
    {
      IncrementCounts(tokensFreq, Pair(tokensIn[i], tokensIn[i + 1]));
      tokensFreq := Increment(tokensFreq, Pair(tokensIn[i], tokensIn[i + 1]));
      assert tokensIn[..i + 2] == tokensIn[..i + 1] + [tokensIn[i + 1]];
      CountSnoc(tokensIn[..i + 1], tokensIn[i + 1]);
    }
    assert tokensIn[..|tokensIn|] == tokensIn;
    ConsistentIsCountsOf(tokensFreq, tokensIn);
  }
}
