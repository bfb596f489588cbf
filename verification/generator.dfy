/** The sampler that walks a trained vocabulary. Random choices are an oracle:
    `choose(k)` stands for the number drawn on outer iteration k. */
module Generator {
  import opened BpeTypes
  import opened Vocabulary

  /** Every id in s has an entry in v. */
  ghost predicate InRange(v: seq<Rule>, s: seq<nat>)
  {
    forall i :: 0 <= i < |s| ==> s[i] < |v|
  }

  /** The right child of every entry among the first n whose left child is token,
      in table order. */
  function CandidatesUpTo(v: seq<Rule>, token: nat, n: nat): seq<nat>
    requires n <= |v|
  {
    if n == 0 then []
    else
      CandidatesUpTo(v, token, n - 1)
      + (if v[n - 1].l == token && v[n - 1].r.Some? then [v[n - 1].r.value] else [])
  }

  /** The right child of every entry whose left child is token, in table order. */
  function Candidates(v: seq<Rule>, token: nat): seq<nat>
  {
    CandidatesUpTo(v, token, |v|)
  }

  /** x is among the first n entries' candidates exactly when one of them is the
      merge (token, x). */
  lemma {:induction false} CandidatesUpToExactly(v: seq<Rule>, token: nat, n: nat, x: nat)
    requires n <= |v|
    ensures x in CandidatesUpTo(v, token, n) <==> exists i :: 0 <= i < n && v[i] == Rule(token, Some(x))
  {
    if n > 0 {
      CandidatesUpToExactly(v, token, n - 1, x);
    }
  }

  /** x is a candidate exactly when some entry is the merge (token, x). */
  lemma CandidatesExactly(v: seq<Rule>, token: nat, x: nat)
    ensures x in Candidates(v, token) <==> exists i :: 0 <= i < |v| && v[i] == Rule(token, Some(x))
  {
    CandidatesUpToExactly(v, token, |v|, x);
  }

  /** In a valid table every candidate is an existing id. */
  lemma CandidatesInRange(v: seq<Rule>, token: nat)
    requires ValidVocab(v)
    ensures InRange(v, Candidates(v, token))
  {
    var c := Candidates(v, token);
    forall i | 0 <= i < |c| ensures c[i] < |v| {
      assert c[i] in c;
      CandidatesExactly(v, token, c[i]);
    }
  }

  /** The 256 byte leaves offer no continuation at all. */
  lemma {:induction false} LeavesNoCandidates(v: seq<Rule>, token: nat, n: nat)
    requires ValidVocab(v) && n <= 256
    ensures CandidatesUpTo(v, token, n) == []
  {
    if n > 0 {
      LeavesNoCandidates(v, token, n - 1);
    }
  }

  /** The for loop over the table (main.rs lines 199-203): push each candidate. */
  method CollectCandidates(pairs: seq<Rule>, token: nat, nextTokens: seq<nat>) returns (nextOut: seq<nat>)
    ensures nextOut == nextTokens + Candidates(pairs, token)
  {
    nextOut := nextTokens;
    for i := 0 to |pairs|
      invariant nextOut == nextTokens + CandidatesUpTo(pairs, token, i)
    {
      if pairs[i].l == token && pairs[i].r.Some? {
        nextOut := nextOut + [pairs[i].r.value];
      }
    }
  }

  /** Follow right children from token until one has candidates or is a byte leaf.
      Each step moves to a strictly smaller id. */
  function Descend(v: seq<Rule>, token: nat): (d: nat)
    requires ValidVocab(v) && token < |v|
    ensures d <= token
    ensures Candidates(v, d) != [] || d < 256
    decreases token
  {
    if Candidates(v, token) != [] || token < 256 then token
    else Descend(v, v[token].r.value)
  }

  /** The candidate list after one outer iteration's inner loop. */
  function NextList(v: seq<Rule>, token: nat, acc: seq<nat>): (next: seq<nat>)
    requires ValidVocab(v) && token < |v|
    ensures InRange(v, acc) ==> InRange(v, next)
  {
    var d := if acc != [] then token else Descend(v, token);
    CandidatesInRange(v, d);
    acc + Candidates(v, d)
  }

  /** The inner loop (main.rs lines 198-213): collect candidates and, while there are
      none and the token is a merge, descend to its right child. Candidates pushed on
      earlier outer iterations stay in the list. */
  method NextCandidates(pairs: seq<Rule>, token: nat, nextTokens: seq<nat>)
    returns (tokenOut: nat, nextOut: seq<nat>)
    requires ValidVocab(pairs) && token < |pairs|
    ensures tokenOut == if nextTokens != [] then token else Descend(pairs, token)
    ensures nextOut == NextList(pairs, token, nextTokens)
  {
    tokenOut := token;
    nextOut := nextTokens;
    while true
      invariant tokenOut < |pairs|
      invariant nextOut == nextTokens
      invariant nextTokens != [] ==> tokenOut == token
      invariant nextTokens == [] ==> Descend(pairs, tokenOut) == Descend(pairs, token)
      decreases tokenOut
    {
      nextOut := CollectCandidates(pairs, tokenOut, nextOut);
      if |nextOut| > 0 || tokenOut < 256 {
        break;
      }
      if pairs[tokenOut].r.Some? {
        tokenOut := pairs[tokenOut].r.value;
        nextOut := [];
      }
    }
  }

  /** x reduced below n by repeated subtraction: x % n, computed without division. */
  function Reduce(x: nat, n: nat): (r: nat)
    requires n > 0
    ensures r < n
    decreases x
  {
    if x < n then x else Reduce(x - n, n)
  }

  /** The candidate the random draw on this iteration picks: `gen_range(0..len)` over
      the list, with the drawn number supplied by choose and reduced below the length. */
  function Draw(choose: nat -> nat, iteration: nat, next: seq<nat>): (x: nat)
    requires next != []
    ensures exists i :: 0 <= i < |next| && x == next[i]
  {
    next[Reduce(choose(iteration), |next|)]
  }

  /** The tokens the sampler renders, as main.rs lines 186-220 compute them: the
      candidate list is carried over from one outer iteration to the next. */
  function Walk(v: seq<Rule>, token: nat, acc: seq<nat>, choose: nat -> nat, iteration: nat): seq<nat>
    requires ValidVocab(v) && token < |v| && InRange(v, acc) && iteration < 100
    decreases 100 - iteration
  {
    var next := NextList(v, token, acc);
    if next == [] || iteration + 1 == 100 then [token]
    else
      [token] + Walk(v, Draw(choose, iteration, next), next, choose, iteration + 1)
  }

  /** One outer iteration of the walk: the current token first, then the rest of
      the walk from the drawn candidate. */
  lemma WalkStep(v: seq<Rule>, token: nat, acc: seq<nat>, choose: nat -> nat, iteration: nat,
                 next: seq<nat>)
    requires ValidVocab(v) && token < |v| && InRange(v, acc) && iteration < 100
    requires next == NextList(v, token, acc)
    ensures Walk(v, token, acc, choose, iteration)
         == [token] + (if next == [] || iteration + 1 == 100 then []
                       else Walk(v, Draw(choose, iteration, next), next, choose, iteration + 1))
  {
  }

  /** The texts printed for a sequence of tokens, one line per token. */
  function RenderEach(v: seq<Rule>, tokens: seq<nat>): (texts: seq<seq<Byte>>)
    requires Acyclic(v)
  {
    if tokens == [] then [] else RenderEach(v, tokens[..|tokens| - 1]) + [Render(v, tokens[|tokens| - 1])]
  }

  lemma RenderEachSnoc(v: seq<Rule>, tokens: seq<nat>, token: nat)
    requires Acyclic(v)
    ensures RenderEach(v, tokens + [token]) == RenderEach(v, tokens) + [Render(v, token)]
  {
    assert (tokens + [token])[..|tokens|] == tokens;
  }

  /** The loop's account of the walk after one outer iteration: the visited tokens
      followed by the rest of the walk are the whole walk. */
  lemma Advance(v: seq<Rule>, token: nat, acc: seq<nat>, choose: nat -> nat, iteration: nat,
                next: seq<nat>, walk: seq<nat>, visited: seq<nat>)
    requires ValidVocab(v) && token < |v| && InRange(v, acc) && iteration < 100
    requires next == NextList(v, token, acc)
    requires walk == visited + Walk(v, token, acc, choose, iteration)
    ensures next != [] ==> Draw(choose, iteration, next) < |v|
    ensures next == [] || iteration + 1 == 100 ==> walk == visited + [token]
    ensures next != [] && iteration + 1 < 100 ==>
              walk == (visited + [token]) + Walk(v, Draw(choose, iteration, next), next, choose, iteration + 1)
  {
    WalkStep(v, token, acc, choose, iteration, next);
    if next != [] && iteration + 1 < 100 {
      var rest := Walk(v, Draw(choose, iteration, next), next, choose, iteration + 1);
      assert visited + ([token] + rest) == (visited + [token]) + rest;
    } else {
      assert visited + ([token] + []) == visited + [token];
    }
  }

  /** The sampler's outer loop: at most 100 rendered tokens, each followed by a draw
      among the collected candidates. */
  method Generate(pairs: seq<Rule>, start: nat, choose: nat -> nat) returns (texts: seq<seq<Byte>>)
    requires ValidVocab(pairs) && start < |pairs|
    ensures Acyclic(pairs)
    ensures texts == RenderEach(pairs, Walk(pairs, start, [], choose, 0))
  {
    ValidIsAcyclic(pairs);
    var iteration: nat := 0;
    var token: nat := start;
    var nextTokens: seq<nat> := [];
    texts := [];
    ghost var walk := Walk(pairs, start, [], choose, 0);
    // the tokens rendered so far
    ghost var visited: seq<nat> := [];
    while iteration < 100
      invariant iteration <= 100
      invariant token < |pairs| && InRange(pairs, nextTokens)
      invariant iteration < 100 ==> walk == visited + Walk(pairs, token, nextTokens, choose, iteration)
      invariant iteration == 100 ==> walk == visited
      invariant texts == RenderEach(pairs, visited)
      decreases 100 - iteration
    {
      var text := RenderText([], pairs, token);
      assert texts + [text] == RenderEach(pairs, visited + [token]) by {
        assert text == Render(pairs, token);
        RenderEachSnoc(pairs, visited, token);
      }
      ghost var acc := nextTokens;
      var d;
      d, nextTokens := NextCandidates(pairs, token, nextTokens);
      Advance(pairs, token, acc, choose, iteration, nextTokens, walk, visited);
      texts := texts + [text];
      visited := visited + [token];
      if |nextTokens| == 0 {
        break;
      }
      token := Draw(choose, iteration, nextTokens);
      iteration := iteration + 1;
    }
  }

  /** Every walk prints at least its start token, at most 100 tokens, and only
      tokens of the table. */
  lemma {:induction false} WalkShape(v: seq<Rule>, token: nat, acc: seq<nat>, choose: nat -> nat, iteration: nat)
    requires ValidVocab(v) && token < |v| && InRange(v, acc) && iteration < 100
    ensures var w := Walk(v, token, acc, choose, iteration);
            1 <= |w| <= 100 - iteration && w[0] == token && InRange(v, w)
    decreases 100 - iteration
  {
    var next := NextList(v, token, acc);
    if next != [] && iteration + 1 < 100 {
      var x := Draw(choose, iteration, next);
      WalkShape(v, x, next, choose, iteration + 1);
      var w := Walk(v, x, next, choose, iteration + 1);
      assert Walk(v, token, acc, choose, iteration) == [token] + w;
    }
  }

  /** A table holding only the byte leaves prints the start token and stops. */
  lemma LeavesOnlyPrintsStart(v: seq<Rule>, start: nat, choose: nat -> nat)
    requires ValidVocab(v) && |v| == 256 && start < 256
    ensures Acyclic(v)
    ensures Walk(v, start, [], choose, 0) == [start]
    ensures RenderEach(v, Walk(v, start, [], choose, 0)) == [[start]]
  {
    ValidIsAcyclic(v);
    LeavesNoCandidates(v, Descend(v, start), 256);
    assert RenderEach(v, [start]) == RenderEach(v, []) + [Render(v, start)];
  }

  /** The walk with the candidate list cleared at the start of every outer iteration,
      so that each drawn token is a right child of a rule for the current token. */
  function WalkFresh(v: seq<Rule>, token: nat, choose: nat -> nat, iteration: nat): seq<nat>
    requires ValidVocab(v) && token < |v| && iteration < 100
    decreases 100 - iteration
  {
    var next := NextList(v, token, []);
    if next == [] || iteration + 1 == 100 then [token]
    else
      [token] + WalkFresh(v, Draw(choose, iteration, next), choose, iteration + 1)
  }

  /** Each token of w after the first is a candidate of the one before it (after
      descending when that one has none). */
  ghost predicate FollowsRules(v: seq<Rule>, w: seq<nat>)
    requires ValidVocab(v)
  {
    InRange(v, w) && forall k :: 0 <= k < |w| - 1 ==> w[k + 1] in Candidates(v, Descend(v, w[k]))
  }

  lemma FollowsRulesCons(v: seq<Rule>, token: nat, w: seq<nat>)
    requires ValidVocab(v) && token < |v| && FollowsRules(v, w)
    requires w != [] ==> w[0] in Candidates(v, Descend(v, token))
    ensures FollowsRules(v, [token] + w)
  {
    var all := [token] + w;
    forall k | 0 <= k < |all| ensures all[k] < |v| {
      if k > 0 {
        assert all[k] == w[k - 1];
      }
    }
    forall k | 0 <= k < |all| - 1 ensures all[k + 1] in Candidates(v, Descend(v, all[k])) {
      if k > 0 {
        assert all[k] == w[k - 1] && all[k + 1] == w[k];
      }
    }
  }

  /** Every step of the corrected walk follows a rule of the table. */
  lemma {:induction false} WalkFreshFollowsRules(v: seq<Rule>, token: nat, choose: nat -> nat, iteration: nat)
    requires ValidVocab(v) && token < |v| && iteration < 100
    ensures var w := WalkFresh(v, token, choose, iteration);
            1 <= |w| <= 100 - iteration && w[0] == token && FollowsRules(v, w)
    decreases 100 - iteration
  {
    var next := NextList(v, token, []);
    if next != [] && iteration + 1 < 100 {
      var x := Draw(choose, iteration, next);
      WalkFreshFollowsRules(v, x, choose, iteration + 1);
      var w := WalkFresh(v, x, choose, iteration + 1);
      assert WalkFresh(v, token, choose, iteration) == [token] + w;
      FollowsRulesCons(v, token, w);
    } else {
      FollowsRulesCons(v, token, []);
      assert [token] + [] == [token];
    }
  }

  /** The loop's account of the corrected walk after one outer iteration. */
  lemma AdvanceFresh(v: seq<Rule>, token: nat, choose: nat -> nat, iteration: nat,
                     next: seq<nat>, walk: seq<nat>, visited: seq<nat>)
    requires ValidVocab(v) && token < |v| && iteration < 100
    requires next == NextList(v, token, [])
    requires walk == visited + WalkFresh(v, token, choose, iteration)
    ensures next != [] ==> Draw(choose, iteration, next) < |v|
    ensures next == [] || iteration + 1 == 100 ==> walk == visited + [token]
    ensures next != [] && iteration + 1 < 100 ==>
              walk == (visited + [token]) + WalkFresh(v, Draw(choose, iteration, next), choose, iteration + 1)
  {
    if next != [] && iteration + 1 < 100 {
      var rest := WalkFresh(v, Draw(choose, iteration, next), choose, iteration + 1);
      assert visited + ([token] + rest) == (visited + [token]) + rest;
    } else {
      assert visited + ([token] + []) == visited + [token];
    }
  }

  /** The sampler with `next_tokens` cleared before each inner loop. */
  method GenerateFresh(pairs: seq<Rule>, start: nat, choose: nat -> nat) returns (texts: seq<seq<Byte>>)
    requires ValidVocab(pairs) && start < |pairs|
    ensures Acyclic(pairs)
    ensures texts == RenderEach(pairs, WalkFresh(pairs, start, choose, 0))
  {
    ValidIsAcyclic(pairs);
    ghost var walk := WalkFresh(pairs, start, choose, 0);
    var iteration: nat := 0;
    var token: nat := start;
    texts := [];
    ghost var visited: seq<nat> := [];
    while iteration < 100
      invariant iteration <= 100
      invariant token < |pairs|
      invariant iteration < 100 ==> walk == visited + WalkFresh(pairs, token, choose, iteration)
      invariant iteration == 100 ==> walk == visited
      invariant texts == RenderEach(pairs, visited)
      decreases 100 - iteration
    {
      var text := RenderText([], pairs, token);
      assert texts + [text] == RenderEach(pairs, visited + [token]) by {
        assert text == Render(pairs, token);
        RenderEachSnoc(pairs, visited, token);
      }
      var d, nextTokens := NextCandidates(pairs, token, []);
      AdvanceFresh(pairs, token, choose, iteration, nextTokens, walk, visited);
      texts := texts + [text];
      visited := visited + [token];
      if |nextTokens| == 0 {
        break;
      }
      token := Draw(choose, iteration, nextTokens);
      iteration := iteration + 1;
    }
  }

  /** A table with the byte leaves and the merges (97, 98) and (98, 99): "ab" and "bc". */
  function Example(): (v: seq<Rule>)
    ensures ValidVocab(v)
  {
    seq(256, (i: nat) => Rule(i, None)) + [Rule(97, Some(98)), Rule(98, Some(99))]
  }

  /** The candidate lists of "a" and "b" in Example(). */
  lemma ExampleCandidates()
    ensures Candidates(Example(), 97) == [98]
    ensures Candidates(Example(), 98) == [99]
  {
    var v := Example();
    LeavesNoCandidates(v, 97, 256);
    LeavesNoCandidates(v, 98, 256);
    assert CandidatesUpTo(v, 97, 258) == CandidatesUpTo(v, 97, 257);
    assert CandidatesUpTo(v, 98, 257) == CandidatesUpTo(v, 98, 256);
  }

  /** As written, the sampler can print "a", "b", "b" on Example() when the first two
      draws are 0, although no rule has 98 followed by 98: on the second draw the list
      still holds the 98 collected for 97. */
  lemma AccumulatedCandidateBreaksRule(choose: nat -> nat)
    requires choose(0) == 0 && choose(1) == 0
    ensures var w := Walk(Example(), 97, [], choose, 0);
            && |w| >= 3 && w[0] == 97 && w[1] == 98 && w[2] == 98
            && 98 !in Candidates(Example(), Descend(Example(), 98))
  {
    var v := Example();
    ExampleCandidates();
    assert NextList(v, 97, []) == [98];
    assert Draw(choose, 0, [98]) == 98;
    assert NextList(v, 98, [98]) == [98, 99];
    assert Draw(choose, 1, [98, 99]) == 98;
    WalkStep(v, 97, [], choose, 0, [98]);
    WalkStep(v, 98, [98], choose, 1, [98, 99]);
    WalkShape(v, 98, [98, 99], choose, 2);
  }
}
