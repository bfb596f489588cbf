/** The append-only table of merge rules, and decoding a token back to bytes. */
module Vocabulary {
  import opened BpeTypes
  import opened Merge

  /** Every entry is a leaf (its left id is its own id) or refers only to smaller ids:
      what decoding needs to terminate. */
  ghost predicate Acyclic(v: seq<Rule>)
  {
    forall i :: 0 <= i < |v| ==>
      v[i].l == i || (v[i].l < i && (v[i].r.Some? ==> v[i].r.value < i))
  }

  /** The shape the trainer keeps: 256 byte leaves, then merge rules whose two
      children are both older entries. */
  ghost predicate ValidVocab(v: seq<Rule>)
  {
    && |v| >= 256
    && (forall i :: 0 <= i < 256 ==> v[i] == Rule(i, None))
    && (forall i :: 256 <= i < |v| ==> v[i].l < i && v[i].r.Some? && v[i].r.value < i)
  }

  lemma ValidIsAcyclic(v: seq<Rule>)
    requires ValidVocab(v)
    ensures Acyclic(v)
  {
  }

  /** The seeding loop: one leaf per byte value. */
  method SeedVocabulary() returns (pairs: seq<Rule>)
    ensures |pairs| == 256
    ensures forall i :: 0 <= i < 256 ==> pairs[i] == Rule(i, None)
    ensures ValidVocab(pairs)
  {
    pairs := [];
    for i := 0 to 256
      invariant |pairs| == i
      invariant forall j :: 0 <= j < i ==> pairs[j] == Rule(j, None)
    {
      pairs := pairs + [Rule(i, None)];
    }
  }

  /** Appending a merge of two existing ids keeps the table valid. */
  lemma AppendKeepsValid(v: seq<Rule>, p: Pair)
    requires ValidVocab(v)
    requires p.l < |v| && p.r < |v|
    ensures ValidVocab(v + [Rule(p.l, Some(p.r))])
  {
  }

  /** The bytes a token stands for: a leaf gives its own id truncated to a byte, a
      merge gives its left expansion then its right one, an unknown id gives nothing. */
  function Render(v: seq<Rule>, token: nat): (bytes: seq<Byte>)
    requires Acyclic(v)
    ensures |bytes| > 0 <==> token < |v|
    decreases token
  {
    if token < |v| then
      if v[token].l == token then [token % 256]
      else Render(v, v[token].l) + (if v[token].r.Some? then Render(v, v[token].r.value) else [])
    else []
  }

  /** `render_text`: append the expansion of token to text, recursing on both children. */
  method RenderText(text: seq<Byte>, pairs: seq<Rule>, token: nat) returns (textOut: seq<Byte>)
    requires Acyclic(pairs)
    ensures textOut == text + Render(pairs, token)
    decreases token
  {
    if token < |pairs| {
      if pairs[token].l == token {
        textOut := text + [token % 256];
        return;
      }
      textOut := RenderText(text, pairs, pairs[token].l);
      if pairs[token].r.Some? {
        textOut := RenderText(textOut, pairs, pairs[token].r.value);
      }
    } else {
      textOut := text;
    }
  }

  /** Decoding a whole sequence: per-token expansions, concatenated in order. */
  function RenderAll(v: seq<Rule>, s: seq<nat>): seq<Byte>
    requires Acyclic(v)
  {
    if s == [] then [] else Render(v, s[0]) + RenderAll(v, s[1..])
  }

  lemma {:induction false} RenderAllConcat(v: seq<Rule>, a: seq<nat>, b: seq<nat>)
    requires Acyclic(v)
    ensures RenderAll(v, a + b) == RenderAll(v, a) + RenderAll(v, b)
  {
    if a != [] {
      assert (a + b)[1..] == a[1..] + b;
      RenderAllConcat(v, a[1..], b);
    } else {
      assert a + b == b;
    }
  }

  /** The seeded table decodes each byte to itself, so a byte string to itself. */
  lemma {:induction false} RenderSeed(v: seq<Rule>, input: seq<Byte>)
    requires ValidVocab(v)
    ensures Acyclic(v)
    ensures RenderAll(v, input) == input
  {
    if input != [] {
      RenderSeed(v, input[1..]);
      assert Render(v, input[0]) == [input[0]];
    }
  }

  /** Appending an entry does not change what older ids decode to. */
  lemma {:induction false} RenderExtend(v: seq<Rule>, e: Rule, token: nat)
    requires Acyclic(v + [e])
    requires token < |v|
    ensures Acyclic(v)
    ensures Render(v + [e], token) == Render(v, token)
    decreases token
  {
    var w := v + [e];
    assert forall i :: 0 <= i < |v| ==> w[i] == v[i];
    if v[token].l != token {
      RenderExtend(v, e, v[token].l);
      if v[token].r.Some? {
        RenderExtend(v, e, v[token].r.value);
      }
    }
  }

  lemma {:induction false} RenderAllExtend(v: seq<Rule>, e: Rule, s: seq<nat>)
    requires Acyclic(v + [e])
    requires forall x :: x in s ==> x < |v|
    ensures Acyclic(v)
    ensures RenderAll(v + [e], s) == RenderAll(v, s)
  {
    assert forall i :: 0 <= i < |v| ==> (v + [e])[i] == v[i];
    if s != [] {
      assert s[0] in s;
      assert forall x :: x in s[1..] ==> x in s;
      RenderExtend(v, e, s[0]);
      RenderAllExtend(v, e, s[1..]);
    }
  }

  /** Decoding is unchanged by merging occurrences of p into a token whose rule is p:
      the round trip of one training step. */
  lemma {:induction false} RenderAllMerged(v: seq<Rule>, s: seq<nat>, p: Pair, t: nat)
    requires Acyclic(v)
    requires t < |v| && v[t] == Rule(p.l, Some(p.r)) && p.l != t
    ensures RenderAll(v, Merged(s, p, t)) == RenderAll(v, s)
    decreases |s|
  {
    if |s| >= 2 && s[0] == p.l && s[1] == p.r {
      RenderAllMerged(v, s[2..], p, t);
      assert ([t] + Merged(s[2..], p, t))[1..] == Merged(s[2..], p, t);
      assert s[1..][1..] == s[2..];
      assert RenderAll(v, s) == Render(v, p.l) + (Render(v, p.r) + RenderAll(v, s[2..]));
    } else if |s| > 0 {
      RenderAllMerged(v, s[1..], p, t);
      assert ([s[0]] + Merged(s[1..], p, t))[1..] == Merged(s[1..], p, t);
    }
  }
}
