/** Every way to split a number of indistinguishable tokens over ordered slots (nimber_calc.py, `compositions`). */
module Distributions {
  import opened Tokens

  /** `c` puts exactly `tokens` tokens into `parts` slots. */
  predicate IsComposition(c: seq<nat>, tokens: nat, parts: nat)
  {
    |c| == parts && Sum(c) == tokens
  }

  /** Each of `cs`, with `first` put in front. */
  function PrependAll(first: nat, cs: seq<seq<nat>>): seq<seq<nat>>
  {
    seq(|cs|, k requires 0 <= k < |cs| => [first] + cs[k])
  }

  /**
   * The compositions of `tokens` into `parts` slots. One slot holds all the tokens;
   * with more slots, the first slot takes 0, 1, ..., tokens in turn and the rest are
   * split over the remaining slots. With no slot at all the enumeration recurses without
   * end, until Python's recursion limit raises RecursionError.
   */
  function Compositions(tokens: nat, parts: nat): (r: seq<seq<nat>>)
    requires parts >= 1
    ensures forall k :: 0 <= k < |r| ==> IsComposition(r[k], tokens, parts)
    ensures |r| > 0
    ensures parts == 1 ==> r == [[tokens]]
    decreases parts, tokens + 2
  {
    if parts == 1 then
      assert Sum([tokens]) == tokens + Sum([]);
      [[tokens]]
    else CompositionsFrom(tokens, parts, 0)
  }

  /** The compositions of `tokens` into `parts` slots whose first slot holds at least `first`. */
  function CompositionsFrom(tokens: nat, parts: nat, first: nat): (r: seq<seq<nat>>)
    requires parts >= 2 && first <= tokens + 1
    ensures forall k :: 0 <= k < |r| ==> IsComposition(r[k], tokens, parts) && first <= r[k][0]
    ensures first <= tokens ==> |r| > 0
    decreases parts, tokens + 1 - first
  {
    if first > tokens then []
    else
      var rest := Compositions(tokens - first, parts - 1);
      var front := PrependAll(first, rest);
      assert forall k :: 0 <= k < |front| ==> front[k][1..] == rest[k];
      assert forall k :: 0 <= k < |front| ==> IsComposition(front[k], tokens, parts) && front[k][0] == first;
      front + CompositionsFrom(tokens, parts, first + 1)
  }

  /** Every composition is produced: the enumeration is exhaustive. */
  lemma {:induction false} CompositionsComplete(tokens: nat, parts: nat, c: seq<nat>)
    requires parts >= 1
    ensures c in Compositions(tokens, parts) <==> IsComposition(c, tokens, parts)
    decreases parts
  {
    if IsComposition(c, tokens, parts) {
      if parts == 1 {
        assert Sum(c) == c[0] + Sum(c[1..]) && c[1..] == [];
        assert c == [tokens];
      } else {
        assert Sum(c) == c[0] + Sum(c[1..]);
        CompositionsComplete(tokens - c[0], parts - 1, c[1..]);
        CompositionsFromContains(tokens, parts, 0, c);
      }
    }
  }

  lemma {:induction false} CompositionsFromContains(tokens: nat, parts: nat, first: nat, c: seq<nat>)
    requires parts >= 2 && |c| == parts && first <= c[0] <= tokens
    requires c[1..] in Compositions(tokens - c[0], parts - 1)
    ensures c in CompositionsFrom(tokens, parts, first)
    decreases tokens + 1 - first
  {
    var rest := Compositions(tokens - first, parts - 1);
    if first == c[0] {
      var k :| 0 <= k < |rest| && rest[k] == c[1..];
      assert PrependAll(first, rest)[k] == c;
    } else {
      CompositionsFromContains(tokens, parts, first + 1, c);
    }
  }

  /** Strict lexicographic order on sequences of counts. */
  predicate LexLess(a: seq<nat>, b: seq<nat>)
    decreases |a|
  {
    |a| > 0 && |b| > 0 && (a[0] < b[0] || (a[0] == b[0] && LexLess(a[1..], b[1..])))
  }

  lemma {:induction false} LexLessIrreflexive(a: seq<nat>)
    ensures !LexLess(a, a)
    decreases |a|
  {
    if |a| > 0 {
      LexLessIrreflexive(a[1..]);
    }
  }

  /** The compositions come out in strictly increasing lexicographic order. */
  lemma {:induction false} CompositionsOrdered(tokens: nat, parts: nat)
    requires parts >= 1
    ensures forall i, j :: 0 <= i < j < |Compositions(tokens, parts)| ==>
      LexLess(Compositions(tokens, parts)[i], Compositions(tokens, parts)[j])
    decreases parts, tokens + 2
  {
    if parts > 1 {
      CompositionsFromOrdered(tokens, parts, 0);
    }
  }

  lemma {:induction false} CompositionsFromOrdered(tokens: nat, parts: nat, first: nat)
    requires parts >= 2 && first <= tokens + 1
    ensures forall i, j :: 0 <= i < j < |CompositionsFrom(tokens, parts, first)| ==>
      LexLess(CompositionsFrom(tokens, parts, first)[i], CompositionsFrom(tokens, parts, first)[j])
    decreases parts, tokens + 1 - first
  {
    if first <= tokens {
      var rest := Compositions(tokens - first, parts - 1);
      var front := PrependAll(first, rest);
      var back := CompositionsFrom(tokens, parts, first + 1);
      var r := CompositionsFrom(tokens, parts, first);
      assert r == front + back;
      CompositionsOrdered(tokens - first, parts - 1);
      CompositionsFromOrdered(tokens, parts, first + 1);
      forall i, j | 0 <= i < j < |r|
        ensures LexLess(r[i], r[j])
      {
        if j < |front| {
          assert front[i][1..] == rest[i] && front[j][1..] == rest[j];
          assert LexLess(rest[i], rest[j]);
        } else if i < |front| {
          assert r[j] == back[j - |front|];
          assert back[j - |front|] in back;
        } else {
          assert r[i] == back[i - |front|] && r[j] == back[j - |front|];
        }
      }
    }
  }

  /**
   * Every composition appears exactly once, and the first slot never decreases
   * along the enumeration.
   */
  lemma CompositionsDistinct(tokens: nat, parts: nat)
    requires parts >= 1
    ensures forall i, j :: 0 <= i < j < |Compositions(tokens, parts)| ==>
      Compositions(tokens, parts)[i] != Compositions(tokens, parts)[j]
      && Compositions(tokens, parts)[i][0] <= Compositions(tokens, parts)[j][0]
  {
    var r := Compositions(tokens, parts);
    CompositionsOrdered(tokens, parts);
    forall i, j | 0 <= i < j < |r|
      ensures r[i] != r[j] && r[i][0] <= r[j][0]
    {
      LexLessIrreflexive(r[i]);
    }
  }

  /** Pascal's rule for binomial coefficients. */
  function Binomial(n: nat, k: nat): nat
  {
    if k == 0 then 1 else if n == 0 then 0 else Binomial(n - 1, k - 1) + Binomial(n - 1, k)
  }

  lemma {:induction false} BinomialBeyond(n: nat, k: nat)
    requires k > n
    ensures Binomial(n, k) == 0
  {
    if n > 0 {
      BinomialBeyond(n - 1, k - 1);
      BinomialBeyond(n - 1, k);
    }
  }

  /** Enumerations with the same number of tokens left for the first slot have the same length. */
  lemma {:induction false} CompositionsFromShift(tokens: nat, parts: nat, first: nat, tokens': nat, first': nat)
    requires parts >= 2 && first <= tokens + 1 && first' <= tokens' + 1
    requires tokens - first == tokens' - first'
    ensures |CompositionsFrom(tokens, parts, first)| == |CompositionsFrom(tokens', parts, first')|
    decreases tokens + 1 - first
  {
    if first <= tokens {
      CompositionsFromShift(tokens, parts, first + 1, tokens', first' + 1);
    }
  }

  /** Stars and bars: there are C(tokens + parts - 1, parts - 1) compositions. */
  lemma {:induction false} CompositionsCount(tokens: nat, parts: nat)
    requires parts >= 1
    ensures |Compositions(tokens, parts)| == Binomial(tokens + parts - 1, parts - 1)
    decreases parts, tokens
  {
    if parts > 1 {
      var n := tokens + parts - 1;
      assert Binomial(n, parts - 1) == Binomial(n - 1, parts - 2) + Binomial(n - 1, parts - 1);
      CompositionsCount(tokens, parts - 1);
      assert |Compositions(tokens, parts)| == |Compositions(tokens, parts - 1)| + |CompositionsFrom(tokens, parts, 1)|;
      if tokens == 0 {
        BinomialBeyond(n - 1, parts - 1);
      } else {
        CompositionsFromShift(tokens, parts, 1, tokens - 1, 0);
        CompositionsCount(tokens - 1, parts);
      }
    }
  }
}
