/** The minimum excludant of a set of nimbers (nimber_calc.py, `mex`). */
module Excludant {

  /** `m` is the minimum excludant of `s`: it is absent from `s` and every smaller natural is present. */
  predicate IsMex(s: set<nat>, m: nat)
  {
    m !in s && forall i: nat :: i < m ==> i in s
  }

  /** The naturals below `n`. */
  function Below(n: nat): (r: set<nat>)
    ensures forall i: nat :: i in r <==> i < n
    ensures |r| == n
  {
    if n == 0 then {} else
      assert n - 1 !in Below(n - 1);
      Below(n - 1) + {n - 1}
  }

  /** A set that holds 0, ..., n-1 has at least n elements. */
  lemma PrefixBound(s: set<nat>, n: nat)
    requires forall i: nat :: i < n ==> i in s
    ensures n <= |s|
  {
    assert Below(n) <= s;
    assert s == Below(n) + (s - Below(n));
  }

  /** The minimum excludant, searching upward from `i` once 0, ..., i-1 are known to be present. */
  function MexFrom(s: set<nat>, i: nat): (m: nat)
    requires forall j: nat :: j < i ==> j in s
    ensures IsMex(s, m) && i <= m <= |s|
    decreases |s| - i
  {
    if i in s then
      PrefixBound(s, i + 1);
      MexFrom(s, i + 1)
    else
      PrefixBound(s, i);
      i
  }

  /** The minimum excludant of `s`; it never exceeds the size of `s`. */
  function MexOf(s: set<nat>): (m: nat)
    ensures IsMex(s, m) && m <= |s|
  {
    MexFrom(s, 0)
  }

  /** The minimum excludant is unique. */
  lemma MexUnique(s: set<nat>, a: nat, b: nat)
    requires IsMex(s, a) && IsMex(s, b)
    ensures a == b
  {
  }

  /** The empty set of nimbers has minimum excludant 0, and only that. */
  lemma MexEmpty(s: set<nat>, m: nat)
    requires s == {}
    ensures IsMex(s, m) <==> m == 0
  {
    if m > 0 {
      assert IsMex(s, m) ==> 0 in s;
    }
  }

  /** Counts upward from 0 until it meets a value that is not in the set. */
  method Mex(s: set<nat>) returns (m: nat)
    ensures m == MexOf(s)
  {
    m := 0;
    while m in s
      invariant forall j: nat :: j < m ==> j in s
      decreases |s| - m
    {
      PrefixBound(s, m + 1);
      m := m + 1;
    }
    MexUnique(s, m, MexOf(s));
  }
}
