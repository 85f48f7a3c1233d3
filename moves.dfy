/**
 * Game states on a graph and the move generator (nimber_calc.py, `get_next_states`).
 * A move picks a vertex `v` holding tokens and splits `state[v] - 1` tokens over
 * one slot per neighbour of `v` (added to that neighbour), one slot of tokens that
 * leave the game, and a last slot that becomes `v`'s new count. At least one token
 * therefore leaves the game on every move.
 */
module Moves {
  import opened Tokens
  import opened Distributions

  /** Token count on each vertex, in vertex order. */
  type State = seq<nat>

  /** Adjacency lists: `graph[v]` lists the neighbours of vertex `v` in a fixed order. */
  type Graph = seq<seq<nat>>

  /** Every neighbour in `nbrs` is a vertex of an `n`-vertex graph. */
  predicate InRange(nbrs: seq<nat>, n: nat)
  {
    forall j :: 0 <= j < |nbrs| ==> nbrs[j] < n
  }

  /** Every neighbour list names existing vertices, each at most once. */
  predicate ValidGraph(graph: Graph)
  {
    (forall v :: 0 <= v < |graph| ==> InRange(graph[v], |graph|))
    && (forall v, j, k :: 0 <= v < |graph| && 0 <= j < k < |graph[v]| ==> graph[v][j] != graph[v][k])
  }

  /** A state gives one count per vertex of the graph. */
  predicate ValidState(graph: Graph, s: State)
  {
    |s| == |graph|
  }

  /** The tokens the first `k` neighbour slots of `d` send to vertex `u`. */
  function Allotted(nbrs: seq<nat>, d: seq<nat>, u: nat, k: nat): nat
    requires k <= |nbrs| && k <= |d|
  {
    if k == 0 then 0
    else Allotted(nbrs, d, u, k - 1) + (if nbrs[k - 1] == u then d[k - 1] else 0)
  }

  /** Adds the first `k` neighbour slots of `d` to the neighbours' counts, one neighbour at a time. */
  function Distribute(s: State, nbrs: seq<nat>, d: seq<nat>, k: nat): (r: State)
    requires k <= |nbrs| && k <= |d| && InRange(nbrs, |s|)
    ensures |r| == |s|
  {
    if k == 0 then s
    else
      var r := Distribute(s, nbrs, d, k - 1);
      r[nbrs[k - 1] := r[nbrs[k - 1]] + d[k - 1]]
  }

  /** The state after vertex `v` plays distribution `d` over its neighbour list `nbrs`. */
  function ApplyMove(s: State, nbrs: seq<nat>, v: nat, d: seq<nat>): (r: State)
    requires v < |s| && |d| == |nbrs| + 2 && InRange(nbrs, |s|)
    ensures |r| == |s| && r[v] == d[|d| - 1]
  {
    Distribute(s, nbrs, d, |nbrs|)[v := d[|d| - 1]]
  }

  /** `d` is a legal distribution for vertex `v`: `v` holds tokens and `d` splits all but one of them. */
  predicate LegalMove(graph: Graph, s: State, v: nat, d: seq<nat>)
  {
    ValidState(graph, s) && v < |s| && s[v] > 0 && IsComposition(d, s[v] - 1, |graph[v]| + 2)
  }

  lemma {:induction false} DistributeAt(s: State, nbrs: seq<nat>, d: seq<nat>, k: nat, u: nat)
    requires k <= |nbrs| && k <= |d| && InRange(nbrs, |s|) && u < |s|
    ensures Distribute(s, nbrs, d, k)[u] == s[u] + Allotted(nbrs, d, u, k)
  {
    if k > 0 {
      DistributeAt(s, nbrs, d, k - 1, u);
    }
  }

  lemma {:induction false} DistributeSum(s: State, nbrs: seq<nat>, d: seq<nat>, k: nat)
    requires k <= |nbrs| && k <= |d| && InRange(nbrs, |s|)
    ensures Sum(Distribute(s, nbrs, d, k)) == Sum(s) + Sum(d[..k])
  {
    if k > 0 {
      var r := Distribute(s, nbrs, d, k - 1);
      DistributeSum(s, nbrs, d, k - 1);
      SumUpdate(r, nbrs[k - 1], r[nbrs[k - 1]] + d[k - 1]);
      assert d[..k] == d[..k - 1] + [d[k - 1]];
      SumConcat(d[..k - 1], [d[k - 1]]);
      assert Sum([d[k - 1]]) == d[k - 1] + Sum([]);
    }
  }

  /** A vertex outside the neighbour list receives nothing. */
  lemma {:induction false} AllottedOutside(nbrs: seq<nat>, d: seq<nat>, u: nat, k: nat)
    requires k <= |nbrs| && k <= |d| && u !in nbrs[..k]
    ensures Allotted(nbrs, d, u, k) == 0
  {
    if k > 0 {
      assert nbrs[k - 1] in nbrs[..k];
      assert nbrs[..k - 1] == nbrs[..k][..k - 1];
      AllottedOutside(nbrs, d, u, k - 1);
    }
  }

  /** In a duplicate-free neighbour list, neighbour `j` receives exactly slot `j`. */
  lemma {:induction false} AllottedAt(nbrs: seq<nat>, d: seq<nat>, j: nat, k: nat)
    requires j < k <= |nbrs| && k <= |d|
    requires forall a, b :: 0 <= a < b < |nbrs| ==> nbrs[a] != nbrs[b]
    ensures Allotted(nbrs, d, nbrs[j], k) == d[j]
  {
    if j < k - 1 {
      AllottedAt(nbrs, d, j, k - 1);
    } else {
      AllottedOutside(nbrs, d, nbrs[j], j);
    }
  }

  /**
   * What one move does: only `v` and its neighbours change, each neighbour gains its
   * slot, `v` keeps fewer tokens than it had, and the total weight drops by one plus
   * the removed slot (plus whatever `v` sent to itself, which the new count overwrites).
   */
  lemma MoveEffect(graph: Graph, s: State, v: nat, d: seq<nat>)
    requires ValidGraph(graph) && LegalMove(graph, s, v, d)
    ensures |ApplyMove(s, graph[v], v, d)| == |s|
    ensures ApplyMove(s, graph[v], v, d)[v] == d[|d| - 1] < s[v]
    ensures forall u :: 0 <= u < |s| && u != v && u !in graph[v] ==>
      ApplyMove(s, graph[v], v, d)[u] == s[u]
    ensures forall j :: 0 <= j < |graph[v]| && graph[v][j] != v ==>
      ApplyMove(s, graph[v], v, d)[graph[v][j]] == s[graph[v][j]] + d[j]
    ensures Sum(ApplyMove(s, graph[v], v, d)) + 1 + d[|graph[v]|] + Allotted(graph[v], d, v, |graph[v]|) == Sum(s)
    ensures v !in graph[v] ==> Sum(ApplyMove(s, graph[v], v, d)) + 1 + d[|graph[v]|] == Sum(s)
    ensures Sum(ApplyMove(s, graph[v], v, d)) < Sum(s)
  {
    var nbrs := graph[v];
    var n := |nbrs|;
    var r := Distribute(s, nbrs, d, n);
    var t := ApplyMove(s, nbrs, v, d);
    assert nbrs[..n] == nbrs;
    // the last slot is no more than the whole budget
    assert d == d[..n] + [d[n], d[n + 1]];
    SumConcat(d[..n], [d[n], d[n + 1]]);
    assert Sum([d[n], d[n + 1]]) == d[n] + d[n + 1] + Sum([]) by {
      assert [d[n], d[n + 1]][1..] == [d[n + 1]];
      assert [d[n + 1]][1..] == [];
    }
    forall u | 0 <= u < |s| && u != v && u !in nbrs
      ensures t[u] == s[u]
    {
      DistributeAt(s, nbrs, d, n, u);
      AllottedOutside(nbrs, d, u, n);
    }
    forall j | 0 <= j < n && nbrs[j] != v
      ensures t[nbrs[j]] == s[nbrs[j]] + d[j]
    {
      DistributeAt(s, nbrs, d, n, nbrs[j]);
      AllottedAt(nbrs, d, j, n);
    }
    DistributeSum(s, nbrs, d, n);
    DistributeAt(s, nbrs, d, n, v);
    SumUpdate(r, v, d[n + 1]);
    if v !in nbrs {
      AllottedOutside(nbrs, d, v, n);
    }
  }

  /** The states vertex `v` can move to, one per composition, in enumeration order. */
  function MovesFrom(graph: Graph, s: State, v: nat): (r: seq<State>)
    requires ValidGraph(graph) && ValidState(graph, s) && v < |s| && s[v] > 0
    ensures forall i :: 0 <= i < |r| ==> |r[i]| == |s|
  {
    var ds := Compositions(s[v] - 1, |graph[v]| + 2);
    seq(|ds|, i requires 0 <= i < |ds| => ApplyMove(s, graph[v], v, ds[i]))
  }

  /** A vertex holding `n` tokens with `m` neighbours has C(n + m, m + 1) moves, one per distribution. */
  lemma MovesFromCount(graph: Graph, s: State, v: nat)
    requires ValidGraph(graph) && ValidState(graph, s) && v < |s| && s[v] > 0
    ensures |MovesFrom(graph, s, v)| == Binomial(s[v] + |graph[v]|, |graph[v]| + 1)
  {
    CompositionsCount(s[v] - 1, |graph[v]| + 2);
  }

  lemma MovesFromShrink(graph: Graph, s: State, v: nat)
    requires ValidGraph(graph) && ValidState(graph, s) && v < |s| && s[v] > 0
    ensures forall t :: t in MovesFrom(graph, s, v) ==> |t| == |s| && Sum(t) < Sum(s)
  {
    var ds := Compositions(s[v] - 1, |graph[v]| + 2);
    forall i | 0 <= i < |ds|
      ensures |MovesFrom(graph, s, v)[i]| == |s| && Sum(MovesFrom(graph, s, v)[i]) < Sum(s)
    {
      MoveEffect(graph, s, v, ds[i]);
    }
  }

  /** The successors contributed by vertices `v`, `v + 1`, ... in vertex order. */
  function NextStatesFrom(graph: Graph, s: State, v: nat): (r: seq<State>)
    requires ValidGraph(graph) && ValidState(graph, s) && v <= |s|
    ensures forall t :: t in r ==> |t| == |s| && Sum(t) < Sum(s)
    decreases |s| - v
  {
    if v == |s| then []
    else if s[v] == 0 then NextStatesFrom(graph, s, v + 1)
    else
      MovesFromShrink(graph, s, v);
      MovesFrom(graph, s, v) + NextStatesFrom(graph, s, v + 1)
  }

  /**
   * Every state reachable by one move, vertex by vertex. Each has one count per vertex
   * and a strictly smaller total weight, the measure on which the analysis terminates.
   */
  function NextStates(graph: Graph, s: State): (r: seq<State>)
    requires ValidGraph(graph) && ValidState(graph, s)
    ensures forall t :: t in r ==> ValidState(graph, t) && Sum(t) < Sum(s)
  {
    NextStatesFrom(graph, s, 0)
  }

  /** Vertex `v` has a legal distribution that leads from `s` to `t`. */
  ghost predicate MoveOf(graph: Graph, s: State, v: nat, t: State)
    requires ValidGraph(graph)
  {
    exists d: seq<nat> :: LegalMove(graph, s, v, d) && t == ApplyMove(s, graph[v], v, d)
  }

  lemma MovesFromExact(graph: Graph, s: State, v: nat, t: State)
    requires ValidGraph(graph) && ValidState(graph, s) && v < |s| && s[v] > 0
    ensures t in MovesFrom(graph, s, v) <==> MoveOf(graph, s, v, t)
  {
    var ds := Compositions(s[v] - 1, |graph[v]| + 2);
    if t in MovesFrom(graph, s, v) {
      var i :| 0 <= i < |ds| && t == ApplyMove(s, graph[v], v, ds[i]);
      assert LegalMove(graph, s, v, ds[i]);
    }
    if MoveOf(graph, s, v, t) {
      var d :| LegalMove(graph, s, v, d) && t == ApplyMove(s, graph[v], v, d);
      CompositionsComplete(s[v] - 1, |graph[v]| + 2, d);
      var i :| 0 <= i < |ds| && ds[i] == d;
      assert MovesFrom(graph, s, v)[i] == t;
    }
  }

  lemma {:induction false} NextStatesFromExact(graph: Graph, s: State, w: nat, t: State)
    requires ValidGraph(graph) && ValidState(graph, s) && w <= |s|
    ensures t in NextStatesFrom(graph, s, w) <==> exists v: nat :: w <= v < |s| && MoveOf(graph, s, v, t)
    decreases |s| - w
  {
    if w < |s| {
      NextStatesFromExact(graph, s, w + 1, t);
      if s[w] > 0 {
        MovesFromExact(graph, s, w, t);
        assert NextStatesFrom(graph, s, w) == MovesFrom(graph, s, w) + NextStatesFrom(graph, s, w + 1);
      } else {
        assert !MoveOf(graph, s, w, t);
        assert NextStatesFrom(graph, s, w) == NextStatesFrom(graph, s, w + 1);
      }
      if exists v: nat :: w <= v < |s| && MoveOf(graph, s, v, t) {
        var v: nat :| w <= v < |s| && MoveOf(graph, s, v, t);
        if v > w {
          assert exists v': nat :: w + 1 <= v' < |s| && MoveOf(graph, s, v', t);
        }
      }
    }
  }

  /** The move generator yields exactly the states that one legal move reaches. */
  lemma NextStatesExact(graph: Graph, s: State, t: State)
    requires ValidGraph(graph) && ValidState(graph, s)
    ensures t in NextStates(graph, s) <==> exists v: nat :: v < |s| && MoveOf(graph, s, v, t)
  {
    NextStatesFromExact(graph, s, 0, t);
  }

  lemma {:induction false} NextStatesFromNonEmpty(graph: Graph, s: State, w: nat, v: nat)
    requires ValidGraph(graph) && ValidState(graph, s) && w <= v < |s| && s[v] > 0
    ensures NextStatesFrom(graph, s, w) != []
    decreases v - w
  {
    if w < v {
      NextStatesFromNonEmpty(graph, s, w + 1, v);
    }
  }

  lemma {:induction false} NextStatesFromEmpty(graph: Graph, s: State, w: nat)
    requires ValidGraph(graph) && ValidState(graph, s) && w <= |s|
    requires forall i :: 0 <= i < |s| ==> s[i] == 0
    ensures NextStatesFrom(graph, s, w) == []
    decreases |s| - w
  {
    if w < |s| {
      NextStatesFromEmpty(graph, s, w + 1);
    }
  }

  /** A state has no successor exactly when it holds no token. */
  lemma NoMovesIffEmpty(graph: Graph, s: State)
    requires ValidGraph(graph) && ValidState(graph, s)
    ensures NextStates(graph, s) == [] <==> Sum(s) == 0
  {
    SumZero(s);
    if Sum(s) == 0 {
      NextStatesFromEmpty(graph, s, 0);
    } else {
      var v :| 0 <= v < |s| && s[v] != 0;
      NextStatesFromNonEmpty(graph, s, 0, v);
    }
  }

  /** `p` is a sequence of states of the graph, each reached from the one before by one move. */
  ghost predicate IsPath(graph: Graph, p: seq<State>)
    requires ValidGraph(graph)
  {
    |p| >= 1
    && (forall k :: 0 <= k < |p| ==> ValidState(graph, p[k]))
    && (forall k {:trigger NextStates(graph, p[k])} :: 0 <= k < |p| - 1 ==> p[k + 1] in NextStates(graph, p[k]))
  }

  /** Some sequence of moves, possibly empty, leads from `s` to `t`. */
  ghost predicate Reachable(graph: Graph, s: State, t: State)
    requires ValidGraph(graph)
  {
    exists p :: IsPath(graph, p) && p[0] == s && p[|p| - 1] == t
  }

  lemma ReachableSelf(graph: Graph, s: State)
    requires ValidGraph(graph) && ValidState(graph, s)
    ensures Reachable(graph, s, s)
  {
    assert IsPath(graph, [s]);
  }

  /** A path preceded by a state it is a successor of is a path. */
  lemma PathPrepend(graph: Graph, s: State, p: seq<State>)
    requires ValidGraph(graph) && ValidState(graph, s) && IsPath(graph, p) && p[0] in NextStates(graph, s)
    ensures IsPath(graph, [s] + p)
  {
    var q := [s] + p;
    forall k | 0 <= k < |q|
      ensures ValidState(graph, q[k])
    {
      if k > 0 {
        assert q[k] == p[k - 1];
      }
    }
    forall k | 0 <= k < |q| - 1
      ensures q[k + 1] in NextStates(graph, q[k])
    {
      if k > 0 {
        assert q[k] == p[k - 1] && q[k + 1] == p[k];
        assert p[k] in NextStates(graph, p[k - 1]);
      }
    }
  }

  /** A state reachable from a successor of `s` is reachable from `s`. */
  lemma ReachableStep(graph: Graph, s: State, u: State, t: State)
    requires ValidGraph(graph) && ValidState(graph, s)
    requires u in NextStates(graph, s) && Reachable(graph, u, t)
    ensures Reachable(graph, s, t)
  {
    var p :| IsPath(graph, p) && p[0] == u && p[|p| - 1] == t;
    PrependReaches(graph, s, p);
  }

  /** The end of a path starting at a successor of `s` is reachable from `s`. */
  lemma PrependReaches(graph: Graph, s: State, p: seq<State>)
    requires ValidGraph(graph) && ValidState(graph, s) && IsPath(graph, p) && p[0] in NextStates(graph, s)
    ensures Reachable(graph, s, p[|p| - 1])
  {
    PathPrepend(graph, s, p);
    var q := [s] + p;
    assert q[0] == s && q[|q| - 1] == p[|p| - 1];
    PathReachable(graph, q);
  }

  /** A path extended by a successor of its last state is a path. */
  lemma PathExtend(graph: Graph, p: seq<State>, t: State)
    requires ValidGraph(graph) && IsPath(graph, p) && t in NextStates(graph, p[|p| - 1])
    ensures IsPath(graph, p + [t])
  {
    var q := p + [t];
    var last := p[|p| - 1];
    assert ValidState(graph, t);
    forall k | 0 <= k < |q|
      ensures ValidState(graph, q[k])
    {
      if k < |p| {
        assert q[k] == p[k];
      }
    }
    forall k | 0 <= k < |q| - 1
      ensures q[k + 1] in NextStates(graph, q[k])
    {
      if k + 1 < |p| {
        assert q[k] == p[k] && q[k + 1] == p[k + 1];
        assert p[k + 1] in NextStates(graph, p[k]);
      } else {
        assert q[k] == last && q[k + 1] == t;
      }
    }
  }

  /** The last state of a path is reachable from its first. */
  lemma PathReachable(graph: Graph, p: seq<State>)
    requires ValidGraph(graph) && IsPath(graph, p)
    ensures Reachable(graph, p[0], p[|p| - 1])
  {
  }
}
