/**
 * Grundy values with a memo table (nimber_calc.py, `grundy`). The memo maps each
 * analysed state to its nimber; the engine only ever adds entries to it.
 */
module Engine {
  import opened Tokens
  import opened Excludant
  import opened Moves

  /** The memo table: analysed state to nimber. */
  type Memo = map<State, nat>

  /** Reference definition: the mex of the Grundy values of all successors. */
  function GrundyValue(graph: Graph, s: State): nat
    requires ValidGraph(graph) && ValidState(graph, s)
    decreases Sum(s), 1
  {
    MexOf(SuccessorNimbers(graph, s))
  }

  /** The Grundy values of the successors of `s`. */
  function SuccessorNimbers(graph: Graph, s: State): set<nat>
    requires ValidGraph(graph) && ValidState(graph, s)
    decreases Sum(s), 0
  {
    set t | t in NextStates(graph, s) :: GrundyValue(graph, t)
  }

  /** The memo values of the given states. */
  function Values(memo: Memo, ts: seq<State>): set<nat>
    requires forall t :: t in ts ==> t in memo
  {
    set t | t in ts :: memo[t]
  }

  /**
   * The entry for `t` is consistent: `t` is a state of the graph, its successors
   * are all entries, and its value is the mex of theirs.
   */
  ghost predicate EntryConsistent(graph: Graph, memo: Memo, t: State)
    requires ValidGraph(graph)
  {
    t in memo
    && ValidState(graph, t)
    && (forall u :: u in NextStates(graph, t) ==> u in memo)
    && IsMex(Values(memo, NextStates(graph, t)), memo[t])
  }

  /** The invariant of the memo table: every entry is consistent. */
  ghost predicate Closed(graph: Graph, memo: Memo)
    requires ValidGraph(graph)
  {
    (forall t :: t in memo ==> ValidState(graph, t))
    && forall t {:trigger EntryConsistent(graph, memo, t)} :: t in memo ==> EntryConsistent(graph, memo, t)
  }

  /** `after` keeps every entry of `before`, with the same value. */
  ghost predicate Extends(before: Memo, after: Memo)
  {
    forall t :: t in before ==> t in after && after[t] == before[t]
  }

  /** Memo values that are the true Grundy values give the successors' nimbers. */
  lemma ValuesAreNimbers(graph: Graph, memo: Memo, s: State)
    requires ValidGraph(graph) && ValidState(graph, s)
    requires forall u :: u in NextStates(graph, s) ==> u in memo && memo[u] == GrundyValue(graph, u)
    ensures Values(memo, NextStates(graph, s)) == SuccessorNimbers(graph, s)
  {
    var succ := NextStates(graph, s);
    forall x | x in Values(memo, succ)
      ensures x in SuccessorNimbers(graph, s)
    {
      var u :| u in succ && memo[u] == x;
    }
    forall x | x in SuccessorNimbers(graph, s)
      ensures x in Values(memo, succ)
    {
      var u :| u in succ && GrundyValue(graph, u) == x;
    }
  }

  /** A closed memo table holds only true Grundy values. */
  lemma {:induction false} ClosedAgrees(graph: Graph, memo: Memo, t: State)
    requires ValidGraph(graph) && Closed(graph, memo) && t in memo
    ensures memo[t] == GrundyValue(graph, t)
    decreases Sum(t)
  {
    assert EntryConsistent(graph, memo, t);
    var succ := NextStates(graph, t);
    forall u | u in succ
      ensures memo[u] == GrundyValue(graph, u)
    {
      ClosedAgrees(graph, memo, u);
    }
    ValuesAreNimbers(graph, memo, t);
    MexUnique(Values(memo, succ), memo[t], GrundyValue(graph, t));
  }

  /** A state with no token has Grundy value 0. */
  lemma GrundyTerminal(graph: Graph, s: State)
    requires ValidGraph(graph) && ValidState(graph, s) && Sum(s) == 0
    ensures GrundyValue(graph, s) == 0
  {
    NoMovesIffEmpty(graph, s);
    MexEmpty(SuccessorNimbers(graph, s), GrundyValue(graph, s));
  }

  /**
   * A state is a P-position (value 0) exactly when no move reaches a P-position;
   * from any other state some move reaches one.
   */
  lemma GrundyZeroIff(graph: Graph, s: State)
    requires ValidGraph(graph) && ValidState(graph, s)
    ensures GrundyValue(graph, s) == 0 <==>
      forall t :: t in NextStates(graph, s) ==> GrundyValue(graph, t) != 0
  {
    assert GrundyValue(graph, s) == 0 <==> 0 !in SuccessorNimbers(graph, s);
  }

  /**
   * In a closed table every successor of an entry is an entry; an entry with nonzero
   * nimber has a successor with nimber 0, and one with nimber 0 has none.
   */
  lemma ClosedSuccessors(graph: Graph, memo: Memo, t: State)
    requires ValidGraph(graph) && Closed(graph, memo) && t in memo
    ensures forall u :: u in NextStates(graph, t) ==> u in memo
    ensures memo[t] != 0 ==> exists u :: u in NextStates(graph, t) && u in memo && memo[u] == 0
    ensures memo[t] == 0 ==> forall u :: u in NextStates(graph, t) ==> u in memo && memo[u] != 0
  {
    assert EntryConsistent(graph, memo, t);
    var succ := NextStates(graph, t);
    if memo[t] != 0 {
      assert 0 in Values(memo, succ);
    }
  }

  lemma {:induction false} ClosedPathInMemo(graph: Graph, memo: Memo, p: seq<State>, k: nat)
    requires ValidGraph(graph) && Closed(graph, memo) && IsPath(graph, p) && p[0] in memo && k < |p|
    ensures p[k] in memo
    decreases k
  {
    if k > 0 {
      ClosedPathInMemo(graph, memo, p, k - 1);
      ClosedSuccessors(graph, memo, p[k - 1]);
    }
  }

  /** A closed memo holds every state reachable from any of its entries. */
  lemma ClosedReachable(graph: Graph, memo: Memo, s: State, t: State)
    requires ValidGraph(graph) && Closed(graph, memo) && s in memo && Reachable(graph, s, t)
    ensures t in memo
  {
    var p :| IsPath(graph, p) && p[0] == s && p[|p| - 1] == t;
    ClosedPathInMemo(graph, memo, p, |p| - 1);
  }

  /** Adding a state whose successors are all entries, with the mex of their values, keeps the table closed. */
  lemma ClosedInsert(graph: Graph, memo: Memo, s: State, g: nat)
    requires ValidGraph(graph) && Closed(graph, memo) && ValidState(graph, s)
    requires forall u :: u in NextStates(graph, s) ==> u in memo
    requires IsMex(Values(memo, NextStates(graph, s)), g)
    ensures Closed(graph, memo[s := g])
  {
    var memo' := memo[s := g];
    if s in memo {
      assert EntryConsistent(graph, memo, s);
      MexUnique(Values(memo, NextStates(graph, s)), memo[s], g);
      assert memo' == memo;
    } else {
      forall t | t in memo'
        ensures EntryConsistent(graph, memo', t)
      {
        if t != s {
          assert EntryConsistent(graph, memo, t);
        }
        var succ := NextStates(graph, t);
        assert forall u :: u in succ ==> u in memo;
        assert Values(memo', succ) == Values(memo, succ);
      }
    }
  }

  /** Every key of `after` that is not a key of `before` is reachable from `s`. */
  ghost predicate NewKeysReachable(graph: Graph, before: Memo, after: Memo, s: State)
    requires ValidGraph(graph)
  {
    forall t :: t in after && t !in before ==> Reachable(graph, s, t)
  }

  /** Keys added while analysing a successor of `s` are reachable from `s`. */
  lemma NewKeysReachableStep(graph: Graph, memo: Memo, before: Memo, after: Memo, s: State, u: State)
    requires ValidGraph(graph) && ValidState(graph, s) && u in NextStates(graph, s)
    requires NewKeysReachable(graph, memo, before, s) && NewKeysReachable(graph, before, after, u)
    ensures NewKeysReachable(graph, memo, after, s)
  {
    forall t | t in after && t !in memo
      ensures Reachable(graph, s, t)
    {
      if t !in before {
        ReachableStep(graph, s, u, t);
      }
    }
  }

  /** Recording `s` itself keeps the new keys reachable from `s`. */
  lemma NewKeysReachableSelf(graph: Graph, memo: Memo, after: Memo, s: State, g: nat)
    requires ValidGraph(graph) && ValidState(graph, s) && NewKeysReachable(graph, memo, after, s)
    ensures NewKeysReachable(graph, memo, after[s := g], s)
  {
    ReachableSelf(graph, s);
  }

  /**
   * Looks the state up in the memo; otherwise records 0 for a state without tokens, or
   * the mex of the successors' values, computing each successor first. The table only
   * grows, stays closed, and ends holding the state's true Grundy value.
   */
  method Grundy(graph: Graph, s: State, memo: Memo) returns (g: nat, memo': Memo)
    requires ValidGraph(graph) && ValidState(graph, s) && Closed(graph, memo)
    ensures s in memo' && memo'[s] == g
    ensures g == GrundyValue(graph, s)
    ensures Sum(s) == 0 ==> g == 0
    ensures s in memo ==> memo' == memo
    ensures Extends(memo, memo') && Closed(graph, memo')
    ensures NewKeysReachable(graph, memo, memo', s)
    decreases Sum(s)
  {
    if s in memo {
      ClosedAgrees(graph, memo, s);
      return memo[s], memo;
    }
    if Sum(s) == 0 {
      NoMovesIffEmpty(graph, s);
      MexEmpty(Values(memo, NextStates(graph, s)), 0);
      ClosedInsert(graph, memo, s, 0);
      GrundyTerminal(graph, s);
      NewKeysReachableSelf(graph, memo, memo, s, 0);
      return 0, memo[s := 0];
    }
    var succ := NextStates(graph, s);
    var nimbers: set<nat> := {};
    memo' := memo;
    for i := 0 to |succ|
      invariant Extends(memo, memo') && Closed(graph, memo')
      invariant forall t :: t in succ[..i] ==> t in memo'
      invariant nimbers == Values(memo', succ[..i])
      invariant NewKeysReachable(graph, memo, memo', s)
    {
      ghost var before := memo';
      var h;
      h, memo' := Grundy(graph, succ[i], memo');
      GrundyStep(memo, before, memo', succ, i, h, nimbers);
      NewKeysReachableStep(graph, memo, before, memo', s, succ[i]);
      nimbers := nimbers + {h};
    }
    assert succ[..|succ|] == succ;
    g := Mex(nimbers);
    ClosedInsert(graph, memo', s, g);
    NewKeysReachableSelf(graph, memo, memo', s, g);
    memo' := memo'[s := g];
    ClosedAgrees(graph, memo', s);
  }

  /** The loop of `Grundy` keeps its memo invariants once one more successor is analysed. */
  lemma GrundyStep(memo: Memo, before: Memo, after: Memo, succ: seq<State>, i: nat, h: nat, nimbers: set<nat>)
    requires i < |succ| && Extends(memo, before) && Extends(before, after)
    requires forall t :: t in succ[..i] ==> t in before
    requires nimbers == Values(before, succ[..i])
    requires succ[i] in after && after[succ[i]] == h
    ensures Extends(memo, after)
    ensures forall t :: t in succ[..i + 1] ==> t in after
    ensures nimbers + {h} == Values(after, succ[..i + 1])
  {
    ExtendsTrans(memo, before, after);
    ValuesGrow(before, after, succ[..i], succ[i]);
    assert succ[..i + 1] == succ[..i] + [succ[i]];
  }

  lemma ExtendsTrans(a: Memo, b: Memo, c: Memo)
    requires Extends(a, b) && Extends(b, c)
    ensures Extends(a, c)
  {
  }

  /** Values already gathered stay the same in an extended table; one more state adds its value. */
  lemma ValuesGrow(before: Memo, after: Memo, ts: seq<State>, t: State)
    requires Extends(before, after) && (forall u :: u in ts ==> u in before) && t in after
    ensures Values(after, ts + [t]) == Values(before, ts) + {after[t]}
  {
    assert forall u :: u in ts + [t] <==> u in ts || u == t;
  }
}
