/**
 * The optimal-play simulator (nimber_calc.py, `optimal_game`). From a state of nonzero
 * nimber it moves to a successor of nimber 0; from a state of nimber 0 it takes any
 * successor; it stops when no token is left. The source picks among the candidates at
 * random; here any candidate may be picked.
 */
module Play {
  import opened Tokens
  import opened Moves
  import opened Engine

  datatype Result<T, E> = Ok(value: T) | Err(error: E)

  /** Why a simulation stops before the game ends. */
  datatype PlayError =
    | MissingEntry(state: State)   // the memo has no entry for a state it is asked about
    | NoOptimalMove(state: State)  // a state of nonzero nimber has no successor of nimber 0

  /** `trace` is a whole game from `start`: each state is a successor of the one before, and the last has no token. */
  ghost predicate IsPlay(graph: Graph, start: State, trace: seq<State>)
    requires ValidGraph(graph)
  {
    IsPath(graph, trace) && trace[0] == start && Sum(trace[|trace| - 1]) == 0
  }

  /** Every state but the last is in the memo, and each move from a nonzero nimber lands on nimber 0. */
  ghost predicate FollowsMemo(memo: Memo, trace: seq<State>)
  {
    forall k :: 0 <= k < |trace| - 1 ==>
      trace[k] in memo && (memo[trace[k]] != 0 ==> trace[k + 1] in memo && memo[trace[k + 1]] == 0)
  }

  lemma FollowsMemoExtend(memo: Memo, trace: seq<State>, next: State)
    requires |trace| >= 1 && FollowsMemo(memo, trace)
    requires trace[|trace| - 1] in memo
    requires memo[trace[|trace| - 1]] != 0 ==> next in memo && memo[next] == 0
    ensures FollowsMemo(memo, trace + [next])
  {
    var q := trace + [next];
    assert forall k :: 0 <= k < |trace| ==> q[k] == trace[k];
  }

  /** Every state of the trace but the last that has a nonzero nimber has all its successors in the memo. */
  ghost predicate LookedUp(graph: Graph, memo: Memo, trace: seq<State>)
    requires ValidGraph(graph)
  {
    forall k :: 0 <= k < |trace| - 1 && ValidState(graph, trace[k]) && trace[k] in memo && memo[trace[k]] != 0 ==>
      forall u :: u in NextStates(graph, trace[k]) ==> u in memo
  }

  lemma LookedUpExtend(graph: Graph, memo: Memo, trace: seq<State>, next: State)
    requires ValidGraph(graph) && |trace| >= 1 && LookedUp(graph, memo, trace)
    requires ValidState(graph, trace[|trace| - 1]) && trace[|trace| - 1] in memo && memo[trace[|trace| - 1]] != 0 ==>
      forall u :: u in NextStates(graph, trace[|trace| - 1]) ==> u in memo
    ensures LookedUp(graph, memo, trace + [next])
  {
    var q := trace + [next];
    forall k | 0 <= k < |q| - 1 && ValidState(graph, q[k]) && q[k] in memo && memo[q[k]] != 0
      ensures forall u :: u in NextStates(graph, q[k]) ==> u in memo
    {
      assert q[k] == trace[k];
    }
  }

  /**
   * Collects the states of `succ` whose nimber is 0, looking each one up in the memo,
   * and fails at the first state the memo does not hold.
   */
  method OptimalStates(memo: Memo, succ: seq<State>) returns (r: Result<seq<State>, PlayError>)
    ensures r.Ok? ==> forall t :: t in succ ==> t in memo
    ensures r.Ok? ==> forall t :: t in r.value <==> t in succ && memo[t] == 0
    ensures r.Err? ==> r.error.MissingEntry? && r.error.state in succ && r.error.state !in memo
  {
    var optimal: seq<State> := [];
    for i := 0 to |succ|
      invariant forall j :: 0 <= j < i ==> succ[j] in memo
      invariant forall t :: t in optimal ==> t in succ && t in memo && memo[t] == 0
      invariant forall j :: 0 <= j < i && memo[succ[j]] == 0 ==> succ[j] in optimal
    {
      if succ[i] !in memo {
        return Err(MissingEntry(succ[i]));
      }
      if memo[succ[i]] == 0 {
        optimal := optimal + [succ[i]];
      }
    }
    return Ok(optimal);
  }

  /**
   * Plays one game from `start` with the memo. The game takes at most as many moves as
   * `start` has tokens. A closed memo that holds `start` never makes it fail.
   */
  method OptimalGame(graph: Graph, start: State, memo: Memo) returns (r: Result<seq<State>, PlayError>)
    requires ValidGraph(graph) && ValidState(graph, start)
    ensures r.Ok? ==> IsPlay(graph, start, r.value) && FollowsMemo(memo, r.value)
    ensures r.Ok? ==> LookedUp(graph, memo, r.value)
    ensures r.Ok? ==> |r.value| <= Sum(start) + 1
    ensures r.Err? ==> Reachable(graph, start, r.error.state)
    ensures r.Err? && r.error.MissingEntry? ==> r.error.state !in memo
    ensures r.Err? && r.error.NoOptimalMove? ==>
      ValidState(graph, r.error.state) && r.error.state in memo && memo[r.error.state] != 0
      && forall u :: u in NextStates(graph, r.error.state) ==> u in memo && memo[u] != 0
    ensures Closed(graph, memo) && start in memo ==> r.Ok?
  {
    ghost var closed := Closed(graph, memo) && start in memo;
    var current := start;
    var trace := [start];
    assert IsPath(graph, trace);
    while Sum(current) > 0
      invariant ValidState(graph, current)
      invariant IsPath(graph, trace) && trace[0] == start && trace[|trace| - 1] == current
      invariant FollowsMemo(memo, trace) && LookedUp(graph, memo, trace)
      invariant Sum(current) + |trace| <= Sum(start) + 1
      invariant closed ==> current in memo
      decreases Sum(current)
    {
      if current !in memo {
        PathReachable(graph, trace);
        return Err(MissingEntry(current));
      }
      var succ := NextStates(graph, current);
      NoMovesIffEmpty(graph, current);
      if closed {
        ClosedSuccessors(graph, memo, current);
      }
      var next: State;
      if memo[current] == 0 {
        var k :| 0 <= k < |succ|;
        next := succ[k];
      } else {
        var collected := OptimalStates(memo, succ);
        if collected.Err? {
          PathExtend(graph, trace, collected.error.state);
          PathReachable(graph, trace + [collected.error.state]);
          return collected;
        }
        var optimal := collected.value;
        if |optimal| == 0 {
          PathReachable(graph, trace);
          return Err(NoOptimalMove(current));
        }
        var k :| 0 <= k < |optimal|;
        next := optimal[k];
      }
      PathExtend(graph, trace, next);
      FollowsMemoExtend(memo, trace, next);
      LookedUpExtend(graph, memo, trace, next);
      trace := trace + [next];
      current := next;
    }
    return Ok(trace);
  }

  /** Every state of the trace is in the memo, and no move leads from nimber 0 to nimber 0. */
  ghost predicate ZeroLeadsToNonzero(memo: Memo, trace: seq<State>)
  {
    (forall k :: 0 <= k < |trace| ==> trace[k] in memo)
    && forall k :: 0 <= k < |trace| - 1 && memo[trace[k]] == 0 ==> memo[trace[k + 1]] != 0
  }

  /** In a closed memo holding its start, a path stays in the memo and never moves from nimber 0 to nimber 0. */
  lemma ClosedPath(graph: Graph, memo: Memo, trace: seq<State>)
    requires ValidGraph(graph) && Closed(graph, memo) && IsPath(graph, trace) && trace[0] in memo
    ensures ZeroLeadsToNonzero(memo, trace)
  {
    forall k | 0 <= k < |trace|
      ensures trace[k] in memo
    {
      ClosedPathInMemo(graph, memo, trace, k);
    }
    forall k | 0 <= k < |trace| - 1 && memo[trace[k]] == 0
      ensures memo[trace[k + 1]] != 0
    {
      ClosedSuccessors(graph, memo, trace[k]);
      assert trace[k + 1] in NextStates(graph, trace[k]);
    }
  }

  /** Along a game that follows the memo from a nonzero nimber, nonzero and zero nimbers alternate. */
  lemma {:induction false} Alternates(memo: Memo, trace: seq<State>, k: nat)
    requires ZeroLeadsToNonzero(memo, trace) && FollowsMemo(memo, trace)
    requires k < |trace| && memo[trace[0]] != 0
    ensures memo[trace[k]] != 0 <==> k % 2 == 0
    decreases k
  {
    if k > 0 {
      Alternates(memo, trace, k - 1);
    }
  }

  /**
   * When the memo is closed and the game starts at a nonzero nimber, a game that follows
   * the memo has an odd number of moves: the player who moves first makes the last move
   * and so wins under the normal play convention.
   */
  lemma WinnerMovesLast(graph: Graph, memo: Memo, start: State, trace: seq<State>)
    requires ValidGraph(graph) && Closed(graph, memo)
    requires IsPlay(graph, start, trace) && FollowsMemo(memo, trace)
    requires start in memo && memo[start] != 0
    ensures |trace| % 2 == 0
  {
    var last := |trace| - 1;
    ClosedPath(graph, memo, trace);
    Alternates(memo, trace, last);
    ClosedAgrees(graph, memo, trace[last]);
    GrundyTerminal(graph, trace[last]);
  }
}
