/**
 * Small worked positions: the enumerator, the move generator and Grundy values on a
 * single isolated vertex and on the path with two vertices.
 */
module Scenarios {
  import opened Tokens
  import opened Excludant
  import opened Distributions
  import opened Moves
  import opened Engine

  lemma PrependSingle(first: nat, c: seq<nat>)
    ensures PrependAll(first, [c]) == [[first] + c]
  {
  }

  lemma PrependPair(first: nat, c: seq<nat>, c': seq<nat>)
    ensures PrependAll(first, [c, c']) == [[first] + c, [first] + c']
  {
  }

  /** Two tokens in two slots, listed by increasing first slot. */
  lemma TwoTokensTwoSlots()
    ensures Compositions(2, 2) == [[0, 2], [1, 1], [2, 0]]
  {
    assert Compositions(0, 1) == [[0]];
    assert Compositions(1, 1) == [[1]];
    assert Compositions(2, 1) == [[2]];
    assert CompositionsFrom(2, 2, 3) == [];
    PrependSingle(2, [0]);
    PrependSingle(1, [1]);
    PrependSingle(0, [2]);
    assert [2] + [0] == [2, 0] && [1] + [1] == [1, 1] && [0] + [2] == [0, 2];
    assert CompositionsFrom(2, 2, 2) == PrependAll(2, [[0]]) + [];
    assert CompositionsFrom(2, 2, 1) == PrependAll(1, [[1]]) + [[2, 0]];
    assert CompositionsFrom(2, 2, 0) == PrependAll(0, [[2]]) + [[1, 1], [2, 0]];
  }

  /**
   * An isolated vertex with three tokens: a move removes at least one token and may
   * remove any number more.
   */
  lemma IsolatedVertexMoves()
    ensures NextStates([[]], [3]) == [[2], [1], [0]]
  {
    TwoTokensTwoSlots();
    var ds := Compositions(2, 2);
    assert ApplyMove([3], [], 0, ds[0]) == [2];
    assert ApplyMove([3], [], 0, ds[1]) == [1];
    assert ApplyMove([3], [], 0, ds[2]) == [0];
    assert MovesFrom([[]], [3], 0) == [[2], [1], [0]];
    assert NextStatesFrom([[]], [3], 1) == [];
  }

  /** With no token to place, the only composition is all zeros. */
  lemma NoTokenCompositions()
    ensures Compositions(0, 2) == [[0, 0]]
    ensures Compositions(0, 3) == [[0, 0, 0]]
  {
    assert Compositions(0, 1) == [[0]];
    assert CompositionsFrom(0, 2, 1) == [];
    PrependSingle(0, [0]);
    assert [0] + [0] == [0, 0];
    assert CompositionsFrom(0, 2, 0) == PrependAll(0, [[0]]) + [];
    assert CompositionsFrom(0, 3, 1) == [];
    PrependSingle(0, [0, 0]);
    assert [0] + [0, 0] == [0, 0, 0];
    assert CompositionsFrom(0, 3, 0) == PrependAll(0, [[0, 0]]) + [];
  }

  /** From a single token the only move empties the vertex. */
  lemma OneTokenMoves(graph: Graph, s: State)
    requires graph == [[]] && s == [1]
    ensures NextStates(graph, s) == [[0]]
  {
    NoTokenCompositions();
    assert ApplyMove(s, [], 0, [0, 0]) == [0];
    assert MovesFrom(graph, s, 0) == [[0]];
    assert NextStatesFrom(graph, s, 1) == [];
  }

  /** A state whose only successor has no token left has nimber 1. */
  lemma OnlyMoveEmpties(graph: Graph, s: State, t: State)
    requires ValidGraph(graph) && ValidState(graph, s) && NextStates(graph, s) == [t] && Sum(t) == 0
    ensures GrundyValue(graph, s) == 1
  {
    assert ValidState(graph, t);
    GrundyTerminal(graph, t);
    assert SuccessorNimbers(graph, s) == {0};
    assert IsMex({0}, 1);
    MexUnique({0}, 1, GrundyValue(graph, s));
  }

  /** A single token on an isolated vertex is an N-position of nimber 1. */
  lemma OneTokenNimber(graph: Graph, s: State)
    requires graph == [[]] && s == [1]
    ensures GrundyValue(graph, s) == 1
  {
    OneTokenMoves(graph, s);
    OnlyMoveEmpties(graph, s, [0]);
  }

  /** On the path 0 - 1, the successors are vertex 0's moves followed by vertex 1's. */
  lemma PathNextStates(graph: Graph, s: State)
    requires graph == [[1], [0]] && |s| == 2
    ensures NextStates(graph, s) ==
      (if s[0] > 0 then MovesFrom(graph, s, 0) else []) + (if s[1] > 0 then MovesFrom(graph, s, 1) else [])
  {
    assert ValidGraph(graph) && ValidState(graph, s);
    assert NextStatesFrom(graph, s, 2) == [];
    assert NextStatesFrom(graph, s, 1) == (if s[1] > 0 then MovesFrom(graph, s, 1) else []) + [];
    assert NextStatesFrom(graph, s, 0) ==
      (if s[0] > 0 then MovesFrom(graph, s, 0) else []) + NextStatesFrom(graph, s, 1);
  }

  /** On the path 0 - 1, a vertex holding one token can only lose it, passing nothing on. */
  lemma PathSingleTokenMove(graph: Graph, s: State, v: nat)
    requires graph == [[1], [0]] && |s| == 2 && v < 2 && s[v] == 1
    ensures MovesFrom(graph, s, v) == [s[v := 0]]
  {
    NoTokenCompositions();
    assert Distribute(s, graph[v], [0, 0, 0], 1) == s;
    assert ApplyMove(s, graph[v], v, [0, 0, 0]) == s[v := 0];
  }

  /**
   * On the path 0 - 1 with one token on each vertex, the token of the moving vertex is
   * removed and nothing is passed on: vertex 0 moving gives [0, 1], vertex 1 moving
   * gives [1, 0].
   */
  lemma PathMoves(graph: Graph, s: State)
    requires graph == [[1], [0]] && s == [1, 1]
    ensures NextStates(graph, s) == [[0, 1], [1, 0]]
  {
    PathNextStates(graph, s);
    PathSingleTokenMove(graph, s, 0);
    PathSingleTokenMove(graph, s, 1);
    assert s[0 := 0] == [0, 1] && s[1 := 0] == [1, 0];
  }

  /** A lone token on either vertex of the path can only be removed. */
  lemma PathOneTokenMoves(graph: Graph, s: State)
    requires graph == [[1], [0]] && (s == [1, 0] || s == [0, 1])
    ensures NextStates(graph, s) == [[0, 0]]
  {
    PathNextStates(graph, s);
    if s == [1, 0] {
      PathSingleTokenMove(graph, s, 0);
      assert s[0 := 0] == [0, 0];
    } else {
      PathSingleTokenMove(graph, s, 1);
      assert s[1 := 0] == [0, 0];
    }
  }

  /** One token in two slots: in the last slot first, then in the first. */
  lemma OneTokenTwoSlots()
    ensures Compositions(1, 2) == [[0, 1], [1, 0]]
  {
    assert Compositions(1, 1) == [[1]];
    assert Compositions(0, 1) == [[0]];
    assert CompositionsFrom(1, 2, 2) == [];
    PrependSingle(1, [0]);
    PrependSingle(0, [1]);
    assert [1] + [0] == [1, 0] && [0] + [1] == [0, 1];
    assert CompositionsFrom(1, 2, 1) == [[1, 0]];
    assert CompositionsFrom(1, 2, 0) == PrependAll(0, [[1]]) + [[1, 0]];
  }

  /** One token in three slots: the token goes to the last, middle or first slot in turn. */
  lemma OneTokenThreeSlots()
    ensures Compositions(1, 3) == [[0, 0, 1], [0, 1, 0], [1, 0, 0]]
  {
    NoTokenCompositions();
    OneTokenTwoSlots();
    assert CompositionsFrom(1, 3, 2) == [];
    PrependSingle(1, [0, 0]);
    assert [1] + [0, 0] == [1, 0, 0];
    assert CompositionsFrom(1, 3, 1) == PrependAll(1, [[0, 0]]) + [];
    PrependPair(0, [0, 1], [1, 0]);
    assert [0] + [0, 1] == [0, 0, 1] && [0] + [1, 0] == [0, 1, 0];
    assert CompositionsFrom(1, 3, 0) == PrependAll(0, [[0, 1], [1, 0]]) + [[1, 0, 0]];
  }

  /** The three distributions of one token, applied at vertex 0 of the path 0 - 1. */
  lemma PassingDistributions(s: State)
    requires s == [2, 0]
    ensures ApplyMove(s, [1], 0, [0, 0, 1]) == [1, 0]
    ensures ApplyMove(s, [1], 0, [0, 1, 0]) == [0, 0]
    ensures ApplyMove(s, [1], 0, [1, 0, 0]) == [0, 1]
  {
    assert Distribute(s, [1], [0, 0, 1], 1) == s;
    assert Distribute(s, [1], [0, 1, 0], 1) == s;
    assert Distribute(s, [1], [1, 0, 0], 1) == [2, 1];
  }

  /** Vertex 0 of the path 0 - 1, holding two tokens, has three moves. */
  lemma PassingVertexMoves(graph: Graph, s: State)
    requires graph == [[1], [0]] && s == [2, 0]
    ensures MovesFrom(graph, s, 0) == [[1, 0], [0, 0], [0, 1]]
  {
    OneTokenThreeSlots();
    PassingDistributions(s);
  }

  /**
   * On the path 0 - 1 with two tokens on vertex 0, the one token left to distribute
   * stays on vertex 0, leaves the game, or is passed to vertex 1. The first slot of a
   * distribution is the neighbour's, the middle slot is removed and the last slot stays.
   */
  lemma PassingMoves(graph: Graph, s: State)
    requires graph == [[1], [0]] && s == [2, 0]
    ensures NextStates(graph, s) == [[1, 0], [0, 0], [0, 1]]
  {
    PassingVertexMoves(graph, s);
    PathNextStates(graph, s);
  }

  /** A lone token on the path has nimber 1: the player to move takes it and wins. */
  lemma PathOneTokenNimber(graph: Graph, s: State)
    requires graph == [[1], [0]] && (s == [1, 0] || s == [0, 1])
    ensures GrundyValue(graph, s) == 1
  {
    PathOneTokenMoves(graph, s);
    OnlyMoveEmpties(graph, s, [0, 0]);
  }

  lemma PathEndsNonzero(graph: Graph, ends: seq<State>)
    requires graph == [[1], [0]] && ends == [[0, 1], [1, 0]]
    ensures forall t :: t in ends ==> ValidState(graph, t) && GrundyValue(graph, t) != 0
  {
    forall t | t in ends
      ensures ValidState(graph, t) && GrundyValue(graph, t) != 0
    {
      PathOneTokenNimber(graph, t);
    }
  }

  /** One token on each end of the path is a P-position: the second player wins. */
  lemma PathNimber(graph: Graph, s: State)
    requires graph == [[1], [0]] && s == [1, 1]
    ensures GrundyValue(graph, s) == 0
  {
    PathMoves(graph, s);
    PathEndsNonzero(graph, NextStates(graph, s));
    GrundyZeroIff(graph, s);
  }
}
