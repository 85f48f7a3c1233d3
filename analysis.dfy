/**
 * One analysis run (nimber_calc.py, main block): the Grundy value of the starting
 * configuration from an empty memo, then the P-positions read off the memo.
 */
module Analysis {
  import opened Moves
  import opened Engine

  /** Copies every memo entry whose nimber is 0. */
  method PPositions(memo: Memo) returns (p: map<State, nat>)
    ensures forall t :: t in p <==> t in memo && memo[t] == 0
    ensures forall t :: t in p ==> p[t] == 0
  {
    p := map[];
    var pending := memo.Keys;
    while pending != {}
      invariant pending <= memo.Keys
      invariant forall t :: t in p <==> t in memo && t !in pending && memo[t] == 0
      invariant forall t :: t in p ==> p[t] == 0
      decreases pending
    {
      var t :| t in pending;
      if memo[t] == 0 {
        p := p[t := memo[t]];
      }
      pending := pending - {t};
    }
  }

  /**
   * In a closed memo table, the entries with nimber 0 are exactly the analysed states
   * from which every move leads to a state of nonzero Grundy value.
   */
  lemma PPositionMeaning(graph: Graph, memo: Memo, t: State)
    requires ValidGraph(graph) && Closed(graph, memo) && t in memo
    ensures memo[t] == 0 <==> forall u :: u in NextStates(graph, t) ==> GrundyValue(graph, u) != 0
  {
    ClosedAgrees(graph, memo, t);
    GrundyZeroIff(graph, t);
  }

  /**
   * Computes the Grundy value of `config` starting from an empty memo, then extracts
   * the P-positions from the filled memo.
   */
  method Analyze(graph: Graph, config: State) returns (g: nat, memo: Memo, pPositions: map<State, nat>)
    requires ValidGraph(graph) && ValidState(graph, config)
    ensures g == GrundyValue(graph, config) && config in memo && memo[config] == g
    ensures Closed(graph, memo)
    ensures forall t :: t in memo <==> Reachable(graph, config, t)
    ensures forall t :: t in pPositions <==> t in memo && GrundyValue(graph, t) == 0
    ensures forall t :: t in pPositions ==> pPositions[t] == 0
  {
    g, memo := Grundy(graph, config, map[]);
    pPositions := PPositions(memo);
    forall t | t in memo
      ensures memo[t] == GrundyValue(graph, t)
    {
      ClosedAgrees(graph, memo, t);
    }
    forall t | Reachable(graph, config, t)
      ensures t in memo
    {
      ClosedReachable(graph, memo, config, t);
    }
  }
}
