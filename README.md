# Nimber engine of DispersalNim, modelled in Dafny

DispersalNim computes Sprague–Grundy values (nimbers) for a token game played on a graph.
A state gives a token count for each vertex. A move picks a vertex `v` that holds tokens.
It splits `state[v] - 1` tokens over three kinds of slot:

- one slot per neighbour of `v`, whose tokens are added to that neighbour;
- one slot of tokens that leave the game;
- a last slot, which becomes `v`'s new count.

At least one token therefore leaves the game on every move, so every game ends at the all-zero state.

The engine has these pieces:

- `mex`: the minimum excludant of a set of nimbers.
- `compositions`: enumerates the ways to put indistinguishable tokens into ordered slots.
- `get_next_states`: the move generator.
- `grundy`: a memoised recursion that fills a memo table mapping states to nimbers.
- The P-position filter: picks the memo entries whose nimber is 0.
- `optimal_game`: a simulator that plays one game with the memo. From a nonzero nimber it moves to a successor of nimber 0.

The model is split into one module per piece:

- `tokens.dfy` (`Tokens`): the total weight of a state.
- `mex.dfy` (`Excludant`): `MexOf`, the specification of the mex, and `Mex`, the source's counting loop, proved equal to it.
- `compositions.dfy` (`Distributions`): the enumerator as recursive functions, with proofs that it is sound and exhaustive, has no duplicates and is in lexicographic order.
- `moves.dfy` (`Moves`): graphs, states and the move generator, with the effect of one move and an exact description of the successor list.
- `grundy.dfy` (`Engine`): `GrundyValue`, the reference definition of the Grundy value. Also `Closed`, the memo table's invariant, and `Grundy`, the memoised method. The memo dictionary that the source mutates in place is passed in and handed back.
- `analysis.dfy` (`Analysis`): the P-position loop and one analysis run from an empty memo.
- `play.dfy` (`Play`): the optimal-play simulator. The source's exceptions become error results here. `MissingEntry` stands for the `KeyError` of a failed memo lookup. `NoOptimalMove` stands for the `ValueError` that `random.randint(0, -1)` raises when `optimal_states` is empty.
- `scenarios.dfy` (`Scenarios`): small worked positions on an isolated vertex and on the path with two vertices.

A graph is a sequence of adjacency lists. Each list is duplicate-free and in range, as networkx neighbour lists are. Self-loops are not excluded.

## Model

| member | source | states |
|---|---|---|
| `Excludant.MexFrom` | nimber_calc.py:30-34 | searching upward from `i`, once 0..i-1 are present, finds a value absent from the set with every smaller value present, and at most the set's size |
| `Excludant.MexOf` | nimber_calc.py:28-34 | the result is not in the set, every smaller natural is in the set, and it is at most the size of the set |
| `Excludant.MexUnique` | nimber_calc.py:28-34 | those two properties determine the minimum excludant uniquely |
| `Excludant.MexEmpty` | nimber_calc.py:30-34 | the minimum excludant of the empty set is 0, and only 0 |
| `Excludant.Mex` | nimber_calc.py:28-34 | the counting loop `while i in set: i += 1` terminates and returns the minimum excludant |
| `Distributions.Compositions` | nimber_calc.py:36-55 | with at least one slot, every listed composition has `parts` entries summing to `tokens`; the list is never empty; one slot yields exactly `[[tokens]]` |
| `Distributions.CompositionsFrom` | nimber_calc.py:52-54 | the compositions whose first slot runs from `first` upward all have the right length and sum, and their first slot is at least `first` |
| `Distributions.CompositionsComplete` | nimber_calc.py:36-55 | a sequence is listed if and only if it has `parts` entries summing to `tokens` |
| `Distributions.CompositionsOrdered` | nimber_calc.py:52-54 | the compositions come out in strictly increasing lexicographic order |
| `Distributions.CompositionsDistinct` | nimber_calc.py:52-54 | no composition is listed twice, and first slots never decrease along the list |
| `Distributions.CompositionsCount` | nimber_calc.py:36-55 | there are C(tokens + parts - 1, parts - 1) compositions, as stars and bars counts them |
| `Moves.Distribute` | nimber_calc.py:86-87 | adding the neighbour slots keeps the state's length (what each vertex and the total receive is stated by `DistributeAt` and `DistributeSum`) |
| `Moves.ApplyMove` | nimber_calc.py:84-89 | the next state has the current state's length, and `v` is left holding the last slot of the distribution |
| `Moves.DistributeAt` | nimber_calc.py:86-87 | after adding the neighbour slots, each vertex holds its old count plus what the slots send it |
| `Moves.DistributeSum` | nimber_calc.py:86-87 | adding the neighbour slots raises the total weight by exactly their sum |
| `Moves.MoveEffect` | nimber_calc.py:76-91 | a legal move keeps the state's length; it gives `v` the last slot, which is less than `v`'s old count; it leaves every vertex other than `v` and its neighbours unchanged and adds slot `j` to neighbour `j`; it lowers the total by 1 plus the removed slot (plus what `v` sent to itself) |
| `Moves.MovesFrom` | nimber_calc.py:74-91 | every state vertex `v` can move to has the current state's length |
| `Moves.MovesFromCount` | nimber_calc.py:74-91 | a vertex holding `n` tokens with `m` neighbours has C(n + m, m + 1) moves, one per distribution of `n - 1` tokens over `m + 2` slots |
| `Moves.MovesFromShrink` | nimber_calc.py:74-91 | every state one vertex can move to has the same length and a strictly smaller total weight |
| `Moves.NextStatesFrom` | nimber_calc.py:70-91 | the successors from vertices `v` onward all have the state's length and a strictly smaller total weight |
| `Moves.NextStates` | nimber_calc.py:57-91 | every generated successor is a state of the graph with strictly smaller total weight |
| `Moves.MovesFromExact` | nimber_calc.py:74-91 | a state is among vertex `v`'s moves if and only if some legal distribution for `v` produces it |
| `Moves.NextStatesExact` | nimber_calc.py:57-91 | the generator yields exactly the states reachable by one legal move (`MoveOf`) of some vertex holding tokens |
| `Moves.NoMovesIffEmpty` | nimber_calc.py:70-72 | a state has no successor exactly when its total weight is 0 |
| `Moves.ReachableStep` | nimber_calc.py:57-91 | a state reachable from a successor of `s` is reachable from `s` |
| `Moves.PathExtend` | nimber_calc.py:57-91 | a sequence of moves followed by one more generated move is again a sequence of moves |
| `Engine.ClosedAgrees` | nimber_calc.py:118-132 | in a closed memo (every entry's successors are entries and its value is the mex of theirs), every stored value equals the true Grundy value |
| `Engine.GrundyTerminal` | nimber_calc.py:111-115 | a state with total weight 0 has Grundy value 0 |
| `Engine.GrundyZeroIff` | nimber_calc.py:118-129 | a state's Grundy value is 0 exactly when no successor has Grundy value 0 |
| `Engine.ClosedSuccessors` | nimber_calc.py:118-132 | in a closed memo, an entry's successors are entries; a nonzero entry has a successor valued 0, and an entry valued 0 has none |
| `Engine.ClosedInsert` | nimber_calc.py:129-132 | recording, for a state whose successors are all entries, the mex of their values keeps the memo closed |
| `Engine.ClosedReachable` | nimber_calc.py:118-132 | a closed memo holds every state reachable from any of its entries |
| `Engine.NewKeysReachableStep` | nimber_calc.py:121-126 | the entries added while analysing a successor of `s` are reachable from `s` |
| `Engine.ValuesGrow` | nimber_calc.py:121-126 | values gathered from an earlier memo stay the same in an extended memo; one more state adds its value |
| `Engine.Grundy` | nimber_calc.py:94-133 | returns the state's true Grundy value and records it in the memo; returns 0 for total weight 0; a memo hit leaves the memo as it was; existing entries keep their values, keys only grow, the memo stays closed, and every added key is reachable from the state |
| `Analysis.PPositions` | nimber_calc.py:195-204 | the result holds exactly the memo entries whose nimber is 0, each mapped to 0 |
| `Analysis.PPositionMeaning` | nimber_calc.py:195-204 | in a closed memo, an entry has nimber 0 exactly when every move from it reaches a state of nonzero Grundy value |
| `Analysis.Analyze` | nimber_calc.py:174-204 | from an empty memo, the run returns the configuration's Grundy value and a closed memo whose keys are exactly the states reachable from the configuration; its P-positions are exactly the memo states of Grundy value 0 |
| `Play.OptimalStates` | nimber_calc.py:145-149 | if all successors are in the memo, the result holds exactly those of nimber 0; otherwise it names a successor missing from the memo |
| `Play.OptimalGame` | nimber_calc.py:135-155 | a finished game starts at `start`, moves only to successors and ends with no token; each move from a nonzero nimber lands on nimber 0; it has at most `sum(start)` moves; every nonzero state of a finished game had all its successors looked up in the memo; a failure names a state reachable from `start` that is either missing from the memo or of nonzero nimber without a zero-valued successor; with a closed memo holding `start` it never fails |
| `Play.ClosedPath` | nimber_calc.py:137-153 | with a closed memo holding the start, every state along a sequence of moves is in the memo, and no move goes from nimber 0 to nimber 0 |
| `Play.Alternates` | nimber_calc.py:137-153 | along a game that follows the memo from a nonzero nimber, the nimber is nonzero exactly at even positions |
| `Play.WinnerMovesLast` | nimber_calc.py:137-153 | with a closed memo and a start of nonzero nimber, a game that follows the memo has an odd number of moves, so the first player makes the last move |
| `Scenarios.TwoTokensTwoSlots` | nimber_calc.py:36-55 | `compositions(2, 2)` lists `[0,2]`, `[1,1]`, `[2,0]` in that order |
| `Scenarios.OneTokenThreeSlots` | nimber_calc.py:36-55 | `compositions(1, 3)` lists `[0,0,1]`, `[0,1,0]`, `[1,0,0]` in that order |
| `Scenarios.IsolatedVertexMoves` | nimber_calc.py:70-91 | three tokens on an isolated vertex can become 2, 1 or 0 tokens, in that order |
| `Scenarios.OneTokenNimber` | nimber_calc.py:94-133 | one token on an isolated vertex has nimber 1 |
| `Scenarios.PathMoves` | nimber_calc.py:70-91 | on the path 0 - 1 with one token each, the successors are `(0,1)` and then `(1,0)` |
| `Scenarios.PassingMoves` | nimber_calc.py:76-91 | on the path 0 - 1 with two tokens on vertex 0, the successors are `(1,0)`, `(0,0)`, `(0,1)`: the first slot goes to the neighbour, the middle one leaves the game, the last stays |
| `Scenarios.PathOneTokenNimber` | nimber_calc.py:94-133 | a lone token on either vertex of the path 0 - 1 has nimber 1 |
| `Scenarios.PathNimber` | nimber_calc.py:94-133 | one token on each vertex of the path 0 - 1 is a P-position |

Where the code and its comments differ, the model follows the code. The comment in `get_next_states` calls the neighbour slots the "middle elements" of a distribution, but the code reads them from the front: slot `j` goes to the `j`-th neighbour, the next-to-last slot leaves the game and the last slot stays on the moving vertex (`Scenarios.PassingMoves`). On the path 0 - 1 with one token on each vertex, a move of vertex 0 therefore yields `(0, 1)`.

## Left out

- Reading the graph and the weights from the terminal (`read_vertex_weighted_graph`, the prompts of the main block). This is interactive input.
- Building the complete bipartite graph in the main block, and all other networkx graph construction. A graph is given directly as adjacency lists.
- Writing the memo table to a text file, and all printing. This is file I/O and display.
- `Play.OptimalGame`: the source prints the trace of the game and returns nothing; the model returns the trace instead.
- The move vectors printed by `optimal_game` (per-vertex differences between consecutive states). This is display only.
- The random choices in `optimal_game`. The model picks any index in range, so every possible random choice is covered.
- The unused `moves` graph argument of `grundy`, and the commented-out XOR comparison in the main block.
- `Engine.Grundy`: the model follows the source's order of successors but does not claim that the memo's insertion order matches Python's dictionary order.
- `Analysis.PPositions`: visits memo entries in an unspecified order rather than Python's insertion order; the resulting map is the same.
- Integer width: Python integers are unbounded, and so are the model's.
- Python's recursion limit: `grundy` raises `RecursionError` on move chains deeper than about 1000 states; the model has no depth limit.
- `compositions` with no slot at all recurses without end in the source, until Python's recursion limit raises `RecursionError`; `Distributions.Compositions` requires at least one slot, and the move generator always asks for at least two.
- Negative vertex weights: `read_vertex_weighted_graph` accepts any integers, but a state here is a sequence of naturals, so negative weights are outside the model.
- random_play.py and get_p_positions.py: an interactive random-removal script and a text filter over a memo dump. Neither is part of the engine.
