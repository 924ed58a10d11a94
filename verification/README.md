# Tree search for the hlogedu assignments, in Dafny

This project models the search core of a small teaching repository for
uninformed and informed state-space search. The model covers:

- the search-tree `Node`, with its parent chain, depth, path cost and the
  `path()` reconstruction;
- the abstract `SearchAlgorithm` base;
- tree A* (`TreeAStar`), with its `f = g + h` priority and a
  generation-counter tie break;
- iterative deepening (`TreeIDS`), with its depth-limited passes;
- two problem domains:
  - kiwis and dogs, agents moving on a seven-vertex graph whose edges carry
    guards such as `somebody(E),somebody(G)`;
  - single-food Pacman, on a maze grid.

A problem is a value of `SearchProblem.Problem`: start states, a goal test, a
successor function that returns `(action, state, cost)` triples and an
optional heuristic. Both domains are packaged into that type
(`KiwisAndDogs.KiwisProblem`, `Pacman.PacmanSearchProblem`).

The search algorithms are imperative, as in the source:

- nodes are objects whose `expandedOrder` and `location` fields the algorithms
  overwrite;
- A* and IDS are classes whose counters the search methods update;
- the fringes are local sequences changed step by step inside `while` loops.

Their contracts are stated against `SearchTree.Generated`. This predicate says
that a node is the root (the first start state, no action, cost 0) or the
child of a generated node through one of the problem's successor triples, with
the triple's action, its state, the cost added and the depth plus one. On top
of that, both searches prove the following:

- Soundness: a returned node is generated and satisfies the goal test.
- Completeness, against `GoalWithin` and `GoalReachable` (a goal at most `k`
  steps, or some number of steps, below a state):
  - A* reports an exhausted fringe only when no goal is reachable from the
    start state;
  - a depth-limited pass succeeds exactly when a goal lies within the limit.
- Minimality: iterative deepening returns a goal at the smallest depth at which
  one exists.
- Optimality: with an admissible heuristic (one that never exceeds the cost of
  a goal path from a state, `SearchProblem.Admissible`), the goal A* returns
  costs no more than any goal path from the start state (`GoalAtCost`).

The domains are pure functions, except for Pacman's construction scan, which
is a nested loop. Their properties are proved as contracts and lemmas:

- the guard parser means what the guards say;
- every move changes one slot and only when its guard holds;
- the move table agrees with the edge table;
- the scan finds the last `P` and the last `.`;
- a Pacman step moves one cell and eats the food exactly when it lands on it.

## Model

| member | source | states |
|---|---|---|
| SearchNode.Node.constructor | algorithms/node.py:2-9 | The node stores state, parent, action and path cost. Its depth is 0 without a parent and the parent's depth plus one otherwise. It starts with expansion order 0 and an empty location, and its parent chain is well formed. |
| SearchNode.Node.Path | algorithms/node.py:15-21 | The walk up the parent links, reversed, gives the nodes from the root to this node. The result has `depth + 1` entries, the first has no parent, the last is this node, and each entry's parent is the previous entry. |
| SearchNode.Reverse | algorithms/node.py:21 | `reversed`: same length, and entry `i` is entry `n - 1 - i` of the input. |
| SearchNode.PathShape | algorithms/node.py:15-21 | Along the root-to-node path, entry `i` has depth `i`, each entry's parent is its predecessor, the root has no parent and the last entry is the node. |
| SearchProblem.GoalAtCostThroughSuccessor | algorithms/astar.py:74-80 | A goal path of cost `c` from a non-goal state starts with one of its successor triples, of cost at most `c`, and the rest of the path from that triple's state costs the remainder. |
| SearchProblem.GoalAtCostIffReachable | algorithms/astar.py:74-80 | A goal lies within `k` steps exactly when some goal path of at most `k` steps has a cost, so cost-aware and plain reachability agree. |
| SearchTree.PathReplays | algorithms/astar.py:74-80 | The path of a generated node starts at the first start state with cost 0 and ends at the node's state and cost. Every step along it follows one successor triple of the problem. |
| SearchTree.GoalWithinFromRoot | algorithms/ids.py:54-62 | A goal within `j` steps of a generated node is within `depth + j` steps of the start state. |
| SearchAlgorithmBase.SearchAlgorithm.constructor | algorithms/search_algorithm.py:2-4 | The base keeps the problem and sets the expanded-node counter to 0. |
| SearchAlgorithmBase.SearchAlgorithm.Search | algorithms/search_algorithm.py:6-7 | The base `search` always fails with "not implemented". |
| SearchAlgorithmBase.SearchAlgorithm.TreeSearch | algorithms/search_algorithm.py:9-10 | `tree_search` delegates to `search` and fails the same way. |
| AStar.ResolveHeuristic | algorithms/astar.py:20-22 | An explicit heuristic wins over the problem's own. With neither, construction fails. |
| AStar.NewTreeAStar | algorithms/astar.py:18-25 | Construction fails exactly when there is no heuristic. Otherwise it yields a fresh searcher over the problem, with the resolved heuristic and both counters at 0. |
| AStar.TreeAStar.constructor | algorithms/astar.py:18-25 | Keeps the problem and the heuristic and zeroes both counters. |
| AStar.TreeAStar.F | algorithms/astar.py:27-29 | `f(n)` is never below the path cost. It equals the path cost exactly when the heuristic is 0 at the node's state. |
| AStar.PopMin | algorithms/astar.py:56 | `heappop`: removes one entry and returns it. The entry is strictly smallest by `(f, generation)` among those left, the rest keeps every other entry, and generation numbers stay strictly increasing. |
| AStar.TreeAStar.Expand | algorithms/astar.py:62-90 | Expansion gives the node the current expansion count, raises that count by one, and pushes one fresh child per successor triple, in order. Each child has generation `old count + k` and priority `f`, is linked to the node through triple `k`, and is labelled with its depth and the expansion count. |
| AStar.TreeAStar.ExpansionKeepsFringeInv | algorithms/astar.py:74-90 | After an expansion every fringe entry is still generated, carries its own `f`, and has a generation below the counter, in strictly increasing order. |
| AStar.TreeAStar.ExpansionKeepsReachableGoal | algorithms/astar.py:54-90 | Expanding a non-goal node keeps some fringe entry from which a goal is reachable, if there was one before. |
| AStar.TreeAStar.ExpansionKeepsCheapGoal | algorithms/astar.py:54-90 | For every bound `c`: if some fringe entry's path cost plus the cost of a goal path from its state is at most `c`, then after popping a non-goal entry and expanding it some entry still is. Either it stayed in place, or it is the child through which the popped node's goal path continues. |
| AStar.TreeAStar.ExpansionKeepsSearchInv | algorithms/astar.py:54-90 | One iteration of the loop that does not return keeps the whole loop invariant: the fringe invariant, a reachable goal below some entry, and an entry no more expensive than each goal path from the start. |
| AStar.TreeAStar.PoppedIsCheapest | algorithms/astar.py:54-60 | With an admissible heuristic, the entry popped first by `(f, generation)` has a path cost no greater than any goal path from the start state. |
| AStar.TreeAStar.Search | algorithms/astar.py:31-92 | With no start state it reports an exhausted fringe (the source's None) and the counters stay 0. A returned node is generated and a goal. With an admissible heuristic its path cost is at most the cost of every goal path from the start state. "Fringe exhausted" implies that no goal is reachable from the start state. A goal start state is returned at once, with one node generated and none expanded. Expansions never exceed the fuel. |
| AStar.TreeAStar.TreeSearch | algorithms/astar.py:94-96 | Same guarantees as `Search`, which it calls, including optimality under an admissible heuristic. |
| IDS.TreeIDS.constructor | algorithms/ids.py:14-17 | Keeps the problem and sets the counter to 0. |
| IDS.TreeIDS.PushSuccessors | algorithms/ids.py:56-64 | Pushes the children in reverse successor order, so the first triple ends up on top of the stack. The child of triple `k` sits `k` places below the top. The counter grows by one per child, and each child is labelled with the counter value at its creation. |
| IDS.TreeIDS.ExpansionKeepsPassInv | algorithms/ids.py:54-64 | Expanding a node below the limit keeps every fringe node generated and within the limit, and strictly shrinks the remaining work measure. |
| IDS.TreeIDS.CutOffKeepsPassInv | algorithms/ids.py:54 | Dropping a non-goal node at the limit keeps the pass invariant and shrinks the work measure. |
| IDS.TreeIDS.ExpansionKeepsGenerated | algorithms/ids.py:58-62 | The children pushed for a generated node are generated, and at most at the limit. |
| IDS.TreeIDS.ExpansionKeepsGoalWithin | algorithms/ids.py:54-64 | If a goal was within the remaining depth of some fringe node, it still is after an expansion. |
| IDS.TreeIDS.ExpansionShrinksFringe | algorithms/ids.py:54-64 | Replacing a node below the limit by its children lowers the total size of the depth-bounded subtrees still to explore. |
| IDS.TreeIDS.DroppingCutOffNode | algorithms/ids.py:54 | A non-goal node at the limit holds no goal within the remaining depth, so another fringe node does. |
| IDS.TreeIDS.DepthLimitedSearch | algorithms/ids.py:28-67 | The pass terminates. It returns a node exactly when there is a start state and a goal within `limit` steps of it. A returned node is generated, a goal and at depth at most `limit`. With no start state it returns None and leaves the counter alone, and a goal start state is returned at depth 0 without generating anything. |
| IDS.TreeIDS.Search | algorithms/ids.py:19-26 | Deepens the limit from 0. A returned node is generated, a goal, and at the smallest depth at which the start state has a goal below it. Giving up at `maxLimit` implies that no goal lies within `maxLimit` steps. |
| IDS.TreeIDS.TreeSearch | algorithms/ids.py:69-71 | Same guarantees as `Search`, which it calls. |
| PyText.Strip | problems/kiwis_and_dogs.py:87 | `str.strip()`: the result is the input minus leading and trailing whitespace. It has no whitespace at either end, and it is empty exactly when the input is all whitespace. |
| PyText.Split | problems/kiwis_and_dogs.py:87 | `str.split(",")`: at least one piece, no piece contains the separator, and joining the pieces with it gives the input back. |
| KiwisAndDogs.StartStates | problems/kiwis_and_dogs.py:70-71 | One start state, with `num_kiwis` kiwis and `num_dogs` dogs, and it is not a goal. |
| KiwisAndDogs.AllAt | problems/kiwis_and_dogs.py:75-76 | `all(x == v for x in xs)`: every entry equals `v`. |
| KiwisAndDogs.IsGoalState | problems/kiwis_and_dogs.py:73-77 | Goal iff every kiwi is at the tree `A` and every dog is at the bone `E`. |
| KiwisAndDogs.Inner | problems/kiwis_and_dogs.py:91-97 | `c[k:-1]`: when `c` is longer than `k`, the characters from index `k` up to but not including the last; otherwise the empty string. |
| KiwisAndDogs.ConditionHolds | problems/kiwis_and_dogs.py:89-100 | A condition that starts neither with `somebody(` nor with `nobody(` is accepted. The two other forms are stated by `SomebodyCondition` and `NobodyCondition`. |
| KiwisAndDogs.SomebodyCondition | problems/kiwis_and_dogs.py:90-94 | `somebody(v)` holds exactly when some kiwi or dog stands on `v`, for every vertex text `v`. |
| KiwisAndDogs.NobodyCondition | problems/kiwis_and_dogs.py:96-100 | `nobody(v)` holds exactly when no kiwi and no dog stands on `v`, for every vertex text `v`. |
| KiwisAndDogs.StripNonEmpty | problems/kiwis_and_dogs.py:87 | The list comprehension keeps exactly the non-empty stripped pieces. |
| KiwisAndDogs.ParseConditions | problems/kiwis_and_dogs.py:87 | Each parsed condition is non-empty and contains no comma. |
| KiwisAndDogs.AllHold | problems/kiwis_and_dogs.py:89-102 | The loop with early `return False` is true iff every condition holds. |
| KiwisAndDogs.CheckConditions | problems/kiwis_and_dogs.py:82-102 | An empty guard passes. Otherwise the guard passes iff every parsed condition holds, where `somebody(X)` needs X occupied, `nobody(X)` needs X free, and unknown conditions are ignored. |
| KiwisAndDogs.SingleGuard | problems/kiwis_and_dogs.py:82-102 | A guard made of one condition, without commas or padding, passes iff that condition holds. |
| KiwisAndDogs.TwoGuard | problems/kiwis_and_dogs.py:82-102 | Two such conditions joined by a comma pass iff both hold. |
| KiwisAndDogs.SomebodyGuard | problems/kiwis_and_dogs.py:82-102 | For a vertex without a comma, the guard `somebody(v)` passes iff `v` is occupied. |
| KiwisAndDogs.NobodyGuard | problems/kiwis_and_dogs.py:82-102 | For a vertex without a comma, the guard `nobody(v)` passes iff `v` is free. |
| KiwisAndDogs.SomebodyBothGuard | problems/kiwis_and_dogs.py:82-102 | For vertices without commas, the guard `somebody(v),somebody(w)` passes iff both are occupied. |
| KiwisAndDogs.GuardMeaning | problems/kiwis_and_dogs.py:36-62 | Each guard in the edge table reads as what it says: `nobody(E)` iff E is free, `somebody(A)` iff A is occupied, `somebody(C)` iff C is occupied, and `somebody(E),somebody(G)` iff both E and G are occupied. |
| KiwisAndDogs.ApplyMove | problems/kiwis_and_dogs.py:105-117 | A move succeeds iff the chosen agent stands on the move's start vertex and the guard passes. Then only that agent's slot changes, to the end vertex. The slot count is kept, and the other kind of agent is untouched. |
| KiwisAndDogs.Successors | problems/kiwis_and_dogs.py:105-117 | Every successor is a successful move of one agent, at the move's declared cost. Every move that succeeds for some agent appears. |
| KiwisAndDogs.KiwisProblem | problems/kiwis_and_dogs.py:70-77 | The puzzle as a search problem: its start states, goal test and successor function, no heuristic, and its one start state is not a goal. |
| KiwisAndDogs.MovesHalves | problems/kiwis_and_dogs.py:105-559 | The action table lists the 18 kiwi moves in definition order, then the 18 dog moves in definition order. |
| KiwisAndDogs.GraphSymmetric | problems/kiwis_and_dogs.py:36-62 | The edge table is undirected: every edge is listed in both directions, with the same cost and the same guard. |
| KiwisAndDogs.SuccessorsKeepCounts | problems/kiwis_and_dogs.py:115-117 | No successor changes the number of kiwis or dogs. |
| KiwisAndDogs.DogMovesMirrorKiwiMoves | problems/kiwis_and_dogs.py:334-346 | The dog moves are the kiwi moves, edge for edge, with the same costs and guards. |
| KiwisAndDogs.KiwiMovesAgreeWithGraph | problems/kiwis_and_dogs.py:36-62 | Every kiwi move's decorator cost and hard-coded guard equal those of its edge in `graph`. |
| KiwisAndDogs.MovesAgreeWithGraph | problems/kiwis_and_dogs.py:36-62 | Every move's decorator cost and hard-coded guard equal those of its edge in `graph`. |
| KiwisAndDogs.KiwiMovesCoverGraph | problems/kiwis_and_dogs.py:36-62 | Every edge of `graph` has a kiwi move. |
| KiwisAndDogs.GraphEdgesHaveMoves | problems/kiwis_and_dogs.py:36-62 | Every edge of `graph` can be walked by a kiwi and by a dog. |
| Pacman.ScanRow | assignment1/problems/pacman.py:167-171 | Scanning one row left to right keeps, for `P` and for `.` separately, the last occurrence in row-major order among the cells scanned so far, or none when none of them holds it. |
| Pacman.ScanGrid | assignment1/problems/pacman.py:163-171 | After the double loop, `start` is absent exactly when no cell holds `P` and otherwise is the last `P` in row-major order; likewise `food` for `.`. |
| Pacman.NewPacmanProblem | assignment1/problems/pacman.py:156-179 | An empty grid fails (there is no first row to measure). A grid without `P` fails with "no start", and one with `P` but without `.` fails with "no food". Otherwise the start is the last `P` and the food the last `.` in row-major order, `rows` is the row count and `cols` is the first row's length. |
| Pacman.IsLastUnique | assignment1/problems/pacman.py:166-171 | The cell the scan keeps is determined: two last cells of the same character coincide. |
| Pacman.IsGoalState | assignment1/problems/pacman.py:184-186 | A state is a goal exactly when no cell holds the food any more. |
| Pacman.GetStartStates | assignment1/problems/pacman.py:181-182 | One start state, and for a constructed problem it is not a goal, since the food is there. |
| Pacman.Target | assignment1/problems/pacman.py:193-203 | U, D, L and R change exactly one coordinate by exactly one (row down for U, up for D, column down for L, up for R). Any other direction has no target. |
| Pacman.FoodAfter | assignment1/problems/pacman.py:205-207 | The food is gone exactly when it was already gone or Pacman lands on it. Otherwise it is unchanged. |
| Pacman.MoveAsWritten | assignment1/problems/pacman.py:192-211 | The move with its `<= rows` / `<= cols` guard. It fails only on an unknown direction or on a lookup outside the grid. |
| Pacman.Move | assignment1/problems/pacman.py:192-211 | An unknown direction is an error. Otherwise the step succeeds exactly when the target passes the written bounds test (`0 <= r <= rows`, `0 <= c <= cols`) and is an open grid cell, and then Pacman stands on it and the food is eaten iff it was there. |
| Pacman.AsWrittenAgreesUnlessItFails | assignment1/problems/pacman.py:209 | On every grid, ragged ones included, the written move fails exactly when the target passes the bounds test but is not a cell of the grid; the corrected move blocks that step, and wherever the written move succeeds the two agree. |
| Pacman.RaggedGridBlocksPastFirstRow | assignment1/problems/pacman.py:209 | On a maze whose first row is shorter than the rest, both moves block a step to a column beyond the first row's length, even onto the food. |
| Pacman.AsWrittenFailsOnlyPastTheEdge | assignment1/problems/pacman.py:209 | On a rectangular grid the written move fails exactly when the target is on row `rows` or column `cols` within the guard. When it does not fail, it agrees with the corrected move. |
| Pacman.AsWrittenStepsOffTheGrid | assignment1/problems/pacman.py:209 | In the maze `P.`, moving down from the start makes the written move fail, while the corrected move reports a blocked step. |
| Pacman.GoalIsAbsorbing | assignment1/problems/pacman.py:184-207 | Once the food is eaten every move leads to a goal state again. |
| Pacman.Successors | assignment1/problems/pacman.py:191 | Every successor is a successful move of the corrected `Move` (see Left out) at cost 1, and every direction whose move succeeds appears. |
| Pacman.PacmanSearchProblem | assignment1/problems/pacman.py:181-191 | The maze as a search problem: its start state, goal test and successor function, no heuristic, and for a constructed problem the start state is not a goal. |

## Left out

- AStar.TreeAStar.Search: the `while fringe` loop is bounded by a `fuel` cap on expansions, because tree A* need not terminate on an infinite tree. Running out of fuel is a separate outcome.
- IDS.TreeIDS.Search: the `while True` deepening is bounded by `maxLimit`, because the source loops forever when no goal exists. Each depth-limited pass is proved to terminate without a bound.
- AStar.PopMin: the binary heap of `heapq` is replaced by a sequence scanned for its minimum. Only the pop-minimum behaviour on `(f, generation)` keys is kept. Generation numbers are unique, so `Node.__lt__` (an `id` comparison) is never consulted and is not modelled.
- `sorted(...)` over successor triples (astar.py:72, ids.py:56) is not modelled: the algorithms take the triples in the order the successor function returns them. The domains return them in their own order: kiwis and dogs in table order (the kiwi moves as defined, then the dog moves), then by agent index; Pacman in the order U, D, L, R. That is not the order `sorted` gives. If actions compare by name, `move_dog_*` comes before `move_kiwi_*`, `C_to_A` before `C_to_B`, and D < L < R < U. The action objects come from the hlogedu `@action` machinery, which is outside this repository. So, on these two problems, the model's expansion order can differ from the source's, and so can the `expandedOrder` labels. The goal returned can differ too when several goals tie: at equal depth for IDS, at equal `f` for A*. Every property proved of A* and IDS holds whatever the order of the triples.
- `location` strings are a datatype (`Unlabelled`, `Root`, `At(depth, order)`) rather than formatted text.
- Inheritance: `TreeAStar` and `TreeIDS` repeat the base's `problem` and `expandedNodes` fields instead of extending `SearchAlgorithm`.
- Exceptions become `Result` failures:
  - `ValueError` for a missing heuristic, a missing `P`, a missing `.` and an unknown direction;
  - the `IndexError` of an empty grid, and that of the written bounds guard in `Pacman.MoveAsWritten` only (the search problem does not raise it, see the next line).
- Pacman.Successors: the search problem is built on the corrected `Move` of the Findings row, not on `MoveAsWritten`. Where the source's `move` raises `IndexError`, the model blocks the step and lists the other directions; everywhere else the two agree (`Pacman.AsWrittenAgreesUnlessItFails`, for every grid). The source raises it when the target passes `0 <= r <= rows and 0 <= c <= cols` but is not a cell: on a rectangular maze, a step past an open last row or last column (`Pacman.AsWrittenFailsOnlyPastTheEdge`); on a ragged maze also a step past the end of a row shorter than the first. `Pacman.PacmanSearchProblem` inherits this. The bounds test itself is kept, so on a ragged maze a column beyond the first row's length stays blocked as in the source (`Pacman.RaggedGridBlocksPastFirstRow`).
- KiwisAndDogs.Successors: agents are enumerated by the length of the state's kiwi or dog tuple, not by the constants `num_kiwis`/`num_dogs` that `DDRange` reads. The two agree on every state reachable from the start (`StartStates` and `SuccessorsKeepCounts`); on a hand-built state with other tuple lengths the source would skip agents or raise `IndexError`, which the model does not reproduce.
- The maze file read and its `line.strip()`: the grid is passed in as rows of text.
- `is_valid_state`, which always returns True in both domains.
- The visualizers, `get_coord` and the vertex coordinates: display only.
- `problems/nqueens.py`: its goal, validity check and heuristic are unimplemented, and its start state is random.
- Whitespace for `strip()` is the fixed set of code points Python treats as whitespace. The input is not normalised or decoded.

## Findings

| source | as written | input that shows it | evidently intended | confidence | as-written member | corrected member |
|---|---|---|---|---|---|---|
| assignment1/problems/pacman.py:209 | The guard `0 <= r <= self.rows and 0 <= c <= self.cols` lets a target on row `rows` or column `cols` through to `self.grid[r][c]`, which then raises `IndexError`. | Maze `["P."]`, Pacman at (0, 0), food at (0, 1), direction `D`: the target (1, 0) passes the guard and `grid[1]` does not exist. | A target that is not a cell of the grid is blocked (`None`), like a wall; the written bounds test is kept. On a rectangular maze this is `0 <= r < rows and 0 <= c < cols`. | not executed | Pacman.AsWrittenStepsOffTheGrid | Pacman.Move |
