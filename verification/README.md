# Othello search agent, modelled in Dafny

This project models the decision core of an Othello agent. The agent builds a search
tree of positions (`OthelloNode`) and scores finished games by their disc count
(terminal utility). It scores unfinished positions with an eight-feature static
evaluation clamped to [-1, 1]. At every level it sorts the children by score for the
side to move (move ordering), then runs a depth-limited, fail-soft alpha-beta minimax.
From the root it searches four plies with the full window (-infinity, +infinity) and
plays the move that led to the chosen child.

Modules follow the program's structure:

- `Grid`, `Wrappers`: players, the 8 by 8 board of `Option<Player>` squares (`None` is
  an empty square), coordinates, corners and border.
- `Game`: the rules library's board view as the search sees it. Capture resolution and
  frontier computation are the two functions of an `Engine` value that is passed in.
- `Counting`: the nested counting loops every feature runs. There is a reference count
  per player, and the loop is proved to agree with it.
- `Stability`: `isStablePiece`, `isEdgeStable` and `checkLineToCorner`.
- `SearchNode`: the node, its min player, terminal utility, and child generation.
- `Heuristics`: the eight features and `calculateHeuristicValue`.
- `StableSort`, `MoveOrderer`: `orderChildren` as a stable sort by node value.
- `ExtendedReal`: reals with the two infinities used as window bounds.
- `AlphaBeta`: `minimax` over any tree given by its terminal test, leaf score, child
  generation and ordering. Beside it is the unpruned minimax value, which the pruned
  search is proved to compute.
- `Agent`: the Othello tree handed to `AlphaBeta`, `treeSearch`, and
  `chooseCoordinateToPlaceTile`.

The central result is `AlphaBeta.FullWindowExact`, used by `Agent.TreeSearch`. With the
full window, pruning and ordering do not change the backed-up value: it equals the
unpruned depth-limited minimax value over the children in generation order. The
returned child attains that value.

`orderChildren` reads the level from the children themselves. A child's side to move is
the opponent of its parent's. So below a node where the max player moves, the children
are at a min level and are sorted ascending. `OrderChildren` states exactly this
behaviour. It is a permutation, so the search's value does not depend on it
(`AlphaBeta.MaxOverPermutation`).

## Model

| member | source | states |
|---|---|---|
| SearchNode.MinPlayer | src/pas/othello/agents/OthelloAgent.java:44-53 | the min player is the side to move or the other side; with two different sides it is the max player's opponent; it coincides with the max player only when both sides are that player |
| SearchNode.TerminalUtility | src/pas/othello/agents/OthelloAgent.java:30-79 | the utility is 0 away from the end of the game and is always one of -1, 0, 1 |
| SearchNode.TerminalUtilityMeaning | src/pas/othello/agents/OthelloAgent.java:56-78 | on a finished game the utility is 1 exactly when the max player owns more discs than the opponent, -1 exactly when fewer, 0 exactly on a tie; empty squares count for neither side |
| SearchNode.TerminalUtilitySwap | src/pas/othello/agents/OthelloAgent.java:44-78 | scoring the same node for the other side negates the utility |
| SearchNode.Children | src/pas/othello/agents/OthelloAgent.java:82-157 | a finished game has no children; every child is one ply deeper, has the same max player, has the parent's two sides exchanged, and has its status (frontiers and game-over flag) recomputed by the engine for its board with the new side to move; with legal moves there is one child per frontier square, in frontier order, carrying that move and the board the engine produces, and the set of moves equals the frontier; without legal moves there is exactly one pass child with no move and the board unchanged |
| Counting.CountIsOwned | src/pas/othello/agents/OthelloAgent.java:59-70 | for two different players the `if / else if` counting loop tallies exactly the discs of each player in the region, whatever the region |
| Counting.CountSwap | src/pas/othello/heuristics/Heuristics.java:20-21 | exchanging the two players exchanges the two counts |
| Counting.CountWithinArea | src/pas/othello/heuristics/Heuristics.java:129-148 | a region never yields more discs than it has squares |
| Counting.CornerArea | src/pas/othello/heuristics/Heuristics.java:99-100 | the corner region is the four squares (0,0), (0,7), (7,0), (7,7) |
| Counting.EdgeArea | src/pas/othello/heuristics/Heuristics.java:133-151 | the non-corner border has the 4 * (8 - 2) = 24 squares the edge feature divides by |
| Counting.CenterArea | src/pas/othello/heuristics/Heuristics.java:350-351 | rows and columns 2 to 5 make 16 squares |
| Stability.ScanLeft | src/pas/othello/heuristics/Heuristics.java:291-305 | the leftward walk succeeds exactly when every square from the start to column 0 holds the player |
| Stability.ScanRight | src/pas/othello/heuristics/Heuristics.java:291-305 | the rightward walk succeeds exactly when every square from the start to column 7 holds the player |
| Stability.ScanUp | src/pas/othello/heuristics/Heuristics.java:291-305 | the upward walk succeeds exactly when every square from the start to row 0 holds the player |
| Stability.ScanDown | src/pas/othello/heuristics/Heuristics.java:291-305 | the downward walk succeeds exactly when every square from the start to row 7 holds the player |
| Stability.StablePieceMeaning | src/pas/othello/heuristics/Heuristics.java:250-288 | corner discs are always stable and interior discs never are; an edge disc is stable exactly when all squares between it and one end of its edge hold its colour |
| Heuristics.Balance | src/pas/othello/heuristics/Heuristics.java:90 | the ratio (a - b) / (a + b) lies in [-1, 1] and is positive exactly when a > b, negative exactly when a < b |
| Heuristics.BalanceSwap | src/pas/othello/heuristics/Heuristics.java:90 | exchanging the two counts negates the ratio |
| Heuristics.OccupiedByTwo | src/pas/othello/heuristics/Heuristics.java:64-80 | with two different players the piece loop's total is the number of discs on the board |
| Heuristics.Material | src/pas/othello/heuristics/Heuristics.java:82-91 | from the two disc counts, the material score lies in [-0.3, 0.3], and within [-0.1, 0.1] while fewer than 32 discs are counted |
| Heuristics.PieceScore | src/pas/othello/heuristics/Heuristics.java:62-92 | the material score lies in [-0.3, 0.3] |
| Heuristics.PieceScoreMeaning | src/pas/othello/heuristics/Heuristics.java:82-91 | the material score is 0 with no discs and otherwise the phase weight (0.1 below 32 discs, 0.3 from 32 on) times (mine - theirs) / (mine + theirs), over the reference disc counts; it is positive exactly when the max player has more discs and negative exactly when fewer; below 32 discs it stays within 0.1 |
| Heuristics.CornerScore | src/pas/othello/heuristics/Heuristics.java:94-121 | the corner score lies in [-0.4, 0.4] |
| Heuristics.CornerScoreMeaning | src/pas/othello/heuristics/Heuristics.java:102-120 | the corner score is 0.4 times the difference of corners held over 4, with no corners held giving 0 |
| Heuristics.EdgeScore | src/pas/othello/heuristics/Heuristics.java:123-158 | the edge score lies in [-0.2, 0.2] |
| Heuristics.EdgeScoreMeaning | src/pas/othello/heuristics/Heuristics.java:130-157 | the edge score is 0.2 times the difference of non-corner border discs over 24 |
| Heuristics.ChanceScore | src/pas/othello/heuristics/Heuristics.java:160-175 | the mobility score lies in [-0.15, 0.15] and is positive exactly when the max player has more legal moves, negative exactly when fewer (0 when neither can move) |
| Heuristics.Weight | src/pas/othello/heuristics/Heuristics.java:184-193 | no square weighs more than a corner's 100 or less than -100 |
| Heuristics.PositionalIsWeight | src/pas/othello/heuristics/Heuristics.java:195-204 | for two different players the positional loop's totals are the weights of each player's squares |
| Heuristics.PositionalFromSwap | src/pas/othello/heuristics/Heuristics.java:195-204 | exchanging the two players exchanges the two positional totals |
| Heuristics.PositionalBounded | src/pas/othello/heuristics/Heuristics.java:195-207 | each square visited moves the difference of the totals by at most 100, so the whole board moves it by at most the 6400 the normalisation assumes |
| Heuristics.Positional | src/pas/othello/heuristics/Heuristics.java:195-207 | the difference of the two positional totals lies within plus or minus 6400 |
| Heuristics.PositionalScore | src/pas/othello/heuristics/Heuristics.java:177-214 | the positional score lies in [-0.05, 0.05] |
| Heuristics.PositionalScoreMeaning | src/pas/othello/heuristics/Heuristics.java:206-213 | the positional score is 0.1 times the difference of the two players' square weights over 12800 |
| Heuristics.StabilityScore | src/pas/othello/heuristics/Heuristics.java:217-247 | the stability score lies in [-0.25, 0.25] |
| Heuristics.StabilityScoreMeaning | src/pas/othello/heuristics/Heuristics.java:222-246 | the stability score is 0 with no stable discs and otherwise 0.25 times (mine - theirs) / (mine + theirs) over the reference counts of stable discs; it is positive exactly when the max player has more stable discs and negative exactly when fewer |
| Heuristics.EndgameWeight | src/pas/othello/heuristics/Heuristics.java:337 | the endgame weight lies in [0, 1], is positive exactly beyond 50 discs, and reaches 1 exactly at 64 discs |
| Heuristics.Differential | src/pas/othello/heuristics/Heuristics.java:328-339 | from the disc total and the two counts, the endgame score lies in [-0.3, 0.3] and is 0 below 50 discs |
| Heuristics.DifferentialSwap | src/pas/othello/heuristics/Heuristics.java:332-339 | exchanging the two sides' counts negates the endgame score |
| Heuristics.PieceDifferentialScore | src/pas/othello/heuristics/Heuristics.java:308-340 | the endgame score lies in [-0.3, 0.3] and is 0 below 50 discs |
| Heuristics.PieceDifferentialMeaning | src/pas/othello/heuristics/Heuristics.java:328-339 | beyond 50 discs the endgame score is 0.3 times the endgame weight of the disc total times (mine - theirs) / (mine + theirs), and it is positive exactly when the max player has more discs and negative exactly when fewer |
| Heuristics.CentralControlScore | src/pas/othello/heuristics/Heuristics.java:344-367 | the central score lies in [-0.15, 0.15] |
| Heuristics.CentralControlMeaning | src/pas/othello/heuristics/Heuristics.java:350-366 | the central score is 0.15 times the difference of discs in rows and columns 2 to 5 over 16 |
| Heuristics.Clamp | src/pas/othello/heuristics/Heuristics.java:59 | the result lies in [-1, 1]; values inside are kept, values above become 1, values below become -1 |
| Heuristics.HeuristicValue | src/pas/othello/heuristics/Heuristics.java:16-60 | the evaluation lies in [-1, 1] whatever the feature sum |
| Heuristics.PieceScoreSwap | src/pas/othello/heuristics/Heuristics.java:62-92 | exchanging the two players negates the material score |
| Heuristics.CornerScoreSwap | src/pas/othello/heuristics/Heuristics.java:94-121 | exchanging the two players negates the corner score |
| Heuristics.EdgeScoreSwap | src/pas/othello/heuristics/Heuristics.java:123-158 | exchanging the two players negates the edge score |
| Heuristics.ChanceScoreSwap | src/pas/othello/heuristics/Heuristics.java:160-175 | exchanging the two players negates the mobility score |
| Heuristics.PositionalScoreSwap | src/pas/othello/heuristics/Heuristics.java:177-214 | exchanging the two players negates the positional score |
| Heuristics.StabilityScoreSwap | src/pas/othello/heuristics/Heuristics.java:217-247 | exchanging the two players negates the stability score |
| Heuristics.PieceDifferentialSwap | src/pas/othello/heuristics/Heuristics.java:308-340 | exchanging the two players negates the endgame score |
| Heuristics.CentralControlSwap | src/pas/othello/heuristics/Heuristics.java:344-367 | exchanging the two players negates the central score |
| Heuristics.FeatureSumSwap | src/pas/othello/heuristics/Heuristics.java:55-56 | exchanging the two players negates the sum of the eight features |
| Heuristics.HeuristicValueSwap | src/pas/othello/heuristics/Heuristics.java:16-60 | evaluating the same position for the opponent negates the evaluation, clamp included |
| MoveOrderer.NodeValue | src/pas/othello/ordering/MoveOrderer.java:50-56 | a node's score lies in [-1, 1], and at the end of the game it is a win, loss or draw |
| MoveOrderer.NodeValueSwap | src/pas/othello/ordering/MoveOrderer.java:50-56 | scoring a node for the other side negates its score |
| MoveOrderer.OrderChildren | src/pas/othello/ordering/MoveOrderer.java:18-48 | an empty list comes back unchanged; the result is a permutation of the input; it is non-increasing by score when the children's side to move is the max player and non-decreasing otherwise; children with equal scores keep their relative order |
| StableSort.SortPermutes | src/pas/othello/ordering/MoveOrderer.java:25-30 | the sorted list has the same elements with the same multiplicities |
| StableSort.SortOrdered | src/pas/othello/ordering/MoveOrderer.java:30-45 | no element of the sorted list goes strictly before one that precedes it |
| StableSort.SortStable | src/pas/othello/ordering/MoveOrderer.java:30 | for every key, the elements with that key keep their original order |
| AlphaBeta.Minimax | src/pas/othello/agents/OthelloAgent.java:204-268 | the score lies in [-1, 1]; a finished game, depth 0 or a childless node returns the node itself with its own score; otherwise the returned node is one of the node's children |
| AlphaBeta.MaxLoop | src/pas/othello/agents/OthelloAgent.java:232-248 | the maximizing loop returns the initial best child or one of the children, and a score that is the initial one or in [-1, 1]; starting from -infinity over at least one child, the score is finite |
| AlphaBeta.MinLoop | src/pas/othello/agents/OthelloAgent.java:249-267 | the minimizing loop returns the initial best child or one of the children, and a score that is the initial one or in [-1, 1]; starting from +infinity over at least one child, the score is finite |
| AlphaBeta.MinimaxValueInUnit | src/pas/othello/agents/OthelloAgent.java:204-268 | when every leaf score lies in [-1, 1], so does every unpruned minimax value |
| AlphaBeta.MaxOverBounds | src/pas/othello/agents/OthelloAgent.java:232-248 | the maximum over the first k children is at least each of their values |
| AlphaBeta.MaxOverAttained | src/pas/othello/agents/OthelloAgent.java:232-248 | the maximum over the first k children is the value of one of them |
| AlphaBeta.MinOverBounds | src/pas/othello/agents/OthelloAgent.java:249-267 | the minimum over the first k children is at most each of their values |
| AlphaBeta.MinOverAttained | src/pas/othello/agents/OthelloAgent.java:249-267 | the minimum over the first k children is the value of one of them |
| AlphaBeta.MaxOverGrows | src/pas/othello/agents/OthelloAgent.java:232-248 | the maximum over fewer children is at most the maximum over more |
| AlphaBeta.MinOverShrinks | src/pas/othello/agents/OthelloAgent.java:249-267 | the minimum over fewer children is at least the minimum over more |
| AlphaBeta.MaxOverPermutation | src/pas/othello/agents/OthelloAgent.java:227 | reordering the children does not change their maximum |
| AlphaBeta.MinOverPermutation | src/pas/othello/agents/OthelloAgent.java:227 | reordering the children does not change their minimum |
| AlphaBeta.AlphaBetaFailSoft | src/pas/othello/agents/OthelloAgent.java:204-268 | for a non-empty window: a score at or below alpha is an upper bound of the unpruned value, a score at or above beta is a lower bound, and a score strictly inside the window equals it |
| AlphaBeta.MaxLoopFailSoft | src/pas/othello/agents/OthelloAgent.java:232-248 | from any state the loop keeps (alpha is the larger of the original alpha and the best score so far, that score bounds the children seen from above and equals their maximum once it exceeds the original alpha), the maximizing loop's final score is fail-soft for the maximum over all children |
| AlphaBeta.MinLoopFailSoft | src/pas/othello/agents/OthelloAgent.java:249-267 | from any state the loop keeps (beta is the smaller of the original beta and the best score so far, that score bounds the children seen from below and equals their minimum once it is under the original beta), the minimizing loop's final score is fail-soft for the minimum over all children |
| AlphaBeta.MaxLoopBest | src/pas/othello/agents/OthelloAgent.java:236-239 | when the maximizing loop's score lies strictly inside the original window, the child it keeps has exactly that score one level down |
| AlphaBeta.MinLoopBest | src/pas/othello/agents/OthelloAgent.java:253-256 | when the minimizing loop's score lies strictly inside the original window, the child it keeps has exactly that score one level down |
| AlphaBeta.MinimaxBest | src/pas/othello/agents/OthelloAgent.java:227-267 | at an inner node the returned node is a child, and when the score lies strictly inside the window that child's unpruned value is the score |
| AlphaBeta.FullWindowExact | src/pas/othello/agents/OthelloAgent.java:204-268 | with the window (-infinity, +infinity) the score equals the unpruned minimax value, and at an inner node the returned child attains it |
| Agent.GameTreeValid | src/pas/othello/ordering/MoveOrderer.java:18-48 | the Othello tree meets what the search relies on: every child list can be ordered, ordering only rearranges it, and every node score lies in [-1, 1] |
| Agent.TreeSearch | src/pas/othello/agents/OthelloAgent.java:182-190 | a finished game returns the root itself; otherwise the result is a child of the root whose three-ply minimax value (min to move) equals the root's four-ply minimax value |
| Agent.TreeSearchScore | src/pas/othello/agents/OthelloAgent.java:185-188 | the score behind the root's choice is the unpruned four-ply minimax value and lies in [-1, 1] |
| Agent.ChooseMove | src/pas/othello/agents/OthelloAgent.java:271-284 | a returned move is always a legal move of the side to move; there is no move when the game is over; otherwise there is a move exactly when the side to move has one |

## Left out

- Doubles are modelled as exact reals, and the two infinities as the `ExtReal` datatype. Rounding, `-0.0` and NaN in `Double.compare` are not modelled.
- The rules library is not part of this model. Capture resolution (`applyMove`) and the recomputation of frontiers and the game-over flag (`calculateFrontiers`) are the two functions of an `Engine` parameter. `Node.isTerminal()` and `GameView.isGameOver()` are both read as the view's game-over flag.
- `setCurrentPlayerType(other)` is modelled by swapping the view's two sides in the child. The engine only supplies the board and its status.
- A frontier `Set<Coordinate>` is modelled as a sequence in iteration order, because the children follow that order. Mobility counts its length, which equals the set's size only when the sequence has no repeats. The model does not require that.
- A `null` child list passed to `orderChildren` has no counterpart, because a sequence is never null. The empty list is modelled.
- MoveOrderer.OrderChildren: requires all children to share one side to move. The comparator reads the level of its first argument only. `Children` always meets this requirement (`MoveOrderer.ChildrenSameLevel`).
- The null guard in `chooseCoordinateToPlaceTile` has no counterpart: `TreeSearch` always returns a node. A `null` last move (root or pass) is `None`.
- `Random`, the constructors, `makeRootNode` beyond the root it builds (depth 0, no last move), `afterGameEnds`, and the time budget of the timed agent base class are left out. None of them affects the move.
- The per-player lemmas require two different players: SearchNode.TerminalUtilityMeaning, SearchNode.TerminalUtilitySwap, Counting.CountIsOwned, Counting.CountSwap, the `*Meaning` and `*Swap` lemmas of `Heuristics`, and MoveOrderer.NodeValueSwap. With the same player on both sides, the source's `else if` hides the min player's discs.
- Heuristics.PieceDifferentialMeaning: holds only beyond 50 discs. At exactly 50 discs the endgame weight is 0, so the score is 0 whatever the counts.
- Heuristics.PieceScore, Heuristics.CornerScore, Heuristics.EdgeScore, Heuristics.PositionalScore, Heuristics.StabilityScore, Heuristics.PieceDifferentialScore, Heuristics.CentralControlScore: each contract states only the feature's range. The feature's meaning is stated by its `*Meaning` lemma, for two different players.
- `minimax` is stated once, over any tree described by a terminal test, a leaf score, child generation and an ordering (`AlphaBeta.Tree`). `Agent.GameTree` instantiates it with the Othello node, and `Agent.GameTreeValid` proves the instance meets the search's assumptions. Both leaf cases of `minimax` score a node the way `getNodeValue` does, so the leaf score is `MoveOrderer.NodeValue`.
- There is no transposition table, no time cutoff and no adaptive depth: the search depth is the fixed 4.
