# AICheckers in Dafny

A model of the core of AICheckers, a two-player draughts program, with machine-checked
proofs about it. The core has three parts:

- the English draughts rules engine (`EnglishDraughts`). It lists the legal moves with
  forced, multi-jump captures, plays a move and decides the winner;
- the first Monte-Carlo tree search engine (`MonteCarloTreeSearch`). Each step descends by
  UCT to a leaf, expands every move of that leaf, plays one random playout from one new
  child and backpropagates the result along the visited path;
- the second engine (`MonteCarloTreeSearch2`). Each step descends through fully expanded
  nodes, adds one child on the way, runs ten playouts from a new child (or credits a
  finished game) and backpropagates to every visited node except the root.

## Files and modules

| file | module | what it holds |
|---|---|---|
| `game.dfy` | `Game` | The player identifiers and the verdict of `winner()` (`Ongoing` stands for `null`). `Rules` is the abstract game the engines search, as a datatype of functions. |
| `board.dfy` | `Board` | The checker board as a sequence of cells (square `s` at index `s - 1`). The diagonal-neighbour functions and row tests are abstract, as a `Geometry`. Also the lists of pieces of one colour. |
| `draughts_moves.dfy` | `DraughtsMoves` | Move generation: the jump lister, the recursive capture search with its depth cap, the slides and the forced-capture rule. It is pure code over the board value. |
| `draughts.dfy` | `Draughts` | The `EnglishDraughts` class, whose fields are mutated by `Play`. The move-list loops are methods, and `Played` is the whole effect of `play` on a position value. Also the lemmas about legal and illegal moves and the verdict. |
| `rollout.dfy` | `Rollout` | The `RolloutResults` class, `rollOut` and the random playout. |
| `search_tree.dfy` | `SearchTree` | The evaluation node, `score`, `uct`, `updateStats`, Java's `(int)` cast and the running-best scans of the selection loops. |
| `mcts.dfy` | `Mcts` | The first engine: the class, the imperative step (selection, expansion, playout, backpropagation) proved equal to a functional specification, and the properties of a step. |
| `mcts2.dfy` | `Mcts2` | The second engine, organised the same way. |

## How the model represents the program

**Search trees.** A search tree is an arena: a sequence of `EvalNode` values with the root
at index 0. Each node lists its children as indices, and children always come after their
parent. A Java object reference becomes an index. Updating a node in place becomes a new
sequence with that entry replaced. Each engine class holds the arena and `nTotal` as fields,
and `EvaluateTreeOnce` reassigns them.

**Randomness.** Randomness is an input:
- `pick`, the random child index of the first engine;
- `outcome`, the winner of its playout;
- `outcomes`, the winners of the second engine's ten playouts;
- `draws`, the indices the random player draws during a playout.

**The UCT exploration term.** `1.4142 * sqrt(log(nTotal) / n)` is floating-point and is left
abstract. It is given as a function `explore(n, nTotal)`.

### Where the code and the design disagree

The system's design description and the code disagree in several places. The model follows
the code.

- **Turn counter.** The field comment on `nbTurn` says it counts the turns of white. `play`
  increments it on every move (`EnglishDraughts.java:468`).
- **Independent playouts.** The design asks for independent playouts on private clones.
  `rollOut` (`MonteCarloTreeSearch.java:197-203`) plays every run on the same game object.
  After the first playout that game is over, so every later run reports the same winner.
  `RollOut` therefore takes a single `outcome` and counts it `nbRuns` times.
- **The child of move k.** In the second engine, the duplicate check before adding a child
  compares a freshly built node by reference (`MonteCarloTreeSearch2.java:256`), so it never
  matches. Every child of a node therefore holds the game after move 0 (the `Partial`
  invariant). `getBestMove` still returns `possibleMoves.get(k)` for the chosen child
  position `k` (`BestMoveLast` states both).
- **When a step stops.** The design stops a step once the whole tree is exhausted. The code
  does something else in each engine:
  - the first engine stops as soon as the selected leaf has no legal move (`StepStops`);
  - the second stops exactly when the root has no legal move (`Mcts2.StopsAtRoot`).
- **Win accounting.** The design counts wins for the player who moved into a node.
  - The first engine counts the root player's wins at even depths and the opponent's at odd
    depths (`Counted`).
  - A draw's half win is cut off by the `(int)` cast, so a draw adds nothing (`BumpWhole`).
- **Best move.** The design picks the child with the highest win ratio. The code picks
  differently in each engine:
  - the first engine picks the first child whose ratio is the lowest and below 1;
  - the second picks the last child with the fewest wins.
- **Illegal moves.** An illegal move is still "played": no piece moves, but the turn passes,
  the king-move counter is updated and the landing square is promoted (`IllegalPlay`). This
  can put a king on an empty square.

## Model

| member | source | states |
|---|---|---|
| Game.Opponent | src/fr/istic/ia/tp1/EnglishDraughts.java:463-465 | The next player is never `Nobody` and always differs from a valid current player. |
| DraughtsMoves.MineAndAdversaryDisjoint | src/fr/istic/ia/tp1/EnglishDraughts.java:146-163 | No square holds both a piece of the player to move and an adversary piece. A square holds one of the two exactly when it is not empty. |
| DraughtsMoves.MyPawns | src/fr/istic/ia/tp1/EnglishDraughts.java:170-176 | A square is listed exactly when it is on the board and holds a piece of the player to move (black for anyone but player one). |
| DraughtsMoves.JumpDestinations | src/fr/istic/ia/tp1/EnglishDraughts.java:187-254 | At most four landing squares. Each is positive, empty and different from the excluded previous square, and lies on the board when the geometry is well formed. |
| DraughtsMoves.JumpDestinationsExactly | src/fr/istic/ia/tp1/EnglishDraughts.java:187-254 | A square is listed exactly when some allowed direction jumps over an adversary piece onto it: forward for a piece, all four directions for a king. |
| DraughtsMoves.CapturesFrom | src/fr/istic/ia/tp1/EnglishDraughts.java:263-288 | Every returned move is a complete capture. There is at least one move per open jump. |
| DraughtsMoves.CapturesExactly | src/fr/istic/ia/tp1/EnglishDraughts.java:263-288 | A sequence is returned exactly when it is a complete capture: a chain of jumps, each excluding the square it came from, that stops where no jump is open or at depth 10. |
| DraughtsMoves.CaptureShape | src/fr/istic/ia/tp1/EnglishDraughts.java:263-288 | A capture searched from depth 0 has 2 to 12 squares. It starts on its square and first lands on one of that square's jump destinations. |
| DraughtsMoves.SlidesFrom | src/fr/istic/ia/tp1/EnglishDraughts.java:330-400 | Every move listed for a piece is a slide from its square: one allowed step onto an empty neighbour. |
| DraughtsMoves.SlidesComplete | src/fr/istic/ia/tp1/EnglishDraughts.java:326-404 | Every slide of a listed piece is listed. |
| DraughtsMoves.PawnCaptures | src/fr/istic/ia/tp1/EnglishDraughts.java:308-316 | Every collected move is a complete capture of a listed piece. The collection is empty exactly when no listed piece has an open jump. |
| DraughtsMoves.PawnCapturesComplete | src/fr/istic/ia/tp1/EnglishDraughts.java:308-316 | Every complete capture of a listed piece is collected. |
| DraughtsMoves.ForcedCapture | src/fr/istic/ia/tp1/EnglishDraughts.java:296-323 | If some piece can jump, there is a legal move, and the legal moves are exactly the complete captures of the player's pieces. Otherwise they are exactly the player's slides. |
| DraughtsMoves.NoPiecesNoMoves | src/fr/istic/ia/tp1/EnglishDraughts.java:296-323 | A player without pieces has no legal move. |
| Draughts.SlideMoves | src/fr/istic/ia/tp1/EnglishDraughts.java:326-404 | The loop returns the slides of the player's pieces in square order. A move is returned exactly when it is a slide starting on one of the player's pieces. |
| Draughts.SlidesOfPlayer | src/fr/istic/ia/tp1/EnglishDraughts.java:326-404 | The slides of the player's pieces are exactly the slides that start on a square of the player. |
| Draughts.EnglishDraughts.PossibleMovesWithoutCapture | src/fr/istic/ia/tp1/EnglishDraughts.java:326-404 | Returns the slides of the player's pieces in square order. A move is returned exactly when it is a slide starting on one of the player's pieces. |
| Draughts.LegalMoves | src/fr/istic/ia/tp1/EnglishDraughts.java:296-323 | The capture loop, falling back to the slide loop, returns `PossibleMoves`: the forced-capture legal moves. |
| Draughts.EnglishDraughts.PossibleMoves | src/fr/istic/ia/tp1/EnglishDraughts.java:296-323 | Returns the forced-capture legal moves of the current state. |
| Draughts.EnglishDraughts.constructor | src/fr/istic/ia/tp1/EnglishDraughts.java:81-86 | A new game: white (`One`) to move, turn 1, no king moves counted. |
| Draughts.EnglishDraughts.Copy | src/fr/istic/ia/tp1/EnglishDraughts.java:92-102 | The copy has the same board, player and counters. |
| Draughts.EnglishDraughts.Play | src/fr/istic/ia/tp1/EnglishDraughts.java:407-471 | Fails exactly on an empty draughts move of a valid player. The new state is `Played` of the old state. |
| Draughts.PlayPosition | src/fr/istic/ia/tp1/EnglishDraughts.java:407-422 | Does nothing without a valid player or for a foreign move. Fails on an empty move. Otherwise its result is `Played`. |
| Draughts.PlaySquares | src/fr/istic/ia/tp1/EnglishDraughts.java:418-468 | Moves and captures only when the move is legal. In every case it then updates the king-move counter, promotes, passes the turn and counts it. |
| Draughts.ClearJumps | src/fr/istic/ia/tp1/EnglishDraughts.java:432-449 | Exactly the squares jumped over are emptied. `captured` is set exactly when some step of the move is a jump. |
| Draughts.LegalMoveShape | src/fr/istic/ia/tp1/EnglishDraughts.java:296-323 | A legal move has at least two squares. It starts on the player's piece, lands on an empty square and jumps only adversary pieces. It captures exactly when a capture was available. |
| Draughts.LegalPlayBoard | src/fr/istic/ia/tp1/EnglishDraughts.java:424-461 | After a legal move: the origin is empty, and the landing square holds the moving piece, crowned on the far row and still the mover's. Exactly the jumped squares are emptied, and they held adversary pieces. Every other square is unchanged. |
| Draughts.LegalPlayCounters | src/fr/istic/ia/tp1/EnglishDraughts.java:453-468 | A legal move passes the turn and counts it. The king-move counter goes up exactly when a king moves and no capture was available; otherwise it is reset. |
| Draughts.IllegalPlay | src/fr/istic/ia/tp1/EnglishDraughts.java:424-468 | An illegal move changes no square but the landing square. That square keeps its content unless it is in the mover's promotion row, where it becomes the mover's king even if it was empty. The turn still passes, `nbTurn` still goes up by one, and the counter still counts a king move. |
| Draughts.NoPiecesLoses | src/fr/istic/ia/tp1/EnglishDraughts.java:486-500 | A player left without pieces has lost: the opponent wins. |
| Draughts.VerdictShape | src/fr/istic/ia/tp1/EnglishDraughts.java:486-500 | A decided game is never won by the player to move. It is drawn exactly when that player still has moves and the king-move counter is at least 25. |
| Draughts.OngoingExactly | src/fr/istic/ia/tp1/EnglishDraughts.java:486-500 | The game is undecided (`null`) exactly when the player to move has a legal move and the king-move counter is below 25. |
| Draughts.EnglishDraughts.Winner | src/fr/istic/ia/tp1/EnglishDraughts.java:486-500 | The object's verdict is `null` exactly when its player to move has a legal move and the counter is below 25; a decided game is never won by the player to move. |
| Draughts.DraughtsDecisive | src/fr/istic/ia/tp1/EnglishDraughts.java:486-491 | A position without a legal move always has a winner (never `null`). |
| Rollout.RolloutResults.constructor | src/fr/istic/ia/tp1/MonteCarloTreeSearch.java:98-100 | Starts at zero wins and zero playouts. |
| Rollout.RolloutResults.Reset | src/fr/istic/ia/tp1/MonteCarloTreeSearch.java:105-109 | Back to zero wins and zero playouts. |
| Rollout.RolloutResults.Add | src/fr/istic/ia/tp1/MonteCarloTreeSearch.java:115-119 | Adds the other result's counts, even when it is the same object, and keeps the results balanced. |
| Rollout.RolloutResults.Update | src/fr/istic/ia/tp1/MonteCarloTreeSearch.java:126-134 | One more playout: a win adds 1 to the winner, a draw adds 0.5 to each player. Keeps the results balanced. |
| Rollout.RolloutResults.NbWins | src/fr/istic/ia/tp1/MonteCarloTreeSearch.java:141-147 | The wins of `One` are `win1`, of `Two` `win2`, and `NONE` has none. For balanced results they lie between 0 and the number of playouts. |
| Rollout.Share | src/fr/istic/ia/tp1/MonteCarloTreeSearch.java:126-134 | A playout gives a player 1 exactly when that player wins and 0.5 exactly on a draw. |
| Rollout.ShareSplit | src/fr/istic/ia/tp1/MonteCarloTreeSearch.java:126-134 | A playout hands out exactly one win between the two players. |
| Rollout.RollOut | src/fr/istic/ia/tp1/MonteCarloTreeSearch.java:197-203 | `nbRuns` playouts (none for a negative count), all with the same winner. The wins are the runs times that winner's share, and the results are balanced. |
| Rollout.Playout | src/fr/istic/ia/tp1/MonteCarloTreeSearch.java:183-189 | A reported winner is the verdict of the game reached after some prefix of the random draws, and no shorter prefix reached any verdict: the playout stops at the first one. |
| Rollout.PlayRandomlyToEnd | src/fr/istic/ia/tp1/MonteCarloTreeSearch.java:183-189 | The loop returns the winner of the playout driven by the draws. |
| SearchTree.NewNode | src/fr/istic/ia/tp1/MonteCarloTreeSearch.java:43-48 | A new node: no simulation, no win, no child. |
| SearchTree.Score | src/fr/istic/ia/tp1/MonteCarloTreeSearch.java:63-66 | `Integer.MAX_VALUE` for an unvisited node. Otherwise a probability in [0, 1] when wins are at most the simulations. |
| SearchTree.Uct | src/fr/istic/ia/tp1/MonteCarloTreeSearch.java:54-57 | `Integer.MAX_VALUE` for an unvisited node. Otherwise the score plus the exploration term. |
| SearchTree.UpdatedStats | src/fr/istic/ia/tp1/MonteCarloTreeSearch.java:72-76 | Replaces the simulation count and the wins by those the results give for the node's player, without accumulating. Those wins lie between 0 and that count for balanced results, and are 0 without a valid player. |
| SearchTree.Trunc | src/fr/istic/ia/tp1/MonteCarloTreeSearch.java:289-304 | Java's `(int)` cast: truncation toward zero. |
| SearchTree.ScanMaxSpec | src/fr/istic/ia/tp1/MonteCarloTreeSearch.java:248-256 | The strict-improvement scan returns the first index of the maximum when some value beats the start value. Otherwise it returns the start index. |
| SearchTree.ScanMinSpec | src/fr/istic/ia/tp1/MonteCarloTreeSearch.java:324-333 | The ratio scan skips unvisited children (a NaN comparison is false). It returns the first index of the least ratio when one is below 1, else -1. |
| SearchTree.ScanMinLastSpec | src/fr/istic/ia/tp1/MonteCarloTreeSearch2.java:359-367 | The `<=` scan returns the last index of the least value when one is at most the start value. Otherwise it returns the start index. |
| SearchTree.UnvisitedFirst | src/fr/istic/ia/tp1/MonteCarloTreeSearch.java:247-256 | When every earlier child's UCT value is below `Integer.MAX_VALUE`, selection picks the first unvisited child. |
| Mcts.Counted | src/fr/istic/ia/tp1/MonteCarloTreeSearch.java:286-302 | A node at even depth counts the root player's wins, and one at odd depth the opponent's. |
| Mcts.BumpWhole | src/fr/istic/ia/tp1/MonteCarloTreeSearch.java:283-305 | A node with a whole number of wins gains one simulation, and one win exactly when the counted player wins. A draw adds nothing. |
| Mcts.Descent | src/fr/istic/ia/tp1/MonteCarloTreeSearch.java:246-258 | Selection visits strictly increasing arena indices from the root and ends at a node without children. |
| Mcts.GrownShape | src/fr/istic/ia/tp1/MonteCarloTreeSearch.java:263-270 | Expansion gives the leaf one new child per move, in move order. Child `k` holds the game after move `k` and is unvisited. Other nodes are unchanged. |
| Mcts.BackpropShape | src/fr/istic/ia/tp1/MonteCarloTreeSearch.java:283-305 | Each visited node is updated once, as a node of its depth. Nodes off the path are unchanged. |
| Mcts.SelectChild | src/fr/istic/ia/tp1/MonteCarloTreeSearch.java:248-256 | The UCT scan returns the first child of largest UCT above 0, else child 0. |
| Mcts.Select | src/fr/istic/ia/tp1/MonteCarloTreeSearch.java:246-258 | The selection loop visits exactly the path of `Descent`. |
| Mcts.Expand | src/fr/istic/ia/tp1/MonteCarloTreeSearch.java:263-270 | The expansion loop builds exactly `Grown`. |
| Mcts.Backpropagate | src/fr/istic/ia/tp1/MonteCarloTreeSearch.java:283-305 | The backpropagation loop, with its parity branches on `win1` and `win2`, builds exactly `Backprop`. |
| Mcts.Simulate | src/fr/istic/ia/tp1/MonteCarloTreeSearch.java:276-305 | One playout of one run, then backpropagation of its result along the visited nodes. |
| Mcts.ExpandAndSimulate | src/fr/istic/ia/tp1/MonteCarloTreeSearch.java:263-305 | Expansion, a playout from the picked child and backpropagation give exactly `Stepped`. |
| Mcts.Step | src/fr/istic/ia/tp1/MonteCarloTreeSearch.java:234-314 | The body of `evaluateTreeOnce` computes `EvaluatedOnce`. |
| Mcts.MonteCarloTreeSearch.constructor | src/fr/istic/ia/tp1/MonteCarloTreeSearch.java:173-176 | The tree is a single unvisited root and `nTotal` is 0. The tree invariant holds. |
| Mcts.MonteCarloTreeSearch.EvaluateTreeOnce | src/fr/istic/ia/tp1/MonteCarloTreeSearch.java:234-314 | One step updates the tree and `nTotal` as `EvaluatedOnce` says, and keeps the tree invariant. |
| Mcts.MonteCarloTreeSearch.GetBestMove | src/fr/istic/ia/tp1/MonteCarloTreeSearch.java:320-354 | Returns `BestMove` of the tree. |
| Mcts.PickMove | src/fr/istic/ia/tp1/MonteCarloTreeSearch.java:320-354 | The ratio scan and the single-child rule give exactly `BestMove`. |
| Mcts.Ratio | src/fr/istic/ia/tp1/MonteCarloTreeSearch.java:330-333 | A ratio exists exactly for a visited node. For whole counts it lies in [0, 1]. |
| Mcts.StepKeepsValid | src/fr/istic/ia/tp1/MonteCarloTreeSearch.java:234-314 | A step keeps the tree invariant, and the root's simulation count stays equal to `nTotal`. |
| Mcts.StepKeepsTree | src/fr/istic/ia/tp1/MonteCarloTreeSearch.java:263-305 | An expanding step keeps the tree invariant and adds one simulation to the root. |
| Mcts.StepStops | src/fr/istic/ia/tp1/MonteCarloTreeSearch.java:262-313 | A step stops exactly when the selected leaf has no legal move, and then changes nothing. Otherwise `nTotal` goes up by one. |
| Mcts.StepExpands | src/fr/istic/ia/tp1/MonteCarloTreeSearch.java:263-275 | The leaf gets one appended child per legal move. Child `k` holds the game after move `k` and has no children. Children other than the simulated one are unvisited. |
| Mcts.StepCounts | src/fr/istic/ia/tp1/MonteCarloTreeSearch.java:276-305 | Every visited node gains one simulation, and one win exactly when its counted player won the playout. The simulated child has one simulation. Other nodes keep their counts. |
| Mcts.BackpropCounts | src/fr/istic/ia/tp1/MonteCarloTreeSearch.java:283-305 | Along a path without repetition, each node gains one simulation and one win exactly when the player counted at its depth won. Other nodes are unchanged. |
| Mcts.RatioBelowOne | src/fr/istic/ia/tp1/MonteCarloTreeSearch.java:324-333 | A ratio is below 1 exactly when the node is visited and has lost some simulation. |
| Mcts.BestMoveSingle | src/fr/istic/ia/tp1/MonteCarloTreeSearch.java:352-353 | With one root child, the best move is the root's only move. |
| Mcts.BestMoveLeast | src/fr/istic/ia/tp1/MonteCarloTreeSearch.java:324-353 | Otherwise a move is found exactly when some visited child has lost a simulation. It is the move of the first child of least ratio. |
| Mcts2.AddChildShape | src/fr/istic/ia/tp1/MonteCarloTreeSearch2.java:298-305 | Adding a child changes only the parent's child list and appends an unvisited node. |
| Mcts2.Walk | src/fr/istic/ia/tp1/MonteCarloTreeSearch2.java:248-282 | Selection passes only through full nodes, along strictly increasing indices, and stops at the first open node. |
| Mcts2.UctChild | src/fr/istic/ia/tp1/MonteCarloTreeSearch2.java:268-277 | The UCT scan from child 0 with strict improvement returns `UctPick`. |
| Mcts2.WalkDown | src/fr/istic/ia/tp1/MonteCarloTreeSearch2.java:248-282 | The descent loop visits exactly `Walk`. |
| Mcts2.Descend | src/fr/istic/ia/tp1/MonteCarloTreeSearch2.java:248-282 | The descent, with the partial expansion of an open node that has children, gives exactly `Visit`. |
| Mcts2.Reward | src/fr/istic/ia/tp1/MonteCarloTreeSearch2.java:290-296 | A finished game gives a node 1 when its player won, 0.5 on a draw and 0 otherwise. |
| Mcts2.GainedBounded | src/fr/istic/ia/tp1/MonteCarloTreeSearch2.java:288-331 | Crediting a node keeps its wins between 0 and its simulations and increases its simulation count. |
| Mcts2.TallySplit | src/fr/istic/ia/tp1/MonteCarloTreeSearch2.java:309-321 | The playout tally splits into non-negative wins and losses that add up to the number of playouts. |
| Mcts2.Simulate | src/fr/istic/ia/tp1/MonteCarloTreeSearch2.java:309-321 | The playout loop computes `Tally` for the new child's player. |
| Mcts2.CreditVisited | src/fr/istic/ia/tp1/MonteCarloTreeSearch2.java:286-332 | The backpropagation loops, from the last visited node up to but excluding the root, build exactly `Credited`. |
| Mcts2.Finish | src/fr/istic/ia/tp1/MonteCarloTreeSearch2.java:286-332 | Terminal crediting, or expansion by move 0 with ten playouts, gives exactly `Finished`. |
| Mcts2.NoMoreMovesScan | src/fr/istic/ia/tp1/MonteCarloTreeSearch2.java:334-347 | The stop flag is true exactly when no visited node has a legal move. |
| Mcts2.Step | src/fr/istic/ia/tp1/MonteCarloTreeSearch2.java:235-349 | The body of `evaluateTreeOnce` computes `EvaluatedOnce`. |
| Mcts2.MonteCarloTreeSearch2.constructor | src/fr/istic/ia/tp1/MonteCarloTreeSearch2.java:173-176 | The tree is a single unvisited root and `nTotal` is 0. The tree invariant holds. |
| Mcts2.MonteCarloTreeSearch2.EvaluateTreeOnce | src/fr/istic/ia/tp1/MonteCarloTreeSearch2.java:235-349 | One step updates the tree and `nTotal` as `EvaluatedOnce` says, and keeps the tree invariant. |
| Mcts2.MonteCarloTreeSearch2.GetBestMove | src/fr/istic/ia/tp1/MonteCarloTreeSearch2.java:355-373 | Returns `BestMove` of the tree. |
| Mcts2.PickMove | src/fr/istic/ia/tp1/MonteCarloTreeSearch2.java:355-373 | The `<=` scan over wins gives exactly `BestMove`. |
| Mcts2.StepKeepsValid | src/fr/istic/ia/tp1/MonteCarloTreeSearch2.java:235-349 | A step keeps three things: every child holds the game after move 0, wins stay bounded by simulations, and the root is uncredited. |
| Mcts2.StepKeepsTree | src/fr/istic/ia/tp1/MonteCarloTreeSearch2.java:248-332 | Every selectable path leads to a tree that keeps the invariant. |
| Mcts2.StopsAtRoot | src/fr/istic/ia/tp1/MonteCarloTreeSearch2.java:334-347 | No visited node has a legal move exactly when the root has none. |
| Mcts2.StepStops | src/fr/istic/ia/tp1/MonteCarloTreeSearch2.java:334-349 | A step stops exactly when the root has no legal move, and it always adds one to `nTotal`. |
| Mcts2.StepRoot | src/fr/istic/ia/tp1/MonteCarloTreeSearch2.java:286-332 | The root is never credited. |
| Mcts2.StepTerminal | src/fr/istic/ia/tp1/MonteCarloTreeSearch2.java:286-297 | At a finished game, every visited node but the root gains one simulation and its reward. No node is added, and other nodes are unchanged. |
| Mcts2.StepGrows | src/fr/istic/ia/tp1/MonteCarloTreeSearch2.java:298-305 | Otherwise the last visited node gets one new unvisited child holding the game after move 0. Nodes neither visited past the root nor that one are unchanged. |
| Mcts2.StepSimulates | src/fr/istic/ia/tp1/MonteCarloTreeSearch2.java:306-331 | Every visited node but the root gains ten simulations. It also gains the wins when its player is the new child's player, and the losses otherwise; wins and losses add up to 10. |
| Mcts2.BestMoveLast | src/fr/istic/ia/tp1/MonteCarloTreeSearch2.java:355-373 | A move is found exactly when some root child has at most `Integer.MAX_VALUE` wins. It is the move at the position of the last child of fewest wins, although that child holds the game after move 0. |

## Left out

- **The time loops.** `evaluateTreeWithTimeLimit` in both engines reads the clock and prints
  statistics. It only repeats `evaluateTreeOnce` until `true` or the deadline.
- **The UCT exploration term.** It is floating-point square root and logarithm, left abstract
  as `explore(n, nTotal)`.
- **Floating-point arithmetic.** Wins and ratios are exact reals. NaN appears only as the
  absent ratio of an unvisited node.
- **`Integer.MAX_VALUE`.** It is modelled as a constant. Java's 32-bit wrap-around of `n`,
  `nTotal` and `nbTurn` is not modelled.
- **Randomness.** `new Random()` and the random player are inputs: `pick`, `outcome`,
  `outcomes` and `draws`.
- **Printing and text.** `stats`, `toString`, `playerName`, `view` and the printing in
  `getBestMove` are not part of this model.
- **The checker board.** `CheckerBoard` is not part of this model. Its neighbour functions
  and row tests are abstract, and the initial layout is the constructor's `board` parameter.
  The board lemmas that need geometry assume `WellFormed`: two steps in different directions
  never reach the same square, and a one-step square is never a two-step square. Reads
  outside the board give an empty square, and writes there change nothing.
- **Piece order.** `getWhitePawns`/`getBlackPawns` are modelled as a scan in increasing
  square order.
- **Exceptions.** An empty move (`move.get(0)`) fails with `failed`, leaving the state
  unchanged. `getBestMove`'s out-of-range index (`-1`, or a child position without a move)
  becomes `None`.
- **Object identity.** There is no aliasing between tree nodes: a node is an arena index.
- **Infinite playouts.** A playout that never ends cannot be represented.
- Rollout.Playout: returns `None` when the draws run out before the game is decided, where
  the source would keep drawing.
- Mcts2.MonteCarloTreeSearch2.constructor: requires `Decisive(rules)`. The source relies on
  `winner()` being non-null at a position without moves and would throw otherwise;
  `DraughtsDecisive` proves this holds for draughts.
- Mcts2.MonteCarloTreeSearch2.EvaluateTreeOnce: requires `Decisive(rules)` and exactly ten
  playout winners.
- Mcts2.Descend: performs the partial expansion after the descent loop, not inside it. The
  iteration that expands always ends the source's loop, because the new child has no child.
- Mcts.MonteCarloTreeSearch.EvaluateTreeOnce: takes one playout winner. The source's
  `rollOut(…, 1)` runs exactly one playout.
