# Titan's Circuit — a verified model of the rules engine

Titan's Circuit is a two-player browser game. The board has three concentric
hexagonal circuits (outer, middle, inner) of six nodes each. Ring edges carry
per-ring weights. Six radial cross-links of weight 1 join the rings. Red and
Blue each place four titans, one at a time, on unlocked circuits, and the next
circuit unlocks once the innermost unlocked one is full. Then players take
turns moving a titan to an adjacent free node. An edge whose two endpoints
hold titans of one player is controlled by that player, and a player's score
is the total weight of the edges they control. In the hacker modes, titans
surrounded by the opponent are captured after every move. The game ends when
the inner circuit fills or the ten-minute clock runs out, and the higher score
wins.

This project models the rules engine: the `Board` class (`board.js`), the
`Game` controller (`game.js`) and the constants they use (`constants.js`).

Modules:

- `Constants` (`constants.dfy`): the game constants, players, phases and game modes.
- `Topology` (`topology.dfy`): the node and edge records and the board as built. It covers the node layout, the ring and cross edges with their weights, and the filter and find helpers the construction uses. It proves the shape of the adjacency relation.
- `Rules` (`rules.dfy`): the value-level rules. These are edge control, scores, circuit filling, the unlock sweep, the surround test and capture, and titan counts. Each comes with the lemmas that characterise it.
- `Boards` (`boards.dfy`): `class Board`. It has `nodes`, `edges` and `unlockedCircuits` fields that its methods reassign. Each method is specified against the `Rules` functions.
- `Games` (`games.dfy`): `class Game`. It holds the turn, the phase, the placement counts, the selection, both timers, the pause flag, the game mode and the final verdict. `Game.Valid()` is the match invariant that every operation keeps.

Where the code and its written description disagree, the model follows the code:

- Placement never checks the four-titan cap.
- A turn-timer expiry in the placement phase passes the turn without a placement.
- Together these let one player place more than four titans. The counts then never both equal four, and the movement phase never starts. The model keeps this behaviour: `OnSchedule` holds only while turns alternate.
- After `endGame` the match is paused with its intervals cleared. Un-pausing makes clicks work again, but the clocks do not restart (`timersRunning` stays false).
- `switchPlayer` does not clear the selection.

## Model

| member | source | states |
|---|---|---|
| Constants.Opponent | board.js:392-393 | The opponent of a player is never that player. |
| Topology.LayoutFacts | board.js:16-61 | On the built layout node `k` has id `k`, sits on circuit `k / 6` at position `k % 6`, and there are 18 nodes. |
| Topology.LayoutFactsAt | board.js:51-58 | The same facts for a single node. |
| Topology.Decompose | board.js:20-52 | Every node id below 18 is the id of one circuit/position pair within range. |
| Topology.Compose | board.js:20-52 | The circuit and position of the node built at `(c, i)` are `c` and `i`. |
| Topology.RingEdgeShape | board.js:67-117 | Ring edge `k` goes from node `k` to its ring successor, whose ring predecessor is `k`. |
| Topology.CrossEdgeShape | board.js:126-187 | Each cross edge joins two nodes that are each other's cross partner. |
| Topology.InitialEdgeShape | board.js:63-188 | Every built edge has endpoints on the board; the first 18 are ring edges and the rest cross edges. |
| Topology.CrossLinked | board.js:126-187 | A node with a cross partner is adjacent to it. |
| Topology.JoinedNeighbour | board.js:63-188 | Any node joined to `n` by a built edge is its ring successor, its ring predecessor or its cross partner. |
| Topology.RingNextLinked | board.js:67-117 | Every node is adjacent to its ring successor. |
| Topology.RingNextOfPrev | board.js:74-75 | The ring successor of the ring predecessor of a node is the node itself. |
| Topology.RingPrevLinked | board.js:67-117 | Every node is adjacent to its ring predecessor, because the ring wraps around. |
| Topology.InitialAdjacency | board.js:337-344 | On the built edges, `m` is adjacent to `n` if and only if it is `n`'s ring successor, ring predecessor or cross partner. |
| Topology.InitialGraphFacts | board.js:63-188 | All built edges have endpoints below 18, positive weight and no controller. |
| Topology.BoardAdjacency | board.js:337-344 | The same adjacency holds for any edge list with the built ids, endpoints and weights, whatever the control. |
| Topology.NeighbourhoodShape | board.js:63-188 | A node's two ring neighbours are distinct, differ from it and lie on its circuit; a cross partner lies on another circuit. |
| Topology.AdjacentSymmetric | board.js:339-343 | Adjacency is tested in both directions, so it is symmetric. |
| Topology.SameLinks | board.js:346-358 | Equal id/endpoint/weight projections mean the edge lists agree edge by edge on everything but control. |
| Topology.TitansKeepLayout | board.js:303-335 | Changing only titans keeps each node's id, circuit and position. |
| Topology.CircuitNodes | board.js:69-71 | Filtering a node list by circuit yields no more nodes than the list has. |
| Topology.CircuitNodesMembers | board.js:69-71 | A node is in the filtered list exactly when it is in the list and on circuit `c`. |
| Topology.CircuitNodesAppend | board.js:69-71 | Filtering distributes over concatenation. |
| Topology.CircuitNodesUniform | board.js:69-71 | Filtering a list that lies on one circuit keeps all of it or nothing. |
| Topology.LayoutBlock | board.js:20-58 | On the layout, nodes `6c .. 6c+5` are exactly the six nodes of circuit `c`. |
| Topology.LayoutSplit | board.js:20-58 | The layout is the outer, middle and inner block of six nodes, in that order. |
| Topology.CircuitNodesOfBlocks | board.js:69-71 | Filtering three single-circuit blocks by circuit returns the matching block. |
| Topology.CircuitNodesOfSplit | board.js:69-71 | Filtering a three-block list by circuit `c` returns block `c` in id order. |
| Topology.CircuitNodesOfLayout | board.js:69-71 | On the layout, filtering by circuit `c` returns nodes `6c .. 6c+5` in order. |
| Topology.FindNode | board.js:133-141 | A node found by circuit and position is in the list and has that circuit and position. |
| Topology.FindFirstMatch | board.js:133-141 | The search returns the first matching node. |
| Topology.FindOnLayout | board.js:163-171 | On the layout, the node at position `i` of circuit `c` is found, and it is node `6c + i`. |
| Rules.ControlMeaning | board.js:348-357 | An edge is controlled by `p` if and only if both endpoints hold `p`'s titans. It is uncontrolled if and only if the endpoints differ or both are empty. |
| Rules.Recomputed | board.js:346-358 | Recomputing control keeps the number of edges. |
| Rules.RecomputedConsistent | board.js:346-358 | Recomputation keeps every edge's id, endpoints and weight, and leaves control consistent with the titans. |
| Rules.RecomputeIdempotent | board.js:346-358 | Edges whose control is already consistent are unchanged by recomputation, and recomputing twice is the same as once. |
| Rules.RecomputeOverwrites | board.js:346-358 | Recomputation depends only on the current titans, so an earlier recomputation is overwritten. |
| Rules.ScoresWithinTotal | board.js:360-365 | The two scores never exceed the total edge weight. With positive weights they reach it exactly when every edge is controlled. |
| Rules.ScoreIsClaimedWeight | board.js:360-365 | After recomputation a player's score is the weight of the edges whose two endpoints both hold that player's titans. |
| Rules.CircuitFilledOnLayout | board.js:367-373 | On the layout, a circuit is filled if and only if all six of its nodes hold a titan. |
| Rules.UnlockedMembership | board.js:299 | For the unlocked list `[0, 1, ...]`, circuit `c` is included if and only if `c` is less than the list's length. |
| Rules.AfterFill | game.js:133-139 | The unlock step keeps the list a prefix `[0, 1, ...]`, keeps the old entries, and adds at most one. |
| Rules.LockedNotFilled | game.js:188-194 | A circuit that is not unlocked cannot be filled, since titans only stand on unlocked circuits. |
| Rules.AfterFillUnlocksFilled | game.js:188-194 | Once circuit `c` is filled, circuit `c + 1` is unlocked after the sweep. |
| Rules.Neighbours | board.js:396-398 | `m` is among the neighbour ids of a node if and only if the two are adjacent. |
| Rules.NeighbourInRange | board.js:396-404 | Every neighbour id is a valid node index. |
| Rules.NeighboursIgnoreControl | board.js:396-398 | The neighbour list depends only on edge endpoints, not on control. |
| Rules.SurroundedMeaning | board.js:385-406 | An empty node is never surrounded. A titan is surrounded if and only if it has a neighbour and every neighbour holds an opponent titan. |
| Rules.SurroundedUnderClearing | board.js:414-419 | Clearing other titans of the same player during the sweep does not change whether a titan is surrounded, so the sweep order does not matter. |
| Rules.CaptureOnlyClears | board.js:414-419 | Capture only removes titans of the captured player. It keeps the layout and keeps titans on unlocked circuits. |
| Rules.CapturedIgnoresControl | board.js:385-406 | Which titans are captured depends only on edge endpoints, not on control. |
| Rules.TitanCountUpdate | game.js:125 | Replacing one node changes a player's count by the titan that arrives minus the one that leaves. |
| Rules.TitanCountUnderClearing | board.js:414-419 | Emptying nodes never raises any player's count. |
| Rules.TitanCountEmpty | board.js:51-58 | A board without titans counts none for either player. |
| Boards.Board.constructor | board.js:2-14 | A new board has the 18 built nodes, all empty, and the 24 built edges, all uncontrolled. Only the outer circuit is unlocked, and the board invariant holds. |
| Boards.Board.CreateNodes | board.js:16-61 | The loops create exactly the built layout. |
| Boards.Board.CreateEdges | board.js:63-188 | The loops create exactly the built edges: ring edges with the weight tables, then the outer-to-middle and middle-to-inner cross-links. |
| Boards.Board.IsNodeAvailable | board.js:294-301 | A node is available exactly when it is empty and on an unlocked circuit. |
| Boards.Board.AreNodesAdjacent | board.js:337-344 | Two nodes are adjacent exactly when one is the other's ring successor, ring predecessor or cross partner. |
| Boards.Board.PlaceTitan | board.js:303-312 | The placement succeeds exactly when the node is available. Then the node takes the titan and control is recomputed; otherwise nothing changes. |
| Boards.Board.MoveTitan | board.js:314-335 | The move succeeds exactly when the source holds the player's titan and the target is available and adjacent. Then the titan moves and control is recomputed; otherwise nothing changes. |
| Boards.Board.UpdateEdgeControl | board.js:346-358 | Every edge's control is set from its endpoints' titans, and the board invariant holds. |
| Boards.Board.GetPlayerScore | board.js:360-365 | The score is the weight of the edges whose two endpoints hold the player's titans. |
| Boards.Board.CheckCircuitFilled | board.js:367-373 | A circuit is filled exactly when all six of its nodes hold titans. |
| Boards.Board.UnlockNextCircuit | board.js:375-383 | The next circuit index is appended exactly when fewer than three circuits are unlocked, and the result reports whether it was. |
| Boards.Board.IsTitanSurrounded | board.js:385-406 | A node is surrounded exactly when it holds a titan and its two ring neighbours, and its cross partner if it has one, hold opponent titans. |
| Boards.Board.RemoveSurroundedTitans | board.js:408-432 | With capture off, nothing changes and the result is false. With capture on, every surrounded titan of the player is removed and control is recomputed. The result says whether any was removed. |
| Boards.Board.ClearSurrounded | board.js:413-420 | The sweep leaves the captured board, and it reports removal exactly when some titan of the player was surrounded. |
| Boards.CrossPartnerInRange | board.js:126-187 | A cross partner is a valid node index. |
| Boards.SurroundedOnBoard | board.js:385-406 | On the board, the generic neighbour-list test agrees with the ring-and-cross description. |
| Boards.SomeEnclosedOnBoard | board.js:408-428 | Some titan of the player is surrounded exactly when one is enclosed by the ring-and-cross description. |
| Boards.RingEdgeOfLayout | board.js:109-115 | The ring edge pushed for position `i` of circuit `c` is the built ring edge at index `6c + i`. |
| Boards.CrossEdgeOfLayout | board.js:150-156 | The cross edge pushed for entry `j` of the connection tables is the built edge at index `18 + j`. |
| Boards.RingStep | board.js:109-115 | Each ring push extends the edge list by the next built edge. |
| Boards.CrossStep | board.js:180-186 | Each cross push extends the edge list by the next built edge, and both `find` calls succeed. |
| Games.Decide | game.js:350-363 | Red wins exactly when its score is higher, Blue exactly when its score is higher, and the game is a tie exactly when the scores are equal. |
| Games.DecideSymmetric | game.js:350-363 | Swapping the scores swaps the winner and keeps a tie. |
| Games.Tally.Bump | game.js:125 | A placement raises the placer's count by one and leaves the other player's count unchanged. |
| Games.PlacementAlternates | game.js:141-148 | A placement by the player whose turn the counts call for either completes both sets of four, or hands the turn to the opponent. |
| Games.CountsAfterPlace | game.js:124-125 | Placing on an empty node adds one titan for the placer and none for the opponent. |
| Games.CountsAfterMove | board.js:328-329 | A move keeps both players' titan counts. |
| Games.InitialCounts | game.js:284-303 | The fresh board holds no titans, matching placement counts of zero. |
| Games.Game.constructor | game.js:2-42 | The new match satisfies the invariant and is on schedule. Red is to place on a fresh board, the clocks are full and running, and the mode is normal. |
| Games.Game.GameTick | game.js:46-57 | While running and unpaused the match clock drops by one. At zero the game ends with the verdict on the current scores. Otherwise nothing changes. |
| Games.Game.TurnTick | game.js:60-71 | While running and unpaused the turn clock drops by one. At zero the turn passes and the clock resets to 30. Otherwise nothing changes. |
| Games.Game.HandleNodeClick | game.js:91-106 | A click is ignored exactly when the match is paused: it then reports `Paused` and changes no field of the game or the board. Otherwise the phase handler runs, and a match on schedule stays on schedule or enters movement. |
| Games.Game.HandlePlacementPhase | game.js:108-150 | A locked circuit and an occupied node are refused with nothing changed. Otherwise the titan is placed and counted, the circuits unlock, and the phase starts movement or the turn passes. |
| Games.Game.PlaceAndResolve | game.js:124-149 | On an available node: the mover's titan is placed, control is recomputed, the count rises, the innermost circuit unlocks the next once full, and movement starts or the turn passes. |
| Games.Game.CountPlacement | game.js:125 | The mover's count rises by one and the match invariant is restored. |
| Games.Game.ResolvePlacement | game.js:132-148 | A full innermost unlocked circuit unlocks the next. Movement starts once both players have placed four; otherwise the turn passes. |
| Games.Game.HandleMovementPhase | game.js:152-207 | Selection protocol: select own titan, deselect on a second click, try the move otherwise. A refused move keeps the selection and changes nothing. An accepted move clears the selection, captures in the hacker modes, sweeps the unlocks, then ends the game if the inner circuit is full or passes the turn. |
| Games.Game.TryMove | game.js:172-202 | The move happens exactly when the board allows it, with the full outcome of an accepted move as above. |
| Games.Game.ResolveMove | game.js:183-202 | After a move: capture, then the unlock sweep, then the end of the game on a full inner circuit or the turn passing. |
| Games.Game.CaptureAfterMove | game.js:181-185 | The selection is cleared. In the hacker modes the opponent's surrounded titans are removed, and control is recomputed from the board. |
| Games.Game.UnlockFilledCircuits | game.js:187-194 | The sweep over circuits 0 and 1 leaves the unlocked list equal to the unlock step's result, and the invariant holds. |
| Games.Game.SwitchPlayer | game.js:210-212 | The turn passes to the opponent, the turn clock resets, and the selection is kept. |
| Games.Game.TogglePause | game.js:239-243 | Only the pause flag flips. |
| Games.Game.SetGameMode | game.js:246-273 | The mode is set and a fresh match starts in it. |
| Games.Game.ResetGame | game.js:276-330 | A fresh match starts on a new board with Red to place, full running clocks and no verdict. The mode is kept. |
| Games.Game.EndGame | game.js:332-388 | The clocks stop, the verdict on the current scores is recorded, and the match is paused. |

## Left out

- Rendering and the DOM are left out: `render`, node and edge elements, pixel coordinates and radii, `updateUI`, `updateTimerDisplay`, `formatTime`, the score and winner highlights. They only draw state and compute floating-point positions.
- Status messages are replaced by the `ClickResult` value, which names the message a click leaves behind.
- `setInterval`/`clearInterval` are modelled by the `timersRunning` flag plus the `GameTick` and `TurnTick` methods, one call per elapsed second; wall-clock time is not modelled.
- The capture gate reads `window.game.gameMode` (board.js:411). Here the `Game` passes `CaptureActive(gameMode)` to the board as a flag. `Board.handleNodeClick`, which only forwards to `window.game`, is not part of this model.
- The hacker-mode extras are not part of this model: move recording, undo/redo, power-ups (game.js:95-98), the bot move in `switchPlayer` (game.js:216-219), `handleGameEnd` and the power-up resets in `resetGame`.
- `resetGame(resetTimers)` ignores its parameter in the source, so the model has none.
- The unused `selectedNode` field of `Board` is left out.
- Games.Game.HandleNodeClick: its contract gives the paused case in full (nothing changes), which results each phase can produce, and the schedule property. The full effect of each phase is stated by HandlePlacementPhase and HandleMovementPhase.
- Games.PlacementAlternates: it speaks only of placements made in turn. A turn-timer expiry during placement breaks the alternation, as in the source.
