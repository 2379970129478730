/** The match controller: turns, phases, the selection protocol, the two
    countdown timers, pausing, resetting and the end-of-game decision. */
module Games {
  import opened Constants
  import opened Topology
  import opened Rules
  import opened Boards

  /** The end-of-game verdict: a winner, or a tie. */
  datatype Outcome = Winner(player: Player) | Tie

  /** What a click led to; stands for the status message the click leaves behind. */
  datatype ClickResult =
    | Paused          // the match is paused: the click is ignored
    | CircuitLocked   // placement on a circuit that is not unlocked yet
    | NodeOccupied    // placement on a node that already holds a titan
    | Placed          // a titan was placed
    | Selected        // one of the mover's titans was selected
    | NotOwnTitan     // nothing selected and the node holds no titan of the mover
    | Deselected      // the selected node was clicked again
    | Moved           // the selected titan was moved
    | InvalidMove     // the move from the selected node was refused

  /** The verdict on two final scores: the higher score wins, equal scores tie. */
  function Decide(redScore: nat, blueScore: nat): (o: Outcome)
    ensures o == Winner(Red) <==> redScore > blueScore
    ensures o == Winner(Blue) <==> blueScore > redScore
    ensures o == Tie <==> redScore == blueScore
  {
    if redScore > blueScore then Winner(Red)
    else if blueScore > redScore then Winner(Blue)
    else Tie
  }

  /** The verdict does not depend on which colour is which. */
  lemma DecideSymmetric(redScore: nat, blueScore: nat)
    ensures Decide(blueScore, redScore) ==
      match Decide(redScore, blueScore)
      case Winner(p) => Winner(Opponent(p))
      case Tie => Tie
  {
  }

  /** How many titans each player has placed: the per-player counter record. */
  datatype Tally = Tally(red: nat, blue: nat)
  {
    /** The count of one player. */
    function Of(p: Player): nat
    {
      if p == Red then red else blue
    }

    /** One more titan for `p`; the other player's count stays. */
    function Bump(p: Player): (t: Tally)
      ensures t.Of(p) == Of(p) + 1 && t.Of(Opponent(p)) == Of(Opponent(p))
    {
      if p == Red then this.(red := red + 1) else this.(blue := blue + 1)
    }
  }

  /** Whose turn to place the counts call for: Red's when both have placed
      equally many, Blue's when Red is one ahead, and nobody's once both have
      placed all four. */
  predicate PlacesNext(t: Tally, p: Player)
  {
    (p == Red ==> t.Of(Red) == t.Of(Blue) < TITANS_PER_PLAYER) &&
    (p == Blue ==> t.Of(Red) == t.Of(Blue) + 1 <= TITANS_PER_PLAYER)
  }

  /** A placement by the player whose turn it is either completes both sets of
      four titans or makes it the opponent's turn. */
  lemma PlacementAlternates(t: Tally, p: Player)
    requires PlacesNext(t, p)
    ensures var u := t.Bump(p);
      (u.Of(Red) == TITANS_PER_PLAYER && u.Of(Blue) == TITANS_PER_PLAYER) || PlacesNext(u, Opponent(p))
  {
  }

  class Game {
    var board: Board
    var currentPlayer: Player
    var phase: Phase
    var titansPlaced: Tally
    var selectedNodeId: Option<nat>
    var gameTimer: int
    var turnTimer: int
    var isPaused: bool
    /** Whether the two one-second intervals exist (started at set-up and on reset, cleared at game end). */
    var timersRunning: bool
    var gameMode: GameMode
    /** The verdict highlighted at game end; cleared by a reset. */
    var outcome: Option<Outcome>

    /** The match invariant. */
    ghost predicate Valid()
      reads this, board
    {
      Settled() &&
      // titans only leave the board by capture, which happens only in the movement phase
      TitanCount(board.nodes, Red) <= titansPlaced.Of(Red) &&
      TitanCount(board.nodes, Blue) <= titansPlaced.Of(Blue) &&
      (phase == Placement ==>
        TitanCount(board.nodes, Red) == titansPlaced.Of(Red) && TitanCount(board.nodes, Blue) == titansPlaced.Of(Blue)) &&
      (phase == Movement ==> titansPlaced.Of(Red) == TITANS_PER_PLAYER && titansPlaced.Of(Blue) == TITANS_PER_PLAYER)
    }

    /** The match invariant apart from the placement counts: the board's own
        invariant, the selection, the timers and the outcome. */
    ghost predicate Settled()
      reads this, board
    {
      board.Valid() &&
      (selectedNodeId.Some? ==> selectedNodeId.value < NODE_COUNT) &&
      (phase == Placement ==> selectedNodeId == None) &&
      0 < turnTimer <= TURN_TIME && 0 <= gameTimer <= GAME_TIME &&
      (timersRunning ==> gameTimer > 0) &&
      (timersRunning <==> outcome == None)
    }

    /** Placement turns strictly alternate, Red first. */
    ghost predicate OnSchedule()
      reads this
    {
      phase == Placement && PlacesNext(titansPlaced, currentPlayer)
    }

    /** A new match, set up and with its timers started: Red to place on an empty board. */
    constructor ()
      ensures Valid() && OnSchedule() && fresh(board)
      ensures board.nodes == InitialNodes() && board.edges == InitialEdges() && board.unlockedCircuits == [0]
      ensures currentPlayer == Red && phase == Placement && titansPlaced == Tally(0, 0)
      ensures selectedNodeId == None && gameTimer == GAME_TIME && turnTimer == TURN_TIME
      ensures !isPaused && timersRunning && gameMode == Normal && outcome == None
    {
      board := new Board();
      currentPlayer := Red;
      phase := Placement;
      titansPlaced := Tally(0, 0);
      selectedNodeId := None;
      gameTimer := GAME_TIME;
      turnTimer := TURN_TIME;
      isPaused := false;
      timersRunning := true;
      gameMode := Normal;
      outcome := None;
      new;
      InitialCounts();
    }

    /** One second of the match clock: while running and not paused it counts
        down, and reaching zero ends the game. */
    method GameTick()
      requires Valid()
      modifies this
      ensures Valid()
      ensures board == old(board) && currentPlayer == old(currentPlayer) && phase == old(phase)
      ensures titansPlaced == old(titansPlaced) && selectedNodeId == old(selectedNodeId)
      ensures turnTimer == old(turnTimer) && gameMode == old(gameMode)
      ensures gameTimer == if old(timersRunning && !isPaused) then old(gameTimer) - 1 else old(gameTimer)
      ensures if old(timersRunning && !isPaused) && gameTimer == 0
              then outcome == Some(Decide(ClaimedWeight(board.nodes, board.edges, Red),
                                          ClaimedWeight(board.nodes, board.edges, Blue))) &&
                   isPaused && !timersRunning
              else outcome == old(outcome) && isPaused == old(isPaused) && timersRunning == old(timersRunning)
    {
      if timersRunning && !isPaused {
        gameTimer := gameTimer - 1;
        if gameTimer <= 0 {
          EndGame();
        }
      }
    }

    /** One second of the turn clock: while running and not paused it counts
        down, and reaching zero passes the turn without a move. */
    method TurnTick()
      requires Valid()
      modifies this
      ensures Valid()
      ensures board == old(board) && phase == old(phase) && titansPlaced == old(titansPlaced)
      ensures selectedNodeId == old(selectedNodeId) && gameTimer == old(gameTimer) && isPaused == old(isPaused)
      ensures timersRunning == old(timersRunning) && gameMode == old(gameMode) && outcome == old(outcome)
      ensures if !old(timersRunning && !isPaused) then currentPlayer == old(currentPlayer) && turnTimer == old(turnTimer)
              else if old(turnTimer) == 1 then currentPlayer == Opponent(old(currentPlayer)) && turnTimer == TURN_TIME
              else currentPlayer == old(currentPlayer) && turnTimer == old(turnTimer) - 1
    {
      if timersRunning && !isPaused {
        turnTimer := turnTimer - 1;
        if turnTimer <= 0 {
          SwitchPlayer();
        }
      }
    }

    /** A click on node `nodeId`: ignored while paused, otherwise handled by the current phase. */
    method HandleNodeClick(nodeId: nat) returns (result: ClickResult)
      requires Valid() && nodeId < NODE_COUNT
      modifies this, board
      ensures Valid() && board == old(board)
      ensures result == Paused <==> old(isPaused)
      ensures result == Paused ==>
        board.nodes == old(board.nodes) && board.edges == old(board.edges) &&
        board.unlockedCircuits == old(board.unlockedCircuits) &&
        currentPlayer == old(currentPlayer) && phase == old(phase) && titansPlaced == old(titansPlaced) &&
        selectedNodeId == old(selectedNodeId) && turnTimer == old(turnTimer) && outcome == old(outcome) &&
        gameTimer == old(gameTimer) && isPaused == old(isPaused) &&
        timersRunning == old(timersRunning) && gameMode == old(gameMode)
      ensures !old(isPaused) && old(phase) == Placement ==> result in {CircuitLocked, NodeOccupied, Placed}
      ensures !old(isPaused) && old(phase) == Movement ==> result in {Selected, NotOwnTitan, Deselected, Moved, InvalidMove}
      ensures old(OnSchedule()) ==> OnSchedule() || phase == Movement
    {
      if isPaused {
        return Paused;
      }
      if phase == Placement {
        result := HandlePlacementPhase(nodeId);
      } else {
        result := HandleMovementPhase(nodeId);
      }
    }

    /** A placement click: refused on a locked circuit or an occupied node;
        otherwise the mover's titan is placed, the innermost unlocked circuit,
        once full, unlocks the next, and the turn passes — unless both players
        have now placed all their titans, which starts the movement phase with
        the same player to move. */
    method HandlePlacementPhase(nodeId: nat) returns (result: ClickResult)
      requires Valid() && phase == Placement && nodeId < NODE_COUNT
      modifies this, board
      ensures Valid() && board == old(board)
      ensures result ==
        if CircuitOf(nodeId) >= |old(board.unlockedCircuits)| then CircuitLocked
        else if old(board.nodes[nodeId].titan).Some? then NodeOccupied
        else Placed
      ensures result != Placed ==>
        board.nodes == old(board.nodes) && board.edges == old(board.edges) &&
        board.unlockedCircuits == old(board.unlockedCircuits) &&
        currentPlayer == old(currentPlayer) && phase == old(phase) && titansPlaced == old(titansPlaced) &&
        turnTimer == old(turnTimer)
      ensures result == Placed ==>
        board.nodes == old(board.nodes)[nodeId := old(board.nodes[nodeId]).(titan := Some(old(currentPlayer)))] &&
        board.edges == Recomputed(board.nodes, old(board.edges)) &&
        board.unlockedCircuits == AfterFill(old(board.unlockedCircuits), board.nodes) &&
        titansPlaced == old(titansPlaced).Bump(old(currentPlayer)) &&
        if titansPlaced.Of(Red) == TITANS_PER_PLAYER && titansPlaced.Of(Blue) == TITANS_PER_PLAYER
        then phase == Movement && currentPlayer == old(currentPlayer) && turnTimer == old(turnTimer)
        else phase == Placement && currentPlayer == Opponent(old(currentPlayer)) && turnTimer == TURN_TIME
      ensures selectedNodeId == old(selectedNodeId) && gameTimer == old(gameTimer) && isPaused == old(isPaused)
      ensures timersRunning == old(timersRunning) && gameMode == old(gameMode) && outcome == old(outcome)
      ensures old(OnSchedule()) ==> OnSchedule() || phase == Movement
    {
      LayoutFactsAt(board.nodes, nodeId);
      var node := board.nodes[nodeId];
      UnlockedMembership(board.unlockedCircuits, node.circuitIndex);
      if node.circuitIndex !in board.unlockedCircuits {
        return CircuitLocked;
      }
      if !board.IsNodeAvailable(nodeId) {
        return NodeOccupied;
      }
      PlaceAndResolve(nodeId);
      return Placed;
    }

    /** A placement on an available node: the board places the mover's titan,
        the mover's count goes up, and the placement is resolved. */
    method PlaceAndResolve(nodeId: nat)
      requires Valid() && phase == Placement && nodeId < NODE_COUNT
      requires Available(board.nodes, board.unlockedCircuits, nodeId)
      modifies this, board
      ensures Valid() && board == old(board)
      ensures board.nodes == old(board.nodes)[nodeId := old(board.nodes[nodeId]).(titan := Some(old(currentPlayer)))]
      ensures board.edges == Recomputed(board.nodes, old(board.edges))
      ensures board.unlockedCircuits == AfterFill(old(board.unlockedCircuits), board.nodes)
      ensures titansPlaced == old(titansPlaced).Bump(old(currentPlayer))
      ensures if titansPlaced.Of(Red) == TITANS_PER_PLAYER && titansPlaced.Of(Blue) == TITANS_PER_PLAYER
              then phase == Movement && currentPlayer == old(currentPlayer) && turnTimer == old(turnTimer)
              else phase == Placement && currentPlayer == Opponent(old(currentPlayer)) && turnTimer == TURN_TIME
      ensures selectedNodeId == old(selectedNodeId) && gameTimer == old(gameTimer) && isPaused == old(isPaused)
      ensures timersRunning == old(timersRunning) && gameMode == old(gameMode) && outcome == old(outcome)
      ensures old(OnSchedule()) ==> OnSchedule() || phase == Movement
    {
      ghost var before := board.nodes;
      if PlacesNext(titansPlaced, currentPlayer) {
        PlacementAlternates(titansPlaced, currentPlayer);
      }
      var placed := board.PlaceTitan(nodeId, currentPlayer);
      if placed {
        CountsAfterPlace(before, nodeId, currentPlayer);
        CountPlacement();
        ResolvePlacement();
      }
    }

    /** The mover's placement count goes up by one, matching the titan just placed. */
    method CountPlacement()
      requires Settled() && phase == Placement
      requires TitanCount(board.nodes, currentPlayer) == titansPlaced.Of(currentPlayer) + 1
      requires TitanCount(board.nodes, Opponent(currentPlayer)) == titansPlaced.Of(Opponent(currentPlayer))
      modifies this
      ensures Valid() && titansPlaced == old(titansPlaced).Bump(currentPlayer)
      ensures board == old(board) && phase == old(phase) && currentPlayer == old(currentPlayer) && turnTimer == old(turnTimer)
      ensures selectedNodeId == old(selectedNodeId) && gameTimer == old(gameTimer) && isPaused == old(isPaused)
      ensures timersRunning == old(timersRunning) && gameMode == old(gameMode) && outcome == old(outcome)
    {
      titansPlaced := titansPlaced.Bump(currentPlayer);
    }

    /** What follows a placement, once counted: the innermost unlocked circuit,
        once full, unlocks the next, and the turn passes unless both players
        have placed all their titans, which starts the movement phase. */
    method ResolvePlacement()
      requires Valid() && phase == Placement
      modifies this, board
      ensures Valid() && board == old(board) && titansPlaced == old(titansPlaced)
      ensures board.nodes == old(board.nodes) && board.edges == old(board.edges)
      ensures board.unlockedCircuits == AfterFill(old(board.unlockedCircuits), board.nodes)
      ensures if titansPlaced.Of(Red) == TITANS_PER_PLAYER && titansPlaced.Of(Blue) == TITANS_PER_PLAYER
              then phase == Movement && currentPlayer == old(currentPlayer) && turnTimer == old(turnTimer)
              else phase == Placement && currentPlayer == Opponent(old(currentPlayer)) && turnTimer == TURN_TIME
      ensures selectedNodeId == old(selectedNodeId) && gameTimer == old(gameTimer) && isPaused == old(isPaused)
      ensures timersRunning == old(timersRunning) && gameMode == old(gameMode) && outcome == old(outcome)
    {
      var currentCircuit := board.unlockedCircuits[|board.unlockedCircuits| - 1];
      if board.CheckCircuitFilled(currentCircuit) {
        var unlocked := board.UnlockNextCircuit();
      }
      if titansPlaced.Of(Red) == TITANS_PER_PLAYER && titansPlaced.Of(Blue) == TITANS_PER_PLAYER {
        phase := Movement;
      } else {
        SwitchPlayer();
      }
    }

    /** A movement click. With nothing selected, a titan of the mover is
        selected. With a node selected, clicking it again deselects it;
        otherwise the titan is moved if the board allows, surrounded opponent
        titans are captured in the hacker modes, filled circuits unlock the next
        one, and the game ends if the inner circuit is full, else the turn passes.
        A refused move keeps the selection. */
    method HandleMovementPhase(nodeId: nat) returns (result: ClickResult)
      requires Valid() && phase == Movement && nodeId < NODE_COUNT
      modifies this, board
      ensures Valid() && board == old(board) && phase == Movement && titansPlaced == old(titansPlaced)
      ensures gameMode == old(gameMode)
      ensures old(selectedNodeId) == None ==>
        (result == if old(board.nodes[nodeId].titan) == Some(old(currentPlayer)) then Selected else NotOwnTitan) &&
        (selectedNodeId == if result == Selected then Some(nodeId) else None)
      ensures old(selectedNodeId) == Some(nodeId) ==> result == Deselected && selectedNodeId == None
      ensures old(selectedNodeId).Some? && old(selectedNodeId) != Some(nodeId) ==>
        var from := old(selectedNodeId).value;
        result == (if MoveAllowed(old(board.nodes), old(board.unlockedCircuits), from, nodeId, old(currentPlayer))
                   then Moved else InvalidMove) &&
        (result == InvalidMove ==> selectedNodeId == old(selectedNodeId))
      ensures result != Moved ==>
        board.nodes == old(board.nodes) && board.edges == old(board.edges) &&
        board.unlockedCircuits == old(board.unlockedCircuits) && currentPlayer == old(currentPlayer) &&
        turnTimer == old(turnTimer) && gameTimer == old(gameTimer) && isPaused == old(isPaused) &&
        timersRunning == old(timersRunning) && outcome == old(outcome)
      ensures result == Moved ==>
        var from := old(selectedNodeId).value;
        var mover := old(currentPlayer);
        var afterMove := old(board.nodes)[from := old(board.nodes[from]).(titan := None)]
                                          [nodeId := old(board.nodes[nodeId]).(titan := Some(mover))];
        selectedNodeId == None &&
        board.nodes == (if CaptureActive(gameMode) then Captured(afterMove, old(board.edges), Opponent(mover))
                        else afterMove) &&
        board.edges == Recomputed(board.nodes, old(board.edges)) &&
        board.unlockedCircuits == AfterFill(old(board.unlockedCircuits), board.nodes) &&
        gameTimer == old(gameTimer) &&
        if CircuitFilled(board.nodes, CIRCUIT_COUNT - 1)
        then currentPlayer == mover && turnTimer == old(turnTimer) && isPaused && !timersRunning &&
             outcome == Some(Decide(ClaimedWeight(board.nodes, board.edges, Red),
                                    ClaimedWeight(board.nodes, board.edges, Blue)))
        else currentPlayer == Opponent(mover) && turnTimer == TURN_TIME && isPaused == old(isPaused) &&
             timersRunning == old(timersRunning) && outcome == old(outcome)
    {
      var node := board.nodes[nodeId];
      if selectedNodeId == None {
        if node.titan == Some(currentPlayer) {
          selectedNodeId := Some(nodeId);
          return Selected;
        }
        return NotOwnTitan;
      }
      var from := selectedNodeId.value;
      if from == nodeId {
        selectedNodeId := None;
        return Deselected;
      }
      var moved := TryMove(from, nodeId);
      return if moved then Moved else InvalidMove;
    }

    /** A move attempt from the selected node `from` to `to`: refused (keeping
        the selection) unless the board accepts it; an accepted move clears the
        selection and is resolved. */
    method TryMove(from: nat, to: nat) returns (moved: bool)
      requires Valid() && phase == Movement && from < NODE_COUNT && to < NODE_COUNT
      modifies this, board
      ensures Valid() && board == old(board) && phase == Movement && titansPlaced == old(titansPlaced)
      ensures gameMode == old(gameMode) && gameTimer == old(gameTimer)
      ensures moved == MoveAllowed(old(board.nodes), old(board.unlockedCircuits), from, to, old(currentPlayer))
      ensures !moved ==>
        board.nodes == old(board.nodes) && board.edges == old(board.edges) &&
        board.unlockedCircuits == old(board.unlockedCircuits) && currentPlayer == old(currentPlayer) &&
        selectedNodeId == old(selectedNodeId) && turnTimer == old(turnTimer) && isPaused == old(isPaused) &&
        timersRunning == old(timersRunning) && outcome == old(outcome)
      ensures moved ==>
        var mover := old(currentPlayer);
        var afterMove := old(board.nodes)[from := old(board.nodes[from]).(titan := None)]
                                          [to := old(board.nodes[to]).(titan := Some(mover))];
        selectedNodeId == None &&
        board.nodes == (if CaptureActive(gameMode) then Captured(afterMove, old(board.edges), Opponent(mover))
                        else afterMove) &&
        board.edges == Recomputed(board.nodes, old(board.edges)) &&
        board.unlockedCircuits == AfterFill(old(board.unlockedCircuits), board.nodes) &&
        if CircuitFilled(board.nodes, CIRCUIT_COUNT - 1)
        then currentPlayer == mover && turnTimer == old(turnTimer) && isPaused && !timersRunning &&
             outcome == Some(Decide(ClaimedWeight(board.nodes, board.edges, Red),
                                    ClaimedWeight(board.nodes, board.edges, Blue)))
        else currentPlayer == Opponent(mover) && turnTimer == TURN_TIME && isPaused == old(isPaused) &&
             timersRunning == old(timersRunning) && outcome == old(outcome)
    {
      ghost var before, edges0 := board.nodes, board.edges;
      moved := board.MoveTitan(from, to, currentPlayer);
      if !moved {
        return;
      }
      CountsAfterMove(before, from, to, currentPlayer);
      ResolveMove(edges0);
    }

    /** What follows an accepted move, whose control recomputation started from
        `edges0`: captures, then filled circuits unlock the next one, and the
        game ends if the inner circuit is full, else the turn passes. */
    method ResolveMove(ghost edges0: seq<Edge>)
      requires Valid() && phase == Movement
      requires EndpointsIn(edges0, NODE_COUNT) && board.edges == Recomputed(board.nodes, edges0)
      modifies this, board
      ensures Valid() && board == old(board) && phase == Movement && titansPlaced == old(titansPlaced)
      ensures selectedNodeId == None && gameMode == old(gameMode) && gameTimer == old(gameTimer)
      ensures board.nodes == if CaptureActive(gameMode)
                             then Captured(old(board.nodes), edges0, Opponent(old(currentPlayer)))
                             else old(board.nodes)
      ensures board.edges == Recomputed(board.nodes, edges0)
      ensures board.unlockedCircuits == AfterFill(old(board.unlockedCircuits), board.nodes)
      ensures if CircuitFilled(board.nodes, CIRCUIT_COUNT - 1)
              then currentPlayer == old(currentPlayer) && turnTimer == old(turnTimer) && isPaused && !timersRunning &&
                   outcome == Some(Decide(ClaimedWeight(board.nodes, board.edges, Red),
                                          ClaimedWeight(board.nodes, board.edges, Blue)))
              else currentPlayer == Opponent(old(currentPlayer)) && turnTimer == TURN_TIME &&
                   isPaused == old(isPaused) && timersRunning == old(timersRunning) && outcome == old(outcome)
    {
      CaptureAfterMove(edges0);
      UnlockFilledCircuits();
      if board.CheckCircuitFilled(CIRCUIT_COUNT - 1) {
        EndGame();
        return;
      }
      SwitchPlayer();
    }

    /** The first steps after an accepted move, whose control recomputation
        started from `edges0`: the selection is cleared and, in the hacker
        modes, the opponent's surrounded titans are removed. */
    method CaptureAfterMove(ghost edges0: seq<Edge>)
      requires Valid() && phase == Movement
      requires EndpointsIn(edges0, NODE_COUNT) && board.edges == Recomputed(board.nodes, edges0)
      modifies this, board
      ensures Valid() && board == old(board) && selectedNodeId == None
      ensures board.nodes == if CaptureActive(gameMode)
                             then Captured(old(board.nodes), edges0, Opponent(currentPlayer))
                             else old(board.nodes)
      ensures board.edges == Recomputed(board.nodes, edges0)
      ensures board.unlockedCircuits == old(board.unlockedCircuits)
      ensures currentPlayer == old(currentPlayer) && phase == old(phase) && titansPlaced == old(titansPlaced)
      ensures turnTimer == old(turnTimer) && gameTimer == old(gameTimer) && isPaused == old(isPaused)
      ensures timersRunning == old(timersRunning) && gameMode == old(gameMode) && outcome == old(outcome)
    {
      selectedNodeId := None;
      ghost var before := board.nodes;
      LayoutFacts(before);
      RecomputedConsistent(before, edges0);
      CapturedIgnoresControl(before, board.edges, edges0, Opponent(currentPlayer));
      CaptureOnlyClears(before, board.edges, Opponent(currentPlayer), 0);
      var captured := board.RemoveSurroundedTitans(Opponent(currentPlayer), CaptureActive(gameMode));
      TitanCountUnderClearing(before, board.nodes, Red);
      TitanCountUnderClearing(before, board.nodes, Blue);
      RecomputeOverwrites(board.nodes, before, edges0);
    }

    /** The unlock sweep after a move: each circuit but the innermost that is
        full and whose successor is still locked unlocks the next circuit. */
    method UnlockFilledCircuits()
      requires Valid()
      modifies board
      ensures Valid()
      ensures board.unlockedCircuits == AfterFill(old(board.unlockedCircuits), board.nodes)
      ensures board.nodes == old(board.nodes) && board.edges == old(board.edges)
    {
      ghost var u0, n := board.unlockedCircuits, board.nodes;
      for i := 0 to CIRCUIT_COUNT - 1
        invariant Valid()
        invariant board.nodes == n && board.edges == old(board.edges)
        invariant board.unlockedCircuits == if i < |u0| then u0 else AfterFill(u0, n)
      {
        UnlockedMembership(board.unlockedCircuits, i + 1);
        if i >= |u0| {
          LockedNotFilled(n, |u0|, i);
        }
        if board.CheckCircuitFilled(i) && i + 1 !in board.unlockedCircuits {
          var unlocked := board.UnlockNextCircuit();
        }
      }
    }

    /** Passes the turn and restarts the turn clock; the selection is kept. */
    method SwitchPlayer()
      modifies this
      ensures currentPlayer == Opponent(old(currentPlayer)) && turnTimer == TURN_TIME
      ensures board == old(board) && phase == old(phase) && titansPlaced == old(titansPlaced)
      ensures selectedNodeId == old(selectedNodeId) && gameTimer == old(gameTimer) && isPaused == old(isPaused)
      ensures timersRunning == old(timersRunning) && gameMode == old(gameMode) && outcome == old(outcome)
    {
      currentPlayer := if currentPlayer == Red then Blue else Red;
      turnTimer := TURN_TIME;
    }

    /** Flips the pause flag; nothing else changes. */
    method TogglePause()
      requires Valid()
      modifies this
      ensures Valid()
      ensures isPaused == !old(isPaused)
      ensures board == old(board) && currentPlayer == old(currentPlayer) && phase == old(phase)
      ensures titansPlaced == old(titansPlaced) && selectedNodeId == old(selectedNodeId)
      ensures gameTimer == old(gameTimer) && turnTimer == old(turnTimer) && timersRunning == old(timersRunning)
      ensures gameMode == old(gameMode) && outcome == old(outcome)
    {
      isPaused := !isPaused;
    }

    /** Switches the game mode and starts a fresh match in it. */
    method SetGameMode(mode: GameMode)
      modifies this
      ensures Valid() && OnSchedule() && fresh(board)
      ensures gameMode == mode
      ensures board.nodes == InitialNodes() && board.edges == InitialEdges() && board.unlockedCircuits == [0]
      ensures currentPlayer == Red && phase == Placement && titansPlaced == Tally(0, 0)
      ensures selectedNodeId == None && gameTimer == GAME_TIME && turnTimer == TURN_TIME
      ensures !isPaused && timersRunning && outcome == None
    {
      gameMode := mode;
      ResetGame();
    }

    /** Starts a fresh match on a new board, keeping the game mode; the timers
        are restarted and the verdict cleared. */
    method ResetGame()
      modifies this
      ensures Valid() && OnSchedule() && fresh(board)
      ensures board.nodes == InitialNodes() && board.edges == InitialEdges() && board.unlockedCircuits == [0]
      ensures currentPlayer == Red && phase == Placement && titansPlaced == Tally(0, 0)
      ensures selectedNodeId == None && gameTimer == GAME_TIME && turnTimer == TURN_TIME
      ensures !isPaused && timersRunning && outcome == None && gameMode == old(gameMode)
    {
      currentPlayer := Red;
      phase := Placement;
      titansPlaced := Tally(0, 0);
      selectedNodeId := None;
      gameTimer := GAME_TIME;
      turnTimer := TURN_TIME;
      isPaused := false;
      timersRunning := true;
      outcome := None;
      board := new Board();
      InitialCounts();
    }

    /** Ends the match: the timers stop, the verdict on the current scores is
        recorded and the match is paused. */
    method EndGame()
      requires board.Valid()
      modifies this
      ensures board == old(board) && currentPlayer == old(currentPlayer) && phase == old(phase)
      ensures outcome == Some(Decide(ClaimedWeight(board.nodes, board.edges, Red),
                                     ClaimedWeight(board.nodes, board.edges, Blue)))
      ensures isPaused && !timersRunning
      ensures titansPlaced == old(titansPlaced) && selectedNodeId == old(selectedNodeId)
      ensures gameTimer == old(gameTimer) && turnTimer == old(turnTimer) && gameMode == old(gameMode)
    {
      timersRunning := false;
      var redScore := board.GetPlayerScore(Red);
      var blueScore := board.GetPlayerScore(Blue);
      outcome := Some(Decide(redScore, blueScore));
      isPaused := true;
    }
  }

  /** A placement on an empty node adds one titan for the placer and none for the other player. */
  lemma CountsAfterPlace(nodes: seq<Node>, id: nat, placer: Player)
    requires id < |nodes| && nodes[id].titan == None
    ensures var placed := nodes[id := nodes[id].(titan := Some(placer))];
      TitanCount(placed, placer) == TitanCount(nodes, placer) + 1 &&
      TitanCount(placed, Opponent(placer)) == TitanCount(nodes, Opponent(placer))
  {
    TitanCountUpdate(nodes, id, nodes[id].(titan := Some(placer)), placer);
    TitanCountUpdate(nodes, id, nodes[id].(titan := Some(placer)), Opponent(placer));
  }

  /** The board as first built holds no titans. */
  lemma InitialCounts()
    ensures TitanCount(InitialNodes(), Red) == 0 && TitanCount(InitialNodes(), Blue) == 0
  {
    TitanCountEmpty(InitialNodes(), Red);
    TitanCountEmpty(InitialNodes(), Blue);
  }

  /** A move empties one node of the mover and fills another: both counts are kept. */
  lemma CountsAfterMove(nodes: seq<Node>, from: nat, to: nat, mover: Player)
    requires from < |nodes| && to < |nodes| && from != to
    requires nodes[from].titan == Some(mover) && nodes[to].titan == None
    ensures var moved := nodes[from := nodes[from].(titan := None)][to := nodes[to].(titan := Some(mover))];
      TitanCount(moved, Red) == TitanCount(nodes, Red) && TitanCount(moved, Blue) == TitanCount(nodes, Blue)
  {
    var cleared := nodes[from := nodes[from].(titan := None)];
    TitanCountUpdate(nodes, from, nodes[from].(titan := None), Red);
    TitanCountUpdate(nodes, from, nodes[from].(titan := None), Blue);
    TitanCountUpdate(cleared, to, nodes[to].(titan := Some(mover)), Red);
    TitanCountUpdate(cleared, to, nodes[to].(titan := Some(mover)), Blue);
  }
}
