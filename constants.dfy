/** Game constants, players, phases and modes of Titan's Circuit. */
module Constants {

  /** Number of concentric circuits (rings); circuit 0 is the outermost. */
  const CIRCUIT_COUNT: nat := 3
  /** Number of nodes on each circuit. */
  const NODES_PER_CIRCUIT: nat := 6
  /** Number of titans each player is meant to place. */
  const TITANS_PER_PLAYER: nat := 4

  /** Length of a whole match, in seconds. */
  const GAME_TIME: int := 600
  /** Length of one turn, in seconds. */
  const TURN_TIME: int := 30

  /** Total number of nodes on the board. */
  const NODE_COUNT: nat := CIRCUIT_COUNT * NODES_PER_CIRCUIT

  datatype Player = Red | Blue

  datatype Phase = Placement | Movement

  /** The game modes; only the two hacker modes enable capture. */
  datatype GameMode = Normal | Hacker | HackerPlus

  /** Absent-or-present value: a node's titan and an edge's controller are `None` for null. */
  datatype Option<T> = None | Some(value: T)

  /** The other player. */
  function Opponent(p: Player): (q: Player)
    ensures q != p
  {
    if p == Red then Blue else Red
  }

  /** Whether surrounded titans are removed in this mode. */
  predicate CaptureActive(mode: GameMode)
  {
    mode == Hacker || mode == HackerPlus
  }
}
