/**
 * The game engine seen by the searchers: an explicit finite tree of nodes, each
 * holding a read-only snapshot of the game, the move that produced it and its
 * ordered children.
 */
module GameTree {
  import opened Wrappers

  /** The side to move: player 0 or player 1. */
  type Player = p: int | 0 <= p <= 1

  /** A board position (x, y); x runs round the board. */
  type Pos = (int, int)

  /** An engine-defined action id; its text token is outside this model. */
  type Move = int

  datatype Snapshot = Snapshot(
    player: Player,
    hooks: map<int, Pos>,           // hook position of each player
    fish: map<int, Pos>,            // position of each fish still on the board
    fishScores: map<int, int>,      // the snapshot's own fish score table
    caught: (Option<int>, Option<int>),  // fish on each player's hook, if any
    scores: (int, int))             // cumulative score of each player

  datatype Node = Node(state: Snapshot, move: Move, children: seq<Node>)

  function Other(p: Player): Player {
    1 - p
  }

  function CaughtBy(s: Snapshot, p: Player): Option<int> {
    if p == 0 then s.caught.0 else s.caught.1
  }

  function ScoreOf(s: Snapshot, p: Player): int {
    if p == 0 then s.scores.0 else s.scores.1
  }
}
