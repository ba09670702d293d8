/**
 * The rules library's board view and the one mutation the search performs on
 * it: copy the view, optionally play a move, hand the turn over and recompute
 * the legal moves. Capture resolution and frontier computation belong to the
 * library; they enter the model as the two functions of an `Engine`.
 */
module Game {
  import opened Wrappers
  import opened Grid

  /** What the library recomputes for a board: each side's legal moves and the game-over flag. */
  datatype Status = Status(blackMoves: seq<Coord>, whiteMoves: seq<Coord>, over: bool)

  /** A read-only snapshot: the squares, whose turn it is, the opponent, and the recomputed status. */
  datatype View = View(cells: Board, current: Player, other: Player, status: Status)

  /** The frontier of `p`: the squares where `p` may legally place a disc, in iteration order. */
  function Frontier(v: View, p: Player): seq<Coord> {
    if p == Black then v.status.blackMoves else v.status.whiteMoves
  }

  /** The library's game-over flag. */
  predicate IsGameOver(v: View) {
    v.status.over
  }

  /**
   * The rules library as seen from the search: `applyMove` resolves a move
   * (placing the disc and flipping captured discs), `recompute` computes the
   * frontiers and the game-over flag of a board with the given side to move.
   */
  datatype Engine = Engine(applyMove: (View, Coord) -> Board, recompute: (Board, Player) -> Status)

  /**
   * The view of a child position: on a copy of `v`, play `move` (nothing for
   * a pass), make the other side the side to move and recompute the frontiers.
   */
  function NextView(e: Engine, v: View, move: Option<Coord>): View {
    var cells := if move.Some? then e.applyMove(v, move.value) else v.cells;
    View(cells, v.other, v.current, e.recompute(cells, v.other))
  }
}
