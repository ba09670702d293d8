/**
 * The board as the search sees it: an 8 by 8 grid of squares, each empty or
 * holding a disc of one of the two players, and the board geometry (corners
 * and border) that the heuristics use.
 */
module Grid {
  import opened Wrappers

  /** The two sides of the game (the library's player type). */
  datatype Player = Black | White

  /** The side that is not `p`. */
  function Opponent(p: Player): (q: Player)
    ensures q != p
  {
    if p == Black then White else Black
  }

  /** A square: `None` is an empty square, the library's null owner. */
  type Cell = Option<Player>

  /** The board is 8 rows of 8 squares; rows and columns run from 0 to 7. */
  predicate IsGrid(b: seq<seq<Cell>>) {
    |b| == 8 && forall i :: 0 <= i < 8 ==> |b[i]| == 8
  }

  /** A board snapshot; the rules library always hands out 64 squares. */
  type Board = b: seq<seq<Cell>> | IsGrid(b) witness seq(8, i => seq(8, j => None))

  /** A square's row and column. */
  datatype Coord = Coord(row: int, col: int)

  /** The four corner squares (0,0), (0,7), (7,0) and (7,7). */
  predicate IsCorner(i: int, j: int) {
    || (i == 0 && j == 0)
    || (i == 0 && j == 7)
    || (i == 7 && j == 0)
    || (i == 7 && j == 7)
  }

  /** A square in the first or last row or column, corners included. */
  predicate OnBorder(i: int, j: int) {
    i == 0 || i == 7 || j == 0 || j == 7
  }
}
