/**
 * Edge stability from the heuristics: a corner disc can never be flipped, and
 * an edge disc is counted as stable when the squares between it and one end
 * of its edge all hold its colour. Interior discs are never stable.
 */
module Stability {
  import opened Wrappers
  import opened Grid

  /** The four directions a walk along an edge may take. */
  predicate IsUnitStep(dRow: int, dCol: int) {
    || (dRow == 0 && (dCol == 1 || dCol == -1))
    || (dCol == 0 && (dRow == 1 || dRow == -1))
  }

  predicate InBounds(r: int, c: int) {
    0 <= r < 8 && 0 <= c < 8
  }

  /** How many more steps a walk from (r, c) can make before it leaves the board. */
  function Remaining(r: int, c: int, dRow: int, dCol: int): int {
    if dRow == 1 then 8 - r
    else if dRow == -1 then r + 1
    else if dCol == 1 then 8 - c
    else c + 1
  }

  /** The walk of `checkLineToCorner`: from (r, c) on, every square up to the edge of the board holds `p`. */
  function ScanLine(b: Board, r: int, c: int, dRow: int, dCol: int, p: Player): bool
    requires IsUnitStep(dRow, dCol)
    decreases Remaining(r, c, dRow, dCol)
  {
    if !InBounds(r, c) then true
    else if b[r][c] != Some(p) then false
    else ScanLine(b, r + dRow, c + dCol, dRow, dCol, p)
  }

  /** `checkLineToCorner`: the walk starts one step away from (row, col). */
  function CheckLineToCorner(b: Board, row: int, col: int, dRow: int, dCol: int, p: Player): bool
    requires IsUnitStep(dRow, dCol)
  {
    ScanLine(b, row + dRow, col + dCol, dRow, dCol, p)
  }

  /** `isEdgeStable`: a solid line to at least one end of the disc's edge. */
  function IsEdgeStable(b: Board, row: int, col: int, p: Player): bool {
    if row == 0 then
      CheckLineToCorner(b, row, col, 0, -1, p) || CheckLineToCorner(b, row, col, 0, 1, p)
    else if row == 7 then
      CheckLineToCorner(b, row, col, 0, -1, p) || CheckLineToCorner(b, row, col, 0, 1, p)
    else if col == 0 then
      CheckLineToCorner(b, row, col, -1, 0, p) || CheckLineToCorner(b, row, col, 1, 0, p)
    else if col == 7 then
      CheckLineToCorner(b, row, col, -1, 0, p) || CheckLineToCorner(b, row, col, 1, 0, p)
    else
      false
  }

  /** `isStablePiece`: corners always, edges when edge-stable, interior never. */
  function IsStablePiece(b: Board, row: int, col: int, p: Player): bool {
    if IsCorner(row, col) then true
    else if OnBorder(row, col) then IsEdgeStable(b, row, col, p)
    else false
  }

  /**
   * The intended meaning of stability for a square (i, j) of the board, stated
   * without walks: on the top or bottom row, every square to its left or every
   * square to its right holds `p`; on the left or right column, every square
   * above it or every square below it holds `p`.
   */
  ghost predicate SolidToEnd(b: Board, i: int, j: int, p: Player)
    requires InBounds(i, j)
  {
    if i == 0 || i == 7 then
      (forall k :: 0 <= k < j ==> b[i][k] == Some(p)) || (forall k :: j < k < 8 ==> b[i][k] == Some(p))
    else
      (forall k :: 0 <= k < i ==> b[k][j] == Some(p)) || (forall k :: i < k < 8 ==> b[k][j] == Some(p))
  }

  lemma {:induction false} ScanLeft(b: Board, r: int, c: int, p: Player)
    requires 0 <= r < 8 && -1 <= c < 8
    ensures ScanLine(b, r, c, 0, -1, p) <==> forall k :: 0 <= k <= c ==> b[r][k] == Some(p)
    decreases c + 1
  {
    if 0 <= c {
      ScanLeft(b, r, c - 1, p);
    }
  }

  lemma {:induction false} ScanRight(b: Board, r: int, c: int, p: Player)
    requires 0 <= r < 8 && 0 <= c <= 8
    ensures ScanLine(b, r, c, 0, 1, p) <==> forall k :: c <= k < 8 ==> b[r][k] == Some(p)
    decreases 8 - c
  {
    if c < 8 {
      ScanRight(b, r, c + 1, p);
    }
  }

  lemma {:induction false} ScanUp(b: Board, r: int, c: int, p: Player)
    requires -1 <= r < 8 && 0 <= c < 8
    ensures ScanLine(b, r, c, -1, 0, p) <==> forall k :: 0 <= k <= r ==> b[k][c] == Some(p)
    decreases r + 1
  {
    if 0 <= r {
      ScanUp(b, r - 1, c, p);
    }
  }

  lemma {:induction false} ScanDown(b: Board, r: int, c: int, p: Player)
    requires 0 <= r <= 8 && 0 <= c < 8
    ensures ScanLine(b, r, c, 1, 0, p) <==> forall k :: r <= k < 8 ==> b[k][c] == Some(p)
    decreases 8 - r
  {
    if r < 8 {
      ScanDown(b, r + 1, c, p);
    }
  }

  /**
   * Corner discs are always stable, interior discs never, and an edge disc is
   * stable exactly when the squares between it and one end of its edge all hold
   * the same colour.
   */
  lemma StablePieceMeaning(b: Board, i: int, j: int, p: Player)
    requires InBounds(i, j)
    ensures IsCorner(i, j) ==> IsStablePiece(b, i, j, p)
    ensures !OnBorder(i, j) ==> !IsStablePiece(b, i, j, p)
    ensures OnBorder(i, j) && !IsCorner(i, j) ==> (IsStablePiece(b, i, j, p) <==> SolidToEnd(b, i, j, p))
  {
    if OnBorder(i, j) && !IsCorner(i, j) {
      if i == 0 || i == 7 {
        ScanLeft(b, i, j - 1, p);
        ScanRight(b, i, j + 1, p);
      } else {
        ScanUp(b, i - 1, j, p);
        ScanDown(b, i + 1, j, p);
      }
    }
  }
}
