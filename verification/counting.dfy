/**
 * The counting loops of the search: every feature and the terminal utility
 * walk the board and tally, for some set of squares, how many hold a disc of
 * the max player and how many one of the min player.
 */
module Counting {
  import opened Wrappers
  import opened Grid
  import Stability

  /** The squares a counting loop looks at. */
  datatype Region =
    | AllSquares   // the whole board
    | Corners      // (0,0), (0,7), (7,0), (7,7)
    | Edges        // border squares that are not corners
    | Center       // rows and columns 2 to 5
    | StableDiscs  // discs that the stability rule accepts

  /** The positional part of a region, independent of the board's contents. */
  predicate InArea(reg: Region, i: int, j: int) {
    match reg
    case AllSquares => true
    case StableDiscs => true
    case Corners => IsCorner(i, j)
    case Edges => OnBorder(i, j) && !IsCorner(i, j)
    case Center => 2 <= i <= 5 && 2 <= j <= 5
  }

  /**
   * The squares of `b` that a loop over `reg` counts, as a test on (row, column).
   * The stability loop skips empty squares and counts a disc only when it is stable.
   */
  function Selection(b: Board, reg: Region): (int, int) -> bool {
    (i, j) =>
      && 0 <= i < 8 && 0 <= j < 8
      && InArea(reg, i, j)
      && (reg == StableDiscs ==> b[i][j].Some? && Stability.IsStablePiece(b, i, j, b[i][j].value))
  }

  /** A pair of disc counts: the max player's and the min player's. */
  datatype Counts = Counts(max: nat, min: nat)

  /** One step of a counting loop: `if (owner == max) ... else if (owner == min) ...`. */
  function Tally(owner: Cell, maxP: Player, minP: Player, t: Counts): Counts {
    if owner == Some(maxP) then t.(max := t.max + 1)
    else if owner == Some(minP) then t.(min := t.min + 1)
    else t
  }

  /** The squares of a region, as a selection. */
  function AreaSelection(reg: Region): (int, int) -> bool {
    (i, j) => InArea(reg, i, j)
  }

  /** Number of squares of row i, from column j on, that `sel` accepts. */
  function SelectedInRow(sel: (int, int) -> bool, i: int, j: nat): nat
    requires j <= 8
    decreases 8 - j
  {
    if j == 8 then 0 else (if sel(i, j) then 1 else 0) + SelectedInRow(sel, i, j + 1)
  }

  /** Number of squares of rows i to 7 that `sel` accepts. */
  function SelectedInRows(sel: (int, int) -> bool, i: nat): nat
    requires i <= 8
    decreases 8 - i
  {
    if i == 8 then 0 else SelectedInRow(sel, i, 0) + SelectedInRows(sel, i + 1)
  }

  /** Number of squares of `reg` on the board. */
  function Area(reg: Region): nat {
    SelectedInRows(AreaSelection(reg), 0)
  }

  /**
   * The source's nested loops over rows and columns, from square (i, j) on:
   * the counts of the selected squares still to be visited.
   */
  function CountFrom(b: Board, sel: (int, int) -> bool, maxP: Player, minP: Player, i: nat, j: nat): (t: Counts)
    requires i <= 8 && j <= 8
    decreases |b| - i, 8 - j
  {
    if i == 8 then Counts(0, 0)
    else if j == 8 then CountFrom(b, sel, maxP, minP, i + 1, 0)
    else
      var rest := CountFrom(b, sel, maxP, minP, i, j + 1);
      if sel(i, j) then Tally(b[i][j], maxP, minP, rest) else rest
  }

  /** The counts of the squares of `reg` over the whole board. */
  function Count(b: Board, reg: Region, maxP: Player, minP: Player): Counts {
    CountFrom(b, Selection(b, reg), maxP, minP, 0, 0)
  }

  /** Reference count: squares of `reg` from (i, j) on that hold a disc of `p`. */
  function OwnedFrom(b: Board, sel: (int, int) -> bool, p: Player, i: nat, j: nat): nat
    requires i <= 8 && j <= 8
    decreases |b| - i, 8 - j
  {
    if i == 8 then 0
    else if j == 8 then OwnedFrom(b, sel, p, i + 1, 0)
    else (if sel(i, j) && b[i][j] == Some(p) then 1 else 0) + OwnedFrom(b, sel, p, i, j + 1)
  }

  /** Reference count: how many squares of `reg` hold a disc of `p`. */
  function Owned(b: Board, reg: Region, p: Player): nat {
    OwnedFrom(b, Selection(b, reg), p, 0, 0)
  }

  /** Number of non-empty squares; every disc is Black or White. */
  function Occupied(b: Board): nat {
    var t := Count(b, AllSquares, Black, White);
    t.max + t.min
  }

  lemma {:induction false} CountFromIsOwned(b: Board, sel: (int, int) -> bool, maxP: Player, minP: Player, i: nat, j: nat)
    requires maxP != minP && i <= 8 && j <= 8
    ensures CountFrom(b, sel, maxP, minP, i, j) == Counts(OwnedFrom(b, sel, maxP, i, j), OwnedFrom(b, sel, minP, i, j))
    decreases 8 - i, 8 - j
  {
    if i == 8 {
    } else if j == 8 {
      CountFromIsOwned(b, sel, maxP, minP, i + 1, 0);
    } else {
      CountFromIsOwned(b, sel, maxP, minP, i, j + 1);
    }
  }

  /**
   * For two different players the counting loop tallies exactly the discs of
   * each: its `else if` never hides a disc of the min player.
   */
  lemma CountIsOwned(b: Board, reg: Region, maxP: Player, minP: Player)
    requires maxP != minP
    ensures Count(b, reg, maxP, minP) == Counts(Owned(b, reg, maxP), Owned(b, reg, minP))
  {
    CountFromIsOwned(b, Selection(b, reg), maxP, minP, 0, 0);
  }

  /** Exchanging the two players exchanges the two counts. */
  lemma CountSwap(b: Board, reg: Region, maxP: Player, minP: Player)
    requires maxP != minP
    ensures Count(b, reg, minP, maxP).max == Count(b, reg, maxP, minP).min
    ensures Count(b, reg, minP, maxP).min == Count(b, reg, maxP, minP).max
  {
    CountIsOwned(b, reg, maxP, minP);
    CountIsOwned(b, reg, minP, maxP);
  }

  /** Number of squares from (i, j) on, in row-major order, that `sel` accepts. */
  function SelectedFrom(sel: (int, int) -> bool, i: nat, j: nat): nat
    requires i <= 8 && j <= 8
    decreases 8 - i, 8 - j
  {
    if i == 8 then 0
    else if j == 8 then SelectedFrom(sel, i + 1, 0)
    else (if sel(i, j) then 1 else 0) + SelectedFrom(sel, i, j + 1)
  }

  lemma {:induction false} CountFromWithinSelected(b: Board, sel: (int, int) -> bool, maxP: Player, minP: Player, i: nat, j: nat)
    requires i <= 8 && j <= 8
    ensures CountFrom(b, sel, maxP, minP, i, j).max + CountFrom(b, sel, maxP, minP, i, j).min <= SelectedFrom(sel, i, j)
    decreases 8 - i, 8 - j
  {
    if i == 8 {
    } else if j == 8 {
      CountFromWithinSelected(b, sel, maxP, minP, i + 1, 0);
    } else {
      CountFromWithinSelected(b, sel, maxP, minP, i, j + 1);
    }
  }

  lemma {:induction false} SelectedRowThenRest(sel: (int, int) -> bool, i: nat, j: nat)
    requires i < 8 && j <= 8
    ensures SelectedFrom(sel, i, j) == SelectedInRow(sel, i, j) + SelectedFrom(sel, i + 1, 0)
    decreases 8 - j
  {
    if j < 8 {
      SelectedRowThenRest(sel, i, j + 1);
    }
  }

  /** The row-major count agrees with the row-by-row one. */
  lemma {:induction false} SelectedByRows(sel: (int, int) -> bool, i: nat)
    requires i <= 8
    ensures SelectedFrom(sel, i, 0) == SelectedInRows(sel, i)
    decreases 8 - i
  {
    if i < 8 {
      SelectedRowThenRest(sel, i, 0);
      SelectedByRows(sel, i + 1);
    }
  }

  lemma {:induction false} SelectedMono(sel: (int, int) -> bool, sel': (int, int) -> bool, i: nat, j: nat)
    requires i <= 8 && j <= 8
    requires forall r, c :: sel(r, c) ==> sel'(r, c)
    ensures SelectedFrom(sel, i, j) <= SelectedFrom(sel', i, j)
    decreases 8 - i, 8 - j
  {
    if i == 8 {
    } else if j == 8 {
      SelectedMono(sel, sel', i + 1, 0);
    } else {
      SelectedMono(sel, sel', i, j + 1);
    }
  }

  lemma SelectionWithinArea(b: Board, reg: Region)
    ensures forall r, c :: Selection(b, reg)(r, c) ==> AreaSelection(reg)(r, c)
  {
  }

  lemma CountRowsWithinArea(b: Board, reg: Region, maxP: Player, minP: Player, i: nat)
    requires i <= 8
    ensures CountFrom(b, Selection(b, reg), maxP, minP, i, 0).max + CountFrom(b, Selection(b, reg), maxP, minP, i, 0).min
            <= SelectedInRows(AreaSelection(reg), i)
  {
    var sel := Selection(b, reg);
    CountFromWithinSelected(b, sel, maxP, minP, i, 0);
    SelectionWithinArea(b, reg);
    SelectedMono(sel, AreaSelection(reg), i, 0);
    SelectedByRows(AreaSelection(reg), i);
  }

  /** A region never yields more discs than it has squares. */
  lemma CountWithinArea(b: Board, reg: Region, maxP: Player, minP: Player)
    ensures Count(b, reg, maxP, minP).max + Count(b, reg, maxP, minP).min <= Area(reg)
  {
    CountRowsWithinArea(b, reg, maxP, minP, 0);
  }

  /** The four corners. */
  lemma CornerArea()
    ensures Area(Corners) == 4
  {
    var sel := AreaSelection(Corners);
    assert SelectedInRow(sel, 0, 0) == 2;
    assert SelectedInRow(sel, 7, 0) == 2;
    forall i | 1 <= i < 7 ensures SelectedInRow(sel, i, 0) == 0 {}
    assert SelectedInRows(sel, 7) == 2;
  }

  /** The 24 border squares that are not corners. */
  lemma EdgeArea()
    ensures Area(Edges) == 24
  {
    var sel := AreaSelection(Edges);
    assert SelectedInRow(sel, 0, 0) == 6;
    assert SelectedInRow(sel, 7, 0) == 6;
    forall i | 1 <= i < 7 ensures SelectedInRow(sel, i, 0) == 2 {}
    assert SelectedInRows(sel, 7) == 6;
    assert SelectedInRows(sel, 1) == 18;
  }

  /** The central 4 by 4 block. */
  lemma CenterArea()
    ensures Area(Center) == 16
  {
    var sel := AreaSelection(Center);
    forall i | 2 <= i <= 5 ensures SelectedInRow(sel, i, 0) == 4 {}
    forall i | 0 <= i < 2 || 5 < i < 8 ensures SelectedInRow(sel, i, 0) == 0 {}
    assert SelectedInRows(sel, 6) == 0;
  }
}
