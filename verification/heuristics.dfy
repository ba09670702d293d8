/**
 * The static evaluation of a non-terminal position: eight features, each a
 * normalised and weighted balance between the max player and the min player,
 * summed and clamped to [-1, 1]. Doubles are modelled as reals.
 */
module Heuristics {
  import opened Wrappers
  import opened Grid
  import opened Counting
  import opened Game
  import opened SearchNode

  /** `(a - b) / (a + b)`: how far two counts lean to the first. */
  function Balance(a: nat, b: nat): (r: real)
    requires a + b > 0
    ensures -1.0 <= r <= 1.0
    ensures r > 0.0 <==> a > b
    ensures r < 0.0 <==> a < b
  {
    var d := (a - b) as real;
    var s := (a + b) as real;
    assert -s <= d <= s;
    DivideWithin(d, s);
    d / s
  }

  lemma DivideWithin(d: real, s: real)
    requires s > 0.0 && -s <= d <= s
    ensures -1.0 <= d / s <= 1.0
    ensures d / s > 0.0 <==> d > 0.0
    ensures d / s < 0.0 <==> d < 0.0
  {
    var q := d / s;
    assert q * s == d;
    if q > 0.0 {
      assert q * s > 0.0;
    }
    if q < 0.0 {
      assert q * s < 0.0;
    }
    if d > 0.0 {
      assert q > 0.0;
    }
    if d < 0.0 {
      assert q < 0.0;
    }
  }

  /** Exchanging the two counts negates their balance. */
  lemma BalanceSwap(a: nat, b: nat)
    requires a + b > 0
    ensures Balance(b, a) == -Balance(a, b)
  {
    var s := (a + b) as real;
    assert (b - a) as real / s == -((a - b) as real / s);
  }

  /** A ratio in [-1, 1] scaled by a weight: `w * x`. */
  function Weighted(w: real, x: real): (r: real)
    ensures 0.0 <= w <= 1.0 && -1.0 <= x <= 1.0 ==> -1.0 <= r <= 1.0
    ensures w > 0.0 ==> (r > 0.0 <==> x > 0.0) && (r < 0.0 <==> x < 0.0)
  {
    ScaledWithin(w, x);
    PositiveScaleSign(w, x);
    w * x
  }

  /** Scaling commutes with negation. */
  lemma WeightedNegate(w: real, x: real)
    ensures Weighted(w, -x) == -Weighted(w, x)
  {
  }

  lemma ScaledWithin(w: real, x: real)
    ensures 0.0 <= w <= 1.0 && -1.0 <= x <= 1.0 ==> -1.0 <= w * x <= 1.0
  {
    if !(0.0 <= w <= 1.0 && -1.0 <= x <= 1.0) {
    } else if x >= 0.0 {
      assert w * x <= 1.0 * x;
    } else {
      assert w * x >= 1.0 * x;
    }
  }

  // ---------------------------------------------------------------- pieces

  /** The piece weight: 0.1 before 32 discs are on the board, 0.3 from then on. */
  function PhaseWeight(total: nat): real {
    if total < 32 then 0.1 else 0.3
  }

  /** The material score of two disc counts: their balance, weighted by the phase of the game. */
  function Material(c: Counts): (r: real)
    ensures -0.3 <= r <= 0.3
    ensures c.max + c.min < 32 ==> -0.1 <= r <= 0.1
  {
    if c.max + c.min == 0 then 0.0
    else Weighted(PhaseWeight(c.max + c.min), Balance(c.max, c.min))
  }

  /** Exchanging the two counts negates the material score. */
  lemma MaterialSwap(c: Counts)
    ensures Material(Counts(c.min, c.max)) == -Material(c)
  {
    if c.max + c.min > 0 {
      BalanceSwap(c.max, c.min);
      WeightedNegate(PhaseWeight(c.max + c.min), Balance(c.max, c.min));
    }
  }

  /** Material: the disc balance, weighted by the phase of the game. */
  function PieceScore(v: View, maxP: Player, minP: Player): (r: real)
    ensures -0.3 <= r <= 0.3
  {
    Material(Count(v.cells, AllSquares, maxP, minP))
  }

  /**
   * With two different players: the material score leans to the side with
   * more discs, is 0 on equal counts (no discs included), and stays within
   * 0.1 while fewer than 32 discs are on the board.
   */
  lemma PieceScoreMeaning(v: View, maxP: Player, minP: Player)
    requires maxP != minP
    ensures var mine := Owned(v.cells, AllSquares, maxP);
            var theirs := Owned(v.cells, AllSquares, minP);
            && (PieceScore(v, maxP, minP) > 0.0 <==> mine > theirs)
            && (PieceScore(v, maxP, minP) < 0.0 <==> mine < theirs)
    ensures var mine := Owned(v.cells, AllSquares, maxP);
            var theirs := Owned(v.cells, AllSquares, minP);
            PieceScore(v, maxP, minP)
              == if mine + theirs == 0 then 0.0 else PhaseWeight(mine + theirs) * Balance(mine, theirs)
    ensures Occupied(v.cells) < 32 ==> -0.1 <= PieceScore(v, maxP, minP) <= 0.1
  {
    CountIsOwned(v.cells, AllSquares, maxP, minP);
    OccupiedByTwo(v.cells, maxP, minP);
  }

  /** Every disc belongs to one of two different players. */
  lemma OccupiedByTwo(b: Board, maxP: Player, minP: Player)
    requires maxP != minP
    ensures Count(b, AllSquares, maxP, minP).max + Count(b, AllSquares, maxP, minP).min == Occupied(b)
  {
    CountIsOwned(b, AllSquares, maxP, minP);
    CountIsOwned(b, AllSquares, Black, White);
    assert {maxP, minP} == {Black, White};
  }

  // --------------------------------------------------------------- corners

  /** Corner control: the signed number of corners held, out of the four corners. */
  function CornerScore(v: View, maxP: Player, minP: Player): (r: real)
    ensures -0.4 <= r <= 0.4
  {
    var c := Count(v.cells, Corners, maxP, minP);
    CountWithinArea(v.cells, Corners, maxP, minP);
    CornerArea();
    if c.max + c.min == 0 then 0.0
    else 0.4 * ((c.max - c.min) as real / 4.0)
  }

  /** With two different players: 0.4 times the corner difference over 4. */
  lemma CornerScoreMeaning(v: View, maxP: Player, minP: Player)
    requires maxP != minP
    ensures CornerScore(v, maxP, minP)
            == 0.4 * ((Owned(v.cells, Corners, maxP) - Owned(v.cells, Corners, minP)) as real / 4.0)
  {
    CountIsOwned(v.cells, Corners, maxP, minP);
  }

  // ----------------------------------------------------------------- edges

  /** Edge occupancy: the signed number of non-corner border squares held, out of 24. */
  function EdgeScore(v: View, maxP: Player, minP: Player): (r: real)
    ensures -0.2 <= r <= 0.2
  {
    var c := Count(v.cells, Edges, maxP, minP);
    CountWithinArea(v.cells, Edges, maxP, minP);
    EdgeArea();
    if c.max + c.min == 0 then 0.0
    else 0.2 * ((c.max - c.min) as real / 24.0)
  }

  /** With two different players: 0.2 times the edge difference over 24. */
  lemma EdgeScoreMeaning(v: View, maxP: Player, minP: Player)
    requires maxP != minP
    ensures EdgeScore(v, maxP, minP)
            == 0.2 * ((Owned(v.cells, Edges, maxP) - Owned(v.cells, Edges, minP)) as real / 24.0)
  {
    CountIsOwned(v.cells, Edges, maxP, minP);
  }

  // -------------------------------------------------------------- mobility

  /** Mobility: the balance of the two sides' numbers of legal moves. */
  function ChanceScore(v: View, maxP: Player, minP: Player): (r: real)
    ensures -0.15 <= r <= 0.15
    ensures r > 0.0 <==> |Frontier(v, maxP)| > |Frontier(v, minP)|
    ensures r < 0.0 <==> |Frontier(v, maxP)| < |Frontier(v, minP)|
  {
    var a := |Frontier(v, maxP)|;
    var b := |Frontier(v, minP)|;
    if a + b == 0 then 0.0
    else 0.15 * Balance(a, b)
  }

  // ------------------------------------------------------------ positional

  /** Per-square desirability: corners best, the squares next to corners worst. */
  const Weights: seq<seq<int>> := [
    [ 100, -20,  10,   5,   5,  10, -20, 100],
    [ -20, -40,  -5,  -5,  -5,  -5, -40, -20],
    [  10,  -5,   5,   1,   1,   5,  -5,  10],
    [   5,  -5,   1,   1,   1,   1,  -5,   5],
    [   5,  -5,   1,   1,   1,   1,  -5,   5],
    [  10,  -5,   5,   1,   1,   5,  -5,  10],
    [ -20, -40,  -5,  -5,  -5,  -5, -40, -20],
    [ 100, -20,  10,   5,   5,  10, -20, 100]
  ]

  /** The weight of square (i, j); no square weighs more than a corner. */
  function Weight(i: int, j: int): (w: int)
    requires 0 <= i < 8 && 0 <= j < 8
    ensures -100 <= w <= 100
  {
    Weights[i][j]
  }

  /** The weight table as a total function of (row, column); 0 off the board. */
  function SquareWeight(i: int, j: int): (w: int)
    ensures -100 <= w <= 100
  {
    if 0 <= i < 8 && 0 <= j < 8 then Weight(i, j) else 0
  }

  /** Two weight totals: the max player's squares and the min player's. */
  datatype Sums = Sums(max: int, min: int)

  /** The positional loop from square (i, j) on, in row-major order, for the weights `w`. */
  function PositionalFrom(b: Board, w: (int, int) -> int, maxP: Player, minP: Player, i: nat, j: nat): Sums
    requires i <= 8 && j <= 8
    decreases |b| - i, 8 - j
  {
    if i == 8 then Sums(0, 0)
    else if j == 8 then PositionalFrom(b, w, maxP, minP, i + 1, 0)
    else
      var rest := PositionalFrom(b, w, maxP, minP, i, j + 1);
      if b[i][j] == Some(maxP) then rest.(max := rest.max + w(i, j))
      else if b[i][j] == Some(minP) then rest.(min := rest.min + w(i, j))
      else rest
  }

  /** Reference total: the weights of the squares from (i, j) on that hold a disc of `p`. */
  function WeightFrom(b: Board, w: (int, int) -> int, p: Player, i: nat, j: nat): int
    requires i <= 8 && j <= 8
    decreases |b| - i, 8 - j
  {
    if i == 8 then 0
    else if j == 8 then WeightFrom(b, w, p, i + 1, 0)
    else
      (if b[i][j] == Some(p) then w(i, j) else 0) + WeightFrom(b, w, p, i, j + 1)
  }

  /** Number of squares from (i, j) on, in row-major order. */
  function SquaresFrom(i: nat, j: nat): nat
    requires i <= 8 && j <= 8
  {
    if i == 8 then 0 else (8 - i) * 8 - j
  }

  lemma {:induction false} PositionalIsWeight(b: Board, w: (int, int) -> int, maxP: Player, minP: Player, i: nat, j: nat)
    requires maxP != minP && i <= 8 && j <= 8
    ensures PositionalFrom(b, w, maxP, minP, i, j).max == WeightFrom(b, w, maxP, i, j)
    ensures PositionalFrom(b, w, maxP, minP, i, j).min == WeightFrom(b, w, minP, i, j)
    decreases 8 - i, 8 - j
  {
    if i == 8 {
    } else if j == 8 {
      PositionalIsWeight(b, w, maxP, minP, i + 1, 0);
    } else {
      PositionalIsWeight(b, w, maxP, minP, i, j + 1);
    }
  }

  lemma {:induction false} PositionalFromSwap(b: Board, w: (int, int) -> int, maxP: Player, minP: Player, i: nat, j: nat)
    requires maxP != minP && i <= 8 && j <= 8
    ensures PositionalFrom(b, w, minP, maxP, i, j).max == PositionalFrom(b, w, maxP, minP, i, j).min
    ensures PositionalFrom(b, w, minP, maxP, i, j).min == PositionalFrom(b, w, maxP, minP, i, j).max
    decreases 8 - i, 8 - j
  {
    if i == 8 {
    } else if j == 8 {
      PositionalFromSwap(b, w, maxP, minP, i + 1, 0);
    } else {
      PositionalFromSwap(b, w, maxP, minP, i, j + 1);
    }
  }

  /** With weights within 100, each visited square moves the difference of the totals by at most 100. */
  lemma {:induction false} PositionalBounded(b: Board, w: (int, int) -> int, maxP: Player, minP: Player, i: nat, j: nat)
    requires forall r, c :: -100 <= w(r, c) <= 100
    requires i <= 8 && j <= 8
    ensures var t := PositionalFrom(b, w, maxP, minP, i, j);
            -100 * SquaresFrom(i, j) <= t.max - t.min <= 100 * SquaresFrom(i, j)
    decreases 8 - i, 8 - j
  {
    if i == 8 {
    } else if j == 8 {
      PositionalBounded(b, w, maxP, minP, i + 1, 0);
      assert SquaresFrom(i, j) == SquaresFrom(i + 1, 0);
    } else {
      PositionalBounded(b, w, maxP, minP, i, j + 1);
      assert -100 <= w(i, j) <= 100;
      assert SquaresFrom(i, j) == SquaresFrom(i, j + 1) + 1;
    }
  }

  /** The two positional totals over the whole board. */
  function Positional(b: Board, maxP: Player, minP: Player): (t: Sums)
    ensures -6400 <= t.max - t.min <= 6400
  {
    PositionalBounded(b, SquareWeight, maxP, minP, 0, 0);
    PositionalFrom(b, SquareWeight, maxP, minP, 0, 0)
  }

  /** The positional score: the weight difference over twice the 6400 of a board of corners. */
  function PositionalScore(v: View, maxP: Player, minP: Player): (r: real)
    ensures -0.05 <= r <= 0.05
  {
    var t := Positional(v.cells, maxP, minP);
    if t.max == 0 && t.min == 0 then 0.0
    else 0.1 * ((t.max - t.min) as real / (2.0 * 6400.0))
  }

  /** With two different players: 0.1 times the weight difference over 12800. */
  lemma PositionalScoreMeaning(v: View, maxP: Player, minP: Player)
    requires maxP != minP
    ensures PositionalScore(v, maxP, minP)
            == 0.1 * ((WeightFrom(v.cells, SquareWeight, maxP, 0, 0) - WeightFrom(v.cells, SquareWeight, minP, 0, 0)) as real / 12800.0)
  {
    PositionalIsWeight(v.cells, SquareWeight, maxP, minP, 0, 0);
  }

  // ------------------------------------------------------------- stability

  /** Stability: the balance of the two sides' stable discs. */
  function StabilityScore(v: View, maxP: Player, minP: Player): (r: real)
    ensures -0.25 <= r <= 0.25
  {
    var c := Count(v.cells, StableDiscs, maxP, minP);
    if c.max + c.min == 0 then 0.0
    else 0.25 * Balance(c.max, c.min)
  }

  /** With two different players: the stability score leans to the side with more stable discs. */
  lemma StabilityScoreMeaning(v: View, maxP: Player, minP: Player)
    requires maxP != minP
    ensures var mine := Owned(v.cells, StableDiscs, maxP);
            var theirs := Owned(v.cells, StableDiscs, minP);
            && (StabilityScore(v, maxP, minP) > 0.0 <==> mine > theirs)
            && (StabilityScore(v, maxP, minP) < 0.0 <==> mine < theirs)
    ensures var mine := Owned(v.cells, StableDiscs, maxP);
            var theirs := Owned(v.cells, StableDiscs, minP);
            StabilityScore(v, maxP, minP) == if mine + theirs == 0 then 0.0 else 0.25 * Balance(mine, theirs)
  {
    CountIsOwned(v.cells, StableDiscs, maxP, minP);
  }

  // ---------------------------------------------------- piece differential

  /** The endgame weight `min(1, (total - 50) / 14)`. */
  function EndgameWeight(total: nat): (w: real)
    requires total >= 50
    ensures 0.0 <= w <= 1.0
    ensures w > 0.0 <==> total > 50
    ensures w == 1.0 <==> total >= 64
  {
    var x := (total - 50) as real / 14.0;
    if 1.0 <= x then 1.0 else x
  }

  /** The endgame score for `total` discs on the board and the two sides' counts. */
  function Differential(total: nat, c: Counts): (r: real)
    ensures -0.3 <= r <= 0.3
    ensures total < 50 ==> r == 0.0
  {
    if total < 50 then 0.0
    else if c.max + c.min == 0 then 0.0
    else 0.3 * Weighted(EndgameWeight(total), Balance(c.max, c.min))
  }

  /** Exchanging the two counts negates the endgame score. */
  lemma DifferentialSwap(total: nat, c: Counts)
    ensures Differential(total, Counts(c.min, c.max)) == -Differential(total, c)
  {
    if total >= 50 && c.max + c.min > 0 {
      BalanceSwap(c.max, c.min);
      WeightedNegate(EndgameWeight(total), Balance(c.max, c.min));
    }
  }

  /** Endgame material: from 50 discs on, the disc balance scaled by the endgame weight. */
  function PieceDifferentialScore(v: View, maxP: Player, minP: Player): (r: real)
    ensures -0.3 <= r <= 0.3
    ensures Occupied(v.cells) < 50 ==> r == 0.0
  {
    Differential(Occupied(v.cells), Count(v.cells, AllSquares, maxP, minP))
  }

  /** With two different players and more than 50 discs (at exactly 50 the weight is 0), the score leans to the side with more discs. */
  lemma PieceDifferentialMeaning(v: View, maxP: Player, minP: Player)
    requires maxP != minP && Occupied(v.cells) > 50
    ensures var mine := Owned(v.cells, AllSquares, maxP);
            var theirs := Owned(v.cells, AllSquares, minP);
            && (PieceDifferentialScore(v, maxP, minP) > 0.0 <==> mine > theirs)
            && (PieceDifferentialScore(v, maxP, minP) < 0.0 <==> mine < theirs)
    ensures var mine := Owned(v.cells, AllSquares, maxP);
            var theirs := Owned(v.cells, AllSquares, minP);
            PieceDifferentialScore(v, maxP, minP)
              == if mine + theirs == 0 then 0.0 else 0.3 * (EndgameWeight(Occupied(v.cells)) * Balance(mine, theirs))
  {
    var b := v.cells;
    CountIsOwned(b, AllSquares, maxP, minP);
    OccupiedByTwo(b, maxP, minP);
    DifferentialSign(Occupied(b), Count(b, AllSquares, maxP, minP));
  }

  lemma DifferentialSign(total: nat, c: Counts)
    requires total > 50 && c.max + c.min > 0
    ensures Differential(total, c) > 0.0 <==> c.max > c.min
    ensures Differential(total, c) < 0.0 <==> c.max < c.min
  {
  }

  lemma PositiveScaleSign(w: real, x: real)
    ensures w > 0.0 ==> (w * x > 0.0 <==> x > 0.0) && (w * x < 0.0 <==> x < 0.0)
  {
    if w <= 0.0 {
    } else if x > 0.0 {
      assert w * x > 0.0;
    } else if x < 0.0 {
      assert w * x < 0.0;
    }
  }

  // ---------------------------------------------------------------- centre

  /** Central control: the signed number of squares held in rows and columns 2 to 5, out of 16. */
  function CentralControlScore(v: View, maxP: Player, minP: Player): (r: real)
    ensures -0.15 <= r <= 0.15
  {
    var c := Count(v.cells, Center, maxP, minP);
    CountWithinArea(v.cells, Center, maxP, minP);
    CenterArea();
    if c.max + c.min == 0 then 0.0
    else 0.15 * ((c.max - c.min) as real / 16.0)
  }

  /** With two different players: 0.15 times the central difference over 16. */
  lemma CentralControlMeaning(v: View, maxP: Player, minP: Player)
    requires maxP != minP
    ensures CentralControlScore(v, maxP, minP)
            == 0.15 * ((Owned(v.cells, Center, maxP) - Owned(v.cells, Center, minP)) as real / 16.0)
  {
    CountIsOwned(v.cells, Center, maxP, minP);
  }

  // ----------------------------------------------------------------- total

  /** The unclamped total of the eight features. */
  function FeatureSum(v: View, maxP: Player, minP: Player): real {
    PieceScore(v, maxP, minP) + CornerScore(v, maxP, minP) + EdgeScore(v, maxP, minP)
    + ChanceScore(v, maxP, minP) + PositionalScore(v, maxP, minP) + StabilityScore(v, maxP, minP)
    + PieceDifferentialScore(v, maxP, minP) + CentralControlScore(v, maxP, minP)
  }

  /** `Math.max(-1.0, Math.min(1.0, x))`. */
  function Clamp(x: real): (r: real)
    ensures -1.0 <= r <= 1.0
    ensures -1.0 <= x <= 1.0 ==> r == x
    ensures x > 1.0 ==> r == 1.0
    ensures x < -1.0 ==> r == -1.0
  {
    if x > 1.0 then 1.0 else if x < -1.0 then -1.0 else x
  }

  /** The static evaluation of a node for its max player. */
  function HeuristicValue(n: Node): (r: real)
    ensures -1.0 <= r <= 1.0
  {
    Clamp(FeatureSum(n.view, n.maxPlayer, MinPlayer(n)))
  }

  lemma PieceScoreSwap(v: View, maxP: Player, minP: Player)
    requires maxP != minP
    ensures PieceScore(v, minP, maxP) == -PieceScore(v, maxP, minP)
  {
    var c := Count(v.cells, AllSquares, maxP, minP);
    CountSwap(v.cells, AllSquares, maxP, minP);
    assert Count(v.cells, AllSquares, minP, maxP) == Counts(c.min, c.max);
    MaterialSwap(c);
  }

  lemma CornerScoreSwap(v: View, maxP: Player, minP: Player)
    requires maxP != minP
    ensures CornerScore(v, minP, maxP) == -CornerScore(v, maxP, minP)
  {
    CountSwap(v.cells, Corners, maxP, minP);
  }

  lemma EdgeScoreSwap(v: View, maxP: Player, minP: Player)
    requires maxP != minP
    ensures EdgeScore(v, minP, maxP) == -EdgeScore(v, maxP, minP)
  {
    CountSwap(v.cells, Edges, maxP, minP);
  }

  lemma ChanceScoreSwap(v: View, maxP: Player, minP: Player)
    ensures ChanceScore(v, minP, maxP) == -ChanceScore(v, maxP, minP)
  {
    var a := |Frontier(v, maxP)|;
    var b := |Frontier(v, minP)|;
    if a + b > 0 {
      BalanceSwap(a, b);
    }
  }

  lemma PositionalScoreSwap(v: View, maxP: Player, minP: Player)
    requires maxP != minP
    ensures PositionalScore(v, minP, maxP) == -PositionalScore(v, maxP, minP)
  {
    PositionalFromSwap(v.cells, SquareWeight, maxP, minP, 0, 0);
    var t := Positional(v.cells, maxP, minP);
    var u := Positional(v.cells, minP, maxP);
    assert u.max == t.min && u.min == t.max;
  }

  lemma StabilityScoreSwap(v: View, maxP: Player, minP: Player)
    requires maxP != minP
    ensures StabilityScore(v, minP, maxP) == -StabilityScore(v, maxP, minP)
  {
    var c := Count(v.cells, StableDiscs, maxP, minP);
    CountSwap(v.cells, StableDiscs, maxP, minP);
    if c.max + c.min > 0 {
      BalanceSwap(c.max, c.min);
    }
  }

  lemma PieceDifferentialSwap(v: View, maxP: Player, minP: Player)
    requires maxP != minP
    ensures PieceDifferentialScore(v, minP, maxP) == -PieceDifferentialScore(v, maxP, minP)
  {
    var c := Count(v.cells, AllSquares, maxP, minP);
    CountSwap(v.cells, AllSquares, maxP, minP);
    assert Count(v.cells, AllSquares, minP, maxP) == Counts(c.min, c.max);
    DifferentialSwap(Occupied(v.cells), c);
  }

  lemma CentralControlSwap(v: View, maxP: Player, minP: Player)
    requires maxP != minP
    ensures CentralControlScore(v, minP, maxP) == -CentralControlScore(v, maxP, minP)
  {
    CountSwap(v.cells, Center, maxP, minP);
  }

  /** Exchanging the two players negates every feature, and so the total. */
  lemma FeatureSumSwap(v: View, maxP: Player, minP: Player)
    requires maxP != minP
    ensures FeatureSum(v, minP, maxP) == -FeatureSum(v, maxP, minP)
  {
    PieceScoreSwap(v, maxP, minP);
    CornerScoreSwap(v, maxP, minP);
    EdgeScoreSwap(v, maxP, minP);
    ChanceScoreSwap(v, maxP, minP);
    PositionalScoreSwap(v, maxP, minP);
    StabilityScoreSwap(v, maxP, minP);
    PieceDifferentialSwap(v, maxP, minP);
    CentralControlSwap(v, maxP, minP);
  }

  /**
   * Evaluating the same position for the opponent negates the evaluation,
   * clamp included.
   */
  lemma HeuristicValueSwap(n: Node)
    requires n.view.current != n.view.other
    ensures HeuristicValue(n.(maxPlayer := Opponent(n.maxPlayer))) == -HeuristicValue(n)
  {
    var m := n.(maxPlayer := Opponent(n.maxPlayer));
    assert MinPlayer(m) == n.maxPlayer;
    FeatureSumSwap(n.view, n.maxPlayer, MinPlayer(n));
  }
}
