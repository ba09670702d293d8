/**
 * A position in the search tree: the player the search works for, the board
 * view, the ply distance from the root and the move that led here. Terminal
 * utility and the state-transition rule (child generation) live here.
 */
module SearchNode {
  import opened Wrappers
  import opened Grid
  import opened Counting
  import opened Game

  /** `lastMove == None` marks the root or a forced pass. */
  datatype Node = Node(maxPlayer: Player, view: View, depth: nat, lastMove: Option<Coord>)

  /** The library's terminal test: the game is over. */
  predicate IsTerminal(n: Node) {
    IsGameOver(n.view)
  }

  /**
   * The min player: the other side when the max player is to move, otherwise
   * the side to move.
   */
  function MinPlayer(n: Node): (p: Player)
    ensures p == n.view.current || p == n.view.other
    ensures n.view.current != n.view.other ==> p == Opponent(n.maxPlayer)
    ensures p == n.maxPlayer <==> n.view.current == n.maxPlayer && n.view.other == n.maxPlayer
  {
    if n.view.current == n.maxPlayer then n.view.other else n.view.current
  }

  /** The counting loop of the terminal utility: discs of the max player and of the min player. */
  function Score(n: Node): Counts {
    Count(n.view.cells, AllSquares, n.maxPlayer, MinPlayer(n))
  }

  /** Win, loss or draw for the max player, and 0 away from the end of the game. */
  function TerminalUtility(n: Node): (r: real)
    ensures !IsTerminal(n) ==> r == 0.0
    ensures r == -1.0 || r == 0.0 || r == 1.0
  {
    if !IsTerminal(n) then 0.0
    else
      var s := Score(n);
      if s.max > s.min then 1.0
      else if s.max < s.min then -1.0
      else 0.0
  }

  /**
   * On a finished game between two different sides, the utility is the sign of
   * the disc difference; empty squares count for neither side.
   */
  lemma TerminalUtilityMeaning(n: Node)
    requires IsTerminal(n) && n.view.current != n.view.other
    ensures var mine := Owned(n.view.cells, AllSquares, n.maxPlayer);
            var theirs := Owned(n.view.cells, AllSquares, Opponent(n.maxPlayer));
            && (TerminalUtility(n) == 1.0 <==> mine > theirs)
            && (TerminalUtility(n) == -1.0 <==> mine < theirs)
            && (TerminalUtility(n) == 0.0 <==> mine == theirs)
  {
    CountIsOwned(n.view.cells, AllSquares, n.maxPlayer, MinPlayer(n));
  }

  /** Seen from the other side, a finished game's utility changes sign. */
  lemma TerminalUtilitySwap(n: Node)
    requires n.view.current != n.view.other
    ensures TerminalUtility(n.(maxPlayer := Opponent(n.maxPlayer))) == -TerminalUtility(n)
  {
    var m := n.(maxPlayer := Opponent(n.maxPlayer));
    assert MinPlayer(m) == n.maxPlayer;
    CountSwap(n.view.cells, AllSquares, n.maxPlayer, MinPlayer(n));
  }

  /** The child reached from `n` by `move` (`None` for a pass). */
  function Child(e: Engine, n: Node, move: Option<Coord>): Node {
    Node(n.maxPlayer, NextView(e, n.view, move), n.depth + 1, move)
  }

  /** The moves a child list was generated from. */
  function MovesOf(cs: seq<Node>): set<Option<Coord>> {
    set c | c in cs :: c.lastMove
  }

  /**
   * Child generation: nothing past the end of the game; otherwise one child
   * per legal move of the side to move, in frontier order, or a single pass
   * child when that side has no legal move. The pass child is produced even
   * when the opponent is blocked too; the next level sees the game-over flag.
   */
  function Children(e: Engine, n: Node): (r: seq<Node>)
    ensures IsTerminal(n) ==> r == []
    ensures forall c :: c in r ==>
              && c.depth == n.depth + 1
              && c.maxPlayer == n.maxPlayer
              && c.view.current == n.view.other
              && c.view.other == n.view.current
              && c.view.status == e.recompute(c.view.cells, n.view.other)
    ensures !IsTerminal(n) && |Frontier(n.view, n.view.current)| > 0 ==>
              var f := Frontier(n.view, n.view.current);
              && |r| == |f|
              && (forall k :: 0 <= k < |r| ==> r[k].lastMove == Some(f[k]) && r[k].view.cells == e.applyMove(n.view, f[k]))
              && MovesOf(r) == set m | m in f :: Some(m)
    ensures !IsTerminal(n) && |Frontier(n.view, n.view.current)| == 0 ==>
              |r| == 1 && r[0].lastMove == None && r[0].view.cells == n.view.cells
  {
    if IsTerminal(n) then []
    else
      var f := Frontier(n.view, n.view.current);
      if |f| > 0 then
        var r := seq(|f|, k requires 0 <= k < |f| => Child(e, n, Some(f[k])));
        assert forall m :: m in f ==> Some(m) in MovesOf(r) by {
          forall m | m in f ensures Some(m) in MovesOf(r) {
            var k :| 0 <= k < |f| && f[k] == m;
            assert r[k].lastMove == Some(m);
          }
        }
        r
      else
        [Child(e, n, None)]
  }
}
