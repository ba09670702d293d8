/**
 * The agent: the Othello search tree handed to alpha-beta, the four-ply tree
 * search from the root, and the move the agent plays.
 */
module Agent {
  import opened Wrappers
  import opened Grid
  import opened ExtendedReal
  import opened Game
  import opened SearchNode
  import opened MoveOrderer
  import opened AlphaBeta

  /** The root search looks four plies ahead. */
  const SearchDepth: nat := 4

  /**
   * The tree `minimax` walks: the end-of-game test, the move orderer's node
   * value at the leaves (terminal utility or static evaluation, as the base
   * cases of `minimax` compute it), child generation over the engine, and the
   * move ordering.
   */
  function GameTree(e: Engine): Tree<Node> {
    Tree(IsTerminal, NodeValue, n => Children(e, n), cs requires SameLevel(cs) => OrderChildren(cs))
  }

  /** The Othello tree meets what the search relies on. */
  lemma GameTreeValid(e: Engine)
    ensures Valid(GameTree(e))
  {
    var t := GameTree(e);
    forall n ensures t.order.requires(t.children(n)) {
      ChildrenSameLevel(e, n);
    }
  }

  /**
   * `treeSearch`: alpha-beta to depth four with the full window, maximizing at
   * the root. A finished game comes back as the root itself; otherwise the
   * result is a child whose minimax value is the root's.
   */
  function TreeSearch(e: Engine, n: Node): (best: Node)
    ensures IsTerminal(n) ==> best == n
    ensures !IsTerminal(n) ==>
              && best in Children(e, n)
              && MinimaxValue(GameTree(e), best, SearchDepth - 1, false) == MinimaxValue(GameTree(e), n, SearchDepth, true)
  {
    GameTreeValid(e);
    FullWindowExact(GameTree(e), n, SearchDepth, true);
    Minimax(GameTree(e), n, SearchDepth, NegInf, PosInf, true).bestNode
  }

  /** The score behind the root's choice is the unpruned four-ply minimax value, in [-1, 1]. */
  lemma TreeSearchScore(e: Engine, n: Node)
    ensures var u := Minimax(GameTree(e), n, SearchDepth, NegInf, PosInf, true).utility;
            && u == MinimaxValue(GameTree(e), n, SearchDepth, true)
            && -1.0 <= u <= 1.0
  {
    GameTreeValid(e);
    FullWindowExact(GameTree(e), n, SearchDepth, true);
  }

  /**
   * `chooseCoordinateToPlaceTile`: search from a root node for `me` at depth 0
   * with no last move, and play the move that led to the chosen node. The move
   * is always legal for the side to move; there is none exactly when the game
   * is over or that side must pass.
   */
  function ChooseMove(e: Engine, v: View, me: Player): (m: Option<Coord>)
    ensures m.Some? ==> m.value in Frontier(v, v.current)
    ensures IsGameOver(v) ==> m == None
    ensures !IsGameOver(v) ==> (m.Some? <==> |Frontier(v, v.current)| > 0)
  {
    var root := Node(me, v, 0, None);
    var best := TreeSearch(e, root);
    best.lastMove
  }
}
