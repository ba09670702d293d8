/**
 * Move ordering for alpha-beta: children are scored (terminal utility at the
 * end of the game, static evaluation otherwise) and sorted best-first for the
 * side to move at their level.
 */
module MoveOrderer {
  import opened Grid
  import opened SearchNode
  import opened Heuristics
  import opened StableSort

  /** The score of a node: its terminal utility if the game is over, its evaluation otherwise. */
  function NodeValue(n: Node): (r: real)
    ensures -1.0 <= r <= 1.0
    ensures IsTerminal(n) ==> r == -1.0 || r == 0.0 || r == 1.0
  {
    if IsTerminal(n) then TerminalUtility(n) else HeuristicValue(n)
  }

  /** Seen from the other side, every score changes sign. */
  lemma NodeValueSwap(n: Node)
    requires n.view.current != n.view.other
    ensures NodeValue(n.(maxPlayer := Opponent(n.maxPlayer))) == -NodeValue(n)
  {
    if IsTerminal(n) {
      TerminalUtilitySwap(n);
    } else {
      HeuristicValueSwap(n);
    }
  }

  /** The max player is to move at this node. */
  predicate IsMaximizingLevel(n: Node) {
    n.view.current == n.maxPlayer
  }

  /** All nodes of the list are at the same kind of level, as siblings always are. */
  predicate SameLevel(cs: seq<Node>) {
    forall i, j :: 0 <= i < |cs| && 0 <= j < |cs| ==> IsMaximizingLevel(cs[i]) == IsMaximizingLevel(cs[j])
  }

  /**
   * A sorted copy of the children: best for the max player first at a
   * maximizing level, worst for the max player first otherwise; ties keep
   * their order. An empty list comes back as it is.
   */
  function OrderChildren(cs: seq<Node>): (r: seq<Node>)
    requires SameLevel(cs)
    ensures |cs| == 0 ==> r == cs
    ensures multiset(r) == multiset(cs)
    ensures |cs| > 0 && IsMaximizingLevel(cs[0]) ==>
              forall i, j :: 0 <= i < j < |r| ==> NodeValue(r[i]) >= NodeValue(r[j])
    ensures |cs| > 0 && !IsMaximizingLevel(cs[0]) ==>
              forall i, j :: 0 <= i < j < |r| ==> NodeValue(r[i]) <= NodeValue(r[j])
    ensures forall k :: Filter(r, NodeValue, k) == Filter(cs, NodeValue, k)
  {
    if |cs| == 0 then cs
    else
      var desc := IsMaximizingLevel(cs[0]);
      SortPermutes(cs, NodeValue, desc);
      SortOrdered(cs, NodeValue, desc);
      assert forall k :: Filter(Sort(cs, NodeValue, desc), NodeValue, k) == Filter(cs, NodeValue, k) by {
        forall k ensures Filter(Sort(cs, NodeValue, desc), NodeValue, k) == Filter(cs, NodeValue, k) {
          SortStable(cs, NodeValue, desc, k);
        }
      }
      Sort(cs, NodeValue, desc)
  }

  /** Siblings produced by child generation are all at the same kind of level. */
  lemma ChildrenSameLevel(e: Game.Engine, n: Node)
    ensures SameLevel(Children(e, n))
  {
  }
}
