/**
 * Depth-limited minimax with fail-soft alpha-beta pruning over ordered
 * children, written against the four things the search consults about a tree:
 * the terminal test, the score of a leaf, child generation and the move
 * ordering. Beside it, the unpruned minimax value over the children in
 * generation order, which the pruned search is proved to compute.
 */
module AlphaBeta {
  import opened ExtendedReal

  /**
   * The tree the search walks: `isLeaf` is the end-of-game test, `value` the
   * score of a leaf for the max player, `children` the child generation and
   * `order` the move ordering applied to each child list.
   */
  datatype Tree<!N> = Tree(isLeaf: N -> bool, value: N -> real, children: N -> seq<N>, order: seq<N> --> seq<N>)

  /**
   * What the search relies on: every child list may be ordered, the ordering
   * only rearranges it, and every score lies in [-1, 1].
   */
  ghost predicate Valid<N(!new)>(t: Tree<N>) {
    && (forall n :: t.order.requires(t.children(n)))
    && (forall n :: multiset(t.order(t.children(n))) == multiset(t.children(n)))
    && (forall n :: -1.0 <= t.value(n) <= 1.0)
  }

  /** The search's answer: the backed-up score and the node it came from. */
  datatype SearchResult<N> = SearchResult(utility: real, bestNode: N)

  /** The running state of a child loop: the best score so far and its child. */
  datatype Scan<N> = Scan(eval: ExtReal, node: N)

  // ------------------------------------------------------------ reference

  /**
   * Unpruned depth-limited minimax over the children in generation order:
   * leaves (the end of the game, depth 0, or no children) score their own
   * value; a max node takes the largest child value, a min node the smallest.
   */
  function MinimaxValue<N>(t: Tree<N>, n: N, depth: nat, maximizing: bool): real
    decreases depth, 1
  {
    if t.isLeaf(n) || depth == 0 then t.value(n)
    else
      var cs := t.children(n);
      if |cs| == 0 then t.value(n)
      else if maximizing then MaxOver(t, cs, |cs|, depth - 1)
      else MinOver(t, cs, |cs|, depth - 1)
  }

  /** The largest minimax value (children to move as min) among the first k children. */
  function MaxOver<N>(t: Tree<N>, cs: seq<N>, k: nat, d: nat): real
    requires 0 < k <= |cs|
    decreases d + 1, 0, k
  {
    var v := MinimaxValue(t, cs[k - 1], d, false);
    if k == 1 then v
    else
      var m := MaxOver(t, cs, k - 1, d);
      if m < v then v else m
  }

  /** The smallest minimax value (children to move as max) among the first k children. */
  function MinOver<N>(t: Tree<N>, cs: seq<N>, k: nat, d: nat): real
    requires 0 < k <= |cs|
    decreases d + 1, 0, k
  {
    var v := MinimaxValue(t, cs[k - 1], d, true);
    if k == 1 then v
    else
      var m := MinOver(t, cs, k - 1, d);
      if v < m then v else m
  }

  // ----------------------------------------------------------- alpha-beta

  /**
   * `minimax(node, depth, alpha, beta, maximizingPlayer)`: leaves score
   * themselves; otherwise the ordered children are searched in turn, and the
   * loop stops as soon as beta <= alpha. The result is a score in [-1, 1]
   * and either the node itself (at a leaf) or one of its children.
   */
  function Minimax<N(==,!new)>(t: Tree<N>, n: N, depth: nat, alpha: ExtReal, beta: ExtReal, maximizing: bool): (r: SearchResult<N>)
    requires Valid(t)
    ensures -1.0 <= r.utility <= 1.0
    ensures t.isLeaf(n) || depth == 0 || |t.children(n)| == 0 ==> r == SearchResult(t.value(n), n)
    ensures !(t.isLeaf(n) || depth == 0 || |t.children(n)| == 0) ==> r.bestNode in t.children(n)
    decreases depth, 1
  {
    if t.isLeaf(n) || depth == 0 then SearchResult(t.value(n), n)
    else
      var cs := t.children(n);
      if |cs| == 0 then SearchResult(t.value(n), n)
      else
        var ordered := t.order(cs);
        assert |ordered| == |multiset(ordered)| == |cs|;
        assert ordered[0] in multiset(cs);
        var s := if maximizing then MaxLoop(t, ordered, 0, depth - 1, alpha, beta, NegInf, ordered[0])
                 else MinLoop(t, ordered, 0, depth - 1, alpha, beta, PosInf, ordered[0]);
        assert s.node in multiset(cs);
        SearchResult(s.eval.val, s.node)
  }

  /**
   * The maximizing loop from child i on: search the child as min, keep the
   * first child with the highest score, raise alpha, cut off once beta <= alpha.
   */
  function MaxLoop<N(==,!new)>(t: Tree<N>, cs: seq<N>, i: nat, d: nat, alpha: ExtReal, beta: ExtReal,
                          maxEval: ExtReal, best: N): (r: Scan<N>)
    requires Valid(t) && i <= |cs|
    ensures r.node == best || r.node in cs
    ensures r.eval == maxEval || InUnit(r.eval)
    ensures maxEval == NegInf && i < |cs| ==> r.eval != NegInf
    decreases d + 1, 0, |cs| - i
  {
    if i == |cs| then Scan(maxEval, best)
    else
      var u := Minimax(t, cs[i], d, alpha, beta, false).utility;
      var better := Lt(maxEval, Fin(u));
      var eval := if better then Fin(u) else maxEval;
      var node := if better then cs[i] else best;
      var alpha' := Max(alpha, Fin(u));
      if Le(beta, alpha') then Scan(eval, node)
      else MaxLoop(t, cs, i + 1, d, alpha', beta, eval, node)
  }

  /**
   * The minimizing loop from child i on: search the child as max, keep the
   * first child with the lowest score, lower beta, cut off once beta <= alpha.
   */
  function MinLoop<N(==,!new)>(t: Tree<N>, cs: seq<N>, i: nat, d: nat, alpha: ExtReal, beta: ExtReal,
                          minEval: ExtReal, best: N): (r: Scan<N>)
    requires Valid(t) && i <= |cs|
    ensures r.node == best || r.node in cs
    ensures r.eval == minEval || InUnit(r.eval)
    ensures minEval == PosInf && i < |cs| ==> r.eval != PosInf
    decreases d + 1, 0, |cs| - i
  {
    if i == |cs| then Scan(minEval, best)
    else
      var u := Minimax(t, cs[i], d, alpha, beta, true).utility;
      var better := Lt(Fin(u), minEval);
      var eval := if better then Fin(u) else minEval;
      var node := if better then cs[i] else best;
      var beta' := Min(beta, Fin(u));
      if Le(beta', alpha) then Scan(eval, node)
      else MinLoop(t, cs, i + 1, d, alpha, beta', eval, node)
  }

  // ------------------------------------------------------ reference facts

  /** With scores in [-1, 1], so is every minimax value. */
  lemma {:induction false} MinimaxValueInUnit<N>(t: Tree<N>, n: N, depth: nat, maximizing: bool)
    requires forall m :: -1.0 <= t.value(m) <= 1.0
    ensures -1.0 <= MinimaxValue(t, n, depth, maximizing) <= 1.0
    decreases depth, 1
  {
    if !(t.isLeaf(n) || depth == 0 || |t.children(n)| == 0) {
      var cs := t.children(n);
      if maximizing {
        MaxOverInUnit(t, cs, |cs|, depth - 1);
      } else {
        MinOverInUnit(t, cs, |cs|, depth - 1);
      }
    }
  }

  lemma {:induction false} MaxOverInUnit<N>(t: Tree<N>, cs: seq<N>, k: nat, d: nat)
    requires forall m :: -1.0 <= t.value(m) <= 1.0
    requires 0 < k <= |cs|
    ensures -1.0 <= MaxOver(t, cs, k, d) <= 1.0
    decreases d + 1, 0, k
  {
    MinimaxValueInUnit(t, cs[k - 1], d, false);
    if k > 1 {
      MaxOverInUnit(t, cs, k - 1, d);
    }
  }

  lemma {:induction false} MinOverInUnit<N>(t: Tree<N>, cs: seq<N>, k: nat, d: nat)
    requires forall m :: -1.0 <= t.value(m) <= 1.0
    requires 0 < k <= |cs|
    ensures -1.0 <= MinOver(t, cs, k, d) <= 1.0
    decreases d + 1, 0, k
  {
    MinimaxValueInUnit(t, cs[k - 1], d, true);
    if k > 1 {
      MinOverInUnit(t, cs, k - 1, d);
    }
  }

  /** The running maximum bounds the values of the first k children. */
  lemma {:induction false} MaxOverBounds<N>(t: Tree<N>, cs: seq<N>, k: nat, d: nat)
    requires 0 < k <= |cs|
    ensures forall j :: 0 <= j < k ==> MinimaxValue(t, cs[j], d, false) <= MaxOver(t, cs, k, d)
  {
    if k > 1 {
      MaxOverBounds(t, cs, k - 1, d);
    }
  }

  /** The running maximum is the value of one of the children it ranges over. */
  lemma {:induction false} MaxOverAttained<N>(t: Tree<N>, cs: seq<N>, k: nat, d: nat)
    requires 0 < k <= |cs|
    ensures exists j :: 0 <= j < k && MaxOver(t, cs, k, d) == MinimaxValue(t, cs[j], d, false)
  {
    if k > 1 && MaxOver(t, cs, k, d) != MinimaxValue(t, cs[k - 1], d, false) {
      MaxOverAttained(t, cs, k - 1, d);
      var j :| 0 <= j < k - 1 && MaxOver(t, cs, k - 1, d) == MinimaxValue(t, cs[j], d, false);
      assert MaxOver(t, cs, k, d) == MinimaxValue(t, cs[j], d, false);
    } else {
      assert MaxOver(t, cs, k, d) == MinimaxValue(t, cs[k - 1], d, false);
    }
  }

  /** The running minimum bounds the values of the first k children from below. */
  lemma {:induction false} MinOverBounds<N>(t: Tree<N>, cs: seq<N>, k: nat, d: nat)
    requires 0 < k <= |cs|
    ensures forall j :: 0 <= j < k ==> MinOver(t, cs, k, d) <= MinimaxValue(t, cs[j], d, true)
  {
    if k > 1 {
      MinOverBounds(t, cs, k - 1, d);
    }
  }

  /** The running minimum is the value of one of the children it ranges over. */
  lemma {:induction false} MinOverAttained<N>(t: Tree<N>, cs: seq<N>, k: nat, d: nat)
    requires 0 < k <= |cs|
    ensures exists j :: 0 <= j < k && MinOver(t, cs, k, d) == MinimaxValue(t, cs[j], d, true)
  {
    if k > 1 && MinOver(t, cs, k, d) != MinimaxValue(t, cs[k - 1], d, true) {
      MinOverAttained(t, cs, k - 1, d);
      var j :| 0 <= j < k - 1 && MinOver(t, cs, k - 1, d) == MinimaxValue(t, cs[j], d, true);
      assert MinOver(t, cs, k, d) == MinimaxValue(t, cs[j], d, true);
    } else {
      assert MinOver(t, cs, k, d) == MinimaxValue(t, cs[k - 1], d, true);
    }
  }

  /** The running maximum never decreases as more children are seen. */
  lemma {:induction false} MaxOverGrows<N>(t: Tree<N>, cs: seq<N>, i: nat, k: nat, d: nat)
    requires 0 < i <= k <= |cs|
    ensures MaxOver(t, cs, i, d) <= MaxOver(t, cs, k, d)
    decreases k
  {
    if i < k {
      MaxOverGrows(t, cs, i, k - 1, d);
    }
  }

  /** The running minimum never increases as more children are seen. */
  lemma {:induction false} MinOverShrinks<N>(t: Tree<N>, cs: seq<N>, i: nat, k: nat, d: nat)
    requires 0 < i <= k <= |cs|
    ensures MinOver(t, cs, k, d) <= MinOver(t, cs, i, d)
    decreases k
  {
    if i < k {
      MinOverShrinks(t, cs, i, k - 1, d);
    }
  }

  /** The maximum over the children does not depend on the order they are visited in. */
  lemma MaxOverPermutation<N>(t: Tree<N>, a: seq<N>, b: seq<N>, d: nat)
    requires multiset(a) == multiset(b) && |a| > 0
    ensures |b| == |a| && MaxOver(t, a, |a|, d) == MaxOver(t, b, |b|, d)
  {
    assert |b| == |multiset(b)| == |a|;
    MaxOverAttained(t, a, |a|, d);
    MaxOverAttained(t, b, |b|, d);
    MaxOverBounds(t, a, |a|, d);
    MaxOverBounds(t, b, |b|, d);
    var i :| 0 <= i < |a| && MaxOver(t, a, |a|, d) == MinimaxValue(t, a[i], d, false);
    var j :| 0 <= j < |b| && MaxOver(t, b, |b|, d) == MinimaxValue(t, b[j], d, false);
    assert a[i] in multiset(b);
    var j' :| 0 <= j' < |b| && b[j'] == a[i];
    assert b[j] in multiset(a);
    var i' :| 0 <= i' < |a| && a[i'] == b[j];
  }

  /** The minimum over the children does not depend on the order they are visited in. */
  lemma MinOverPermutation<N>(t: Tree<N>, a: seq<N>, b: seq<N>, d: nat)
    requires multiset(a) == multiset(b) && |a| > 0
    ensures |b| == |a| && MinOver(t, a, |a|, d) == MinOver(t, b, |b|, d)
  {
    assert |b| == |multiset(b)| == |a|;
    MinOverAttained(t, a, |a|, d);
    MinOverAttained(t, b, |b|, d);
    MinOverBounds(t, a, |a|, d);
    MinOverBounds(t, b, |b|, d);
    var i :| 0 <= i < |a| && MinOver(t, a, |a|, d) == MinimaxValue(t, a[i], d, true);
    var j :| 0 <= j < |b| && MinOver(t, b, |b|, d) == MinimaxValue(t, b[j], d, true);
    assert a[i] in multiset(b);
    var j' :| 0 <= j' < |b| && b[j'] == a[i];
    assert b[j] in multiset(a);
    var i' :| 0 <= i' < |a| && a[i'] == b[j];
  }

  // ------------------------------------------------------ pruning is sound

  /**
   * The fail-soft contract of alpha-beta: a score at or below the window
   * bounds the true value from above, a score at or above it bounds it from
   * below, and a score strictly inside the window is exact.
   */
  predicate FailSoft(m: ExtReal, v: ExtReal, alpha: ExtReal, beta: ExtReal) {
    && (Le(m, alpha) ==> Le(v, m))
    && (Le(beta, m) ==> Le(m, v))
    && (Lt(alpha, m) && Lt(m, beta) ==> m == v)
  }

  /** Alpha-beta over ordered children is fail-soft with respect to unpruned minimax. */
  lemma {:induction false} AlphaBetaFailSoft<N(!new)>(t: Tree<N>, n: N, depth: nat, alpha: ExtReal, beta: ExtReal, maximizing: bool)
    requires Valid(t) && Lt(alpha, beta)
    ensures FailSoft(Fin(Minimax(t, n, depth, alpha, beta, maximizing).utility),
                     Fin(MinimaxValue(t, n, depth, maximizing)), alpha, beta)
    decreases depth, 1
  {
    if !(t.isLeaf(n) || depth == 0 || |t.children(n)| == 0) {
      var cs := t.children(n);
      var ordered := t.order(cs);
      assert |ordered| == |multiset(ordered)| == |cs|;
      if maximizing {
        MaxLoopFailSoft(t, ordered, 0, depth - 1, alpha, alpha, beta, NegInf, ordered[0]);
        MaxOverPermutation(t, ordered, cs, depth - 1);
      } else {
        MinLoopFailSoft(t, ordered, 0, depth - 1, alpha, beta, beta, PosInf, ordered[0]);
        MinOverPermutation(t, ordered, cs, depth - 1);
      }
    }
  }

  /**
   * The maximizing loop keeps alpha as the larger of the original alpha and the
   * best score so far; that score bounds the children seen, and equals their
   * maximum once it is above the original alpha.
   */
  lemma {:induction false} MaxLoopFailSoft<N(!new)>(t: Tree<N>, cs: seq<N>, i: nat, d: nat, alpha0: ExtReal,
                                                  alpha: ExtReal, beta: ExtReal, maxEval: ExtReal, best: N)
    requires Valid(t) && 0 < |cs| && i <= |cs|
    requires alpha == Max(alpha0, maxEval) && Lt(alpha, beta)
    requires i == 0 ==> maxEval == NegInf
    requires i > 0 ==> maxEval.Fin? && MaxOver(t, cs, i, d) <= maxEval.val
    requires i > 0 && Lt(alpha0, maxEval) ==> Fin(MaxOver(t, cs, i, d)) == maxEval
    ensures FailSoft(MaxLoop(t, cs, i, d, alpha, beta, maxEval, best).eval, Fin(MaxOver(t, cs, |cs|, d)), alpha0, beta)
    decreases d + 1, 0, |cs| - i
  {
    if i < |cs| {
      var u := Minimax(t, cs[i], d, alpha, beta, false).utility;
      var v := MinimaxValue(t, cs[i], d, false);
      AlphaBetaFailSoft(t, cs[i], d, alpha, beta, false);
      var better := Lt(maxEval, Fin(u));
      var eval := if better then Fin(u) else maxEval;
      var node := if better then cs[i] else best;
      var alpha' := Max(alpha, Fin(u));
      MaxOverGrows(t, cs, i + 1, |cs|, d);
      if !Le(beta, alpha') {
        MaxLoopFailSoft(t, cs, i + 1, d, alpha0, alpha', beta, eval, node);
      }
    }
  }

  /**
   * The minimizing loop keeps beta as the smaller of the original beta and the
   * best score so far; that score bounds the children seen from below, and
   * equals their minimum once it is below the original beta.
   */
  lemma {:induction false} MinLoopFailSoft<N(!new)>(t: Tree<N>, cs: seq<N>, i: nat, d: nat, alpha: ExtReal,
                                                  beta0: ExtReal, beta: ExtReal, minEval: ExtReal, best: N)
    requires Valid(t) && 0 < |cs| && i <= |cs|
    requires beta == Min(beta0, minEval) && Lt(alpha, beta)
    requires i == 0 ==> minEval == PosInf
    requires i > 0 ==> minEval.Fin? && minEval.val <= MinOver(t, cs, i, d)
    requires i > 0 && Lt(minEval, beta0) ==> Fin(MinOver(t, cs, i, d)) == minEval
    ensures FailSoft(MinLoop(t, cs, i, d, alpha, beta, minEval, best).eval, Fin(MinOver(t, cs, |cs|, d)), alpha, beta0)
    decreases d + 1, 0, |cs| - i
  {
    if i < |cs| {
      var u := Minimax(t, cs[i], d, alpha, beta, true).utility;
      var v := MinimaxValue(t, cs[i], d, true);
      AlphaBetaFailSoft(t, cs[i], d, alpha, beta, true);
      var better := Lt(Fin(u), minEval);
      var eval := if better then Fin(u) else minEval;
      var node := if better then cs[i] else best;
      var beta' := Min(beta, Fin(u));
      MinOverShrinks(t, cs, i + 1, |cs|, d);
      if !Le(beta', alpha) {
        MinLoopFailSoft(t, cs, i + 1, d, alpha, beta0, beta', eval, node);
      }
    }
  }

  /**
   * The maximizing loop's best child: whenever its score lies strictly inside
   * the original window, that score is the child's exact minimax value.
   */
  lemma {:induction false} MaxLoopBest<N(!new)>(t: Tree<N>, cs: seq<N>, i: nat, d: nat, alpha0: ExtReal,
                                              alpha: ExtReal, beta: ExtReal, maxEval: ExtReal, best: N)
    requires Valid(t) && i <= |cs|
    requires alpha == Max(alpha0, maxEval) && Lt(alpha, beta)
    requires Lt(alpha0, maxEval) ==> maxEval == Fin(MinimaxValue(t, best, d, false))
    ensures var r := MaxLoop(t, cs, i, d, alpha, beta, maxEval, best);
            Lt(alpha0, r.eval) && Lt(r.eval, beta) ==> r.eval == Fin(MinimaxValue(t, r.node, d, false))
    decreases |cs| - i
  {
    if i < |cs| {
      var u := Minimax(t, cs[i], d, alpha, beta, false).utility;
      AlphaBetaFailSoft(t, cs[i], d, alpha, beta, false);
      var better := Lt(maxEval, Fin(u));
      var eval := if better then Fin(u) else maxEval;
      var node := if better then cs[i] else best;
      var alpha' := Max(alpha, Fin(u));
      if !Le(beta, alpha') {
        MaxLoopBest(t, cs, i + 1, d, alpha0, alpha', beta, eval, node);
      }
    }
  }

  /**
   * The minimizing loop's best child: whenever its score lies strictly inside
   * the original window, that score is the child's exact minimax value.
   */
  lemma {:induction false} MinLoopBest<N(!new)>(t: Tree<N>, cs: seq<N>, i: nat, d: nat, alpha: ExtReal,
                                              beta0: ExtReal, beta: ExtReal, minEval: ExtReal, best: N)
    requires Valid(t) && i <= |cs|
    requires beta == Min(beta0, minEval) && Lt(alpha, beta)
    requires Lt(minEval, beta0) ==> minEval == Fin(MinimaxValue(t, best, d, true))
    ensures var r := MinLoop(t, cs, i, d, alpha, beta, minEval, best);
            Lt(alpha, r.eval) && Lt(r.eval, beta0) ==> r.eval == Fin(MinimaxValue(t, r.node, d, true))
    decreases |cs| - i
  {
    if i < |cs| {
      var u := Minimax(t, cs[i], d, alpha, beta, true).utility;
      AlphaBetaFailSoft(t, cs[i], d, alpha, beta, true);
      var better := Lt(Fin(u), minEval);
      var eval := if better then Fin(u) else minEval;
      var node := if better then cs[i] else best;
      var beta' := Min(beta, Fin(u));
      if !Le(beta', alpha) {
        MinLoopBest(t, cs, i + 1, d, alpha, beta0, beta', eval, node);
      }
    }
  }

  /**
   * The node alpha-beta returns from an inner node is one of its children, and
   * when the score lies strictly inside the window it is that child's exact
   * minimax value one level down.
   */
  lemma MinimaxBest<N(!new)>(t: Tree<N>, n: N, depth: nat, alpha: ExtReal, beta: ExtReal, maximizing: bool)
    requires Valid(t) && Lt(alpha, beta)
    requires !(t.isLeaf(n) || depth == 0 || |t.children(n)| == 0)
    ensures var r := Minimax(t, n, depth, alpha, beta, maximizing);
            && r.bestNode in t.children(n)
            && (Lt(alpha, Fin(r.utility)) && Lt(Fin(r.utility), beta) ==>
                  r.utility == MinimaxValue(t, r.bestNode, depth - 1, !maximizing))
  {
    var cs := t.children(n);
    var ordered := t.order(cs);
    assert |ordered| == |multiset(ordered)| == |cs|;
    if maximizing {
      MaxLoopBest(t, ordered, 0, depth - 1, alpha, alpha, beta, NegInf, ordered[0]);
    } else {
      MinLoopBest(t, ordered, 0, depth - 1, alpha, beta, beta, PosInf, ordered[0]);
    }
  }

  /**
   * With the full window (-infinity, +infinity) pruning changes nothing: the
   * score is the unpruned minimax value, and at an inner node the returned
   * child attains it.
   */
  lemma FullWindowExact<N(!new)>(t: Tree<N>, n: N, depth: nat, maximizing: bool)
    requires Valid(t)
    ensures var r := Minimax(t, n, depth, NegInf, PosInf, maximizing);
            && r.utility == MinimaxValue(t, n, depth, maximizing)
            && (!(t.isLeaf(n) || depth == 0 || |t.children(n)| == 0) ==>
                  r.bestNode in t.children(n) && MinimaxValue(t, r.bestNode, depth - 1, !maximizing) == r.utility)
  {
    AlphaBetaFailSoft(t, n, depth, NegInf, PosInf, maximizing);
    if !(t.isLeaf(n) || depth == 0 || |t.children(n)| == 0) {
      MinimaxBest(t, n, depth, NegInf, PosInf, maximizing);
    }
  }
}
