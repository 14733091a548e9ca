/** Minimax with alpha-beta cutoffs over a game tree whose leaves carry the
    evaluation. The checkers search spans such a tree: each position is a
    node whose children are the positions after the moves of the side to
    move, in the generator's order, and a position at depth 0 or with a side
    out of pieces is a leaf. */
module AlphaBeta {
  import opened Scores

  /** A leaf holds the evaluation of a position; a node is a position where
      white (`maximizing`) or black is to move. */
  datatype Tree = Leaf(value: int) | Node(maximizing: bool, children: seq<Tree>)

  /** The search as the source runs it, with the window (alpha, beta). */
  function Search(t: Tree, alpha: Score, beta: Score): (r: Score)
    decreases t, 1, 0
    ensures t.Leaf? ==> r == Fin(t.value)
    ensures t.Node? && |t.children| == 0 ==> r == if t.maximizing then NegInf else PosInf
  {
    match t
    case Leaf(v) => Fin(v)
    case Node(maximizing, _) =>
      if maximizing then MaxLoop(t, 0, alpha, beta, NegInf) else MinLoop(t, 0, alpha, beta, PosInf)
  }

  /** The maximiser's loop from child i on, with the running best `maxEval`:
      each child raises alpha, and the loop stops once beta <= alpha. */
  function MaxLoop(t: Tree, i: nat, alpha: Score, beta: Score, maxEval: Score): (r: Score)
    requires t.Node? && i <= |t.children|
    decreases t, 0, |t.children| - i
    ensures Le(maxEval, r)
  {
    if i == |t.children| then maxEval
    else
      var eval := Search(t.children[i], alpha, beta);
      var maxEval' := Max(maxEval, eval);
      var alpha' := Max(alpha, eval);
      if Le(beta, alpha') then maxEval'
      else MaxLoop(t, i + 1, alpha', beta, maxEval')
  }

  /** The minimiser's loop, symmetric to `MaxLoop`: each child lowers beta. */
  function MinLoop(t: Tree, i: nat, alpha: Score, beta: Score, minEval: Score): (r: Score)
    requires t.Node? && i <= |t.children|
    decreases t, 0, |t.children| - i
    ensures Le(r, minEval)
  {
    if i == |t.children| then minEval
    else
      var eval := Search(t.children[i], alpha, beta);
      var minEval' := Min(minEval, eval);
      var beta' := Min(beta, eval);
      if Le(beta', alpha) then minEval'
      else MinLoop(t, i + 1, alpha, beta', minEval')
  }

  // ---------------------------------------------------------------------
  // The reference: minimax without cutoffs

  /** The minimax value of a tree, every child searched. */
  function Value(t: Tree): Score
    decreases t, 1, 0
  {
    match t
    case Leaf(v) => Fin(v)
    case Node(maximizing, _) => if maximizing then MaxValue(t, 0) else MinValue(t, 0)
  }

  /** The largest value of the children from i on, -inf when there is none. */
  function MaxValue(t: Tree, i: nat): Score
    requires t.Node? && i <= |t.children|
    decreases t, 0, |t.children| - i
  {
    if i == |t.children| then NegInf else Max(Value(t.children[i]), MaxValue(t, i + 1))
  }

  /** The smallest value of the children from i on, +inf when there is none. */
  function MinValue(t: Tree, i: nat): Score
    requires t.Node? && i <= |t.children|
    decreases t, 0, |t.children| - i
  {
    if i == |t.children| then PosInf else Min(Value(t.children[i]), MinValue(t, i + 1))
  }

  /** `MaxValue` is the largest child value: no child from i on is above it,
      and one of them attains it when there is one. */
  lemma {:induction false} MaxValueIsMaximum(t: Tree, i: nat)
    requires t.Node? && i <= |t.children|
    decreases |t.children| - i
    ensures forall k :: i <= k < |t.children| ==> Le(Value(t.children[k]), MaxValue(t, i))
    ensures i == |t.children| ==> MaxValue(t, i) == NegInf
    ensures i < |t.children| ==> exists k :: i <= k < |t.children| && MaxValue(t, i) == Value(t.children[k])
  {
    if i < |t.children| {
      MaxValueIsMaximum(t, i + 1);
      var r := MaxValue(t, i);
      var rest := MaxValue(t, i + 1);
      forall k | i + 1 <= k < |t.children| ensures Le(Value(t.children[k]), r) {
        LeTotalOrder(Value(t.children[k]), rest, r);
      }
    }
  }

  /** `MinValue` is the smallest child value: no child from i on is below it,
      and one of them attains it when there is one. */
  lemma {:induction false} MinValueIsMinimum(t: Tree, i: nat)
    requires t.Node? && i <= |t.children|
    decreases |t.children| - i
    ensures forall k :: i <= k < |t.children| ==> Le(MinValue(t, i), Value(t.children[k]))
    ensures i == |t.children| ==> MinValue(t, i) == PosInf
    ensures i < |t.children| ==> exists k :: i <= k < |t.children| && MinValue(t, i) == Value(t.children[k])
  {
    if i < |t.children| {
      MinValueIsMinimum(t, i + 1);
      var r := MinValue(t, i);
      var rest := MinValue(t, i + 1);
      forall k | i + 1 <= k < |t.children| ensures Le(r, Value(t.children[k])) {
        LeTotalOrder(r, rest, Value(t.children[k]));
      }
    }
  }

  // ---------------------------------------------------------------------
  // Soundness of the cutoffs

  /** The cutoffs never change what the search decides: for every open
      window the result agrees with `Value` in the fail-soft sense. */
  lemma {:induction false} SearchSound(t: Tree, alpha: Score, beta: Score)
    requires Lt(alpha, beta)
    decreases t, 1, 0
    ensures Bounds(Search(t, alpha, beta), Value(t), alpha, beta)
  {
    match t
    case Leaf(_) =>
    case Node(maximizing, _) =>
      if maximizing {
        MaxLoopSound(t, 0, alpha, beta, NegInf);
      } else {
        MinLoopSound(t, 0, alpha, beta, PosInf);
      }
  }

  lemma {:induction false} MaxLoopSound(t: Tree, i: nat, alpha: Score, beta: Score, maxEval: Score)
    requires t.Node? && i <= |t.children|
    requires Lt(alpha, beta) && Le(maxEval, alpha)
    decreases t, 0, |t.children| - i
    ensures Bounds(MaxLoop(t, i, alpha, beta, maxEval), Max(maxEval, MaxValue(t, i)), alpha, beta)
  {
    if i < |t.children| {
      var eval := Search(t.children[i], alpha, beta);
      var value := Value(t.children[i]);
      var rest := MaxValue(t, i + 1);
      SearchSound(t.children[i], alpha, beta);
      var maxEval' := Max(maxEval, eval);
      var alpha' := Max(alpha, eval);
      if Le(beta, alpha') {
        MaxStepCutoff(maxEval, eval, value, rest, alpha, beta);
      } else {
        MaxLoopSound(t, i + 1, alpha', beta, maxEval');
        MaxStepContinue(maxEval, eval, value, rest, alpha, beta, MaxLoop(t, i + 1, alpha', beta, maxEval'));
      }
    }
  }

  lemma {:induction false} MinLoopSound(t: Tree, i: nat, alpha: Score, beta: Score, minEval: Score)
    requires t.Node? && i <= |t.children|
    requires Lt(alpha, beta) && Le(beta, minEval)
    decreases t, 0, |t.children| - i
    ensures Bounds(MinLoop(t, i, alpha, beta, minEval), Min(minEval, MinValue(t, i)), alpha, beta)
  {
    if i < |t.children| {
      var eval := Search(t.children[i], alpha, beta);
      var value := Value(t.children[i]);
      var rest := MinValue(t, i + 1);
      SearchSound(t.children[i], alpha, beta);
      var minEval' := Min(minEval, eval);
      var beta' := Min(beta, eval);
      if Le(beta', alpha) {
        MinStepCutoff(minEval, eval, value, rest, alpha, beta);
      } else {
        MinLoopSound(t, i + 1, alpha, beta', minEval');
        MinStepContinue(minEval, eval, value, rest, alpha, beta, MinLoop(t, i + 1, alpha, beta', minEval'));
      }
    }
  }

  /** With the full window (-inf, +inf), as every search starts, alpha-beta
      returns exactly the minimax value. */
  lemma FullWindow(t: Tree)
    ensures Search(t, NegInf, PosInf) == Value(t)
  {
    SearchSound(t, NegInf, PosInf);
  }
}
