/** expr_eq, expr_eliminate_eq and expr_eliminate_yn: structural equality of
    expressions up to order and association, by cancelling common operands. */
module Equality {
  import opened Tristate
  import opened Expr

  /** expr_eliminate_yn */
  function EliminateYn(e: Expr): (r: Expr)
    ensures Size(r) <= Size(e)
  {
    match e
    case Bin(op, l, r) =>
      var l', r' := EliminateYn(l), EliminateYn(r);
      if l' == Const(Zero(op)) then Const(Zero(op))
      else if l' == Const(Unit(op)) then r'
      else if r' == Const(Zero(op)) then Const(Zero(op))
      else if r' == Const(Unit(op)) then l'
      else Bin(op, l', r')
    case _ => e
  }

  datatype Pair = Pair(fst: Expr, snd: Expr, count: nat)

  /** expr_eq */
  predicate ExprEq(a: Expr, b: Expr)
    decreases Size(a) + Size(b), 2
  {
    match (a, b)
    case (Cmp(ra, la, sa), Cmp(rb, lb, sb)) => ra == rb && la == lb && sa == sb
    case (Sym(x), Sym(y)) => x == y
    case (Not(x), Not(y)) => ExprEq(x, y)
    case (Bin(opA, _, _), Bin(opB, _, _)) =>
      opA == opB &&
      var p := EliminateEq(a, b);
      p.fst.Sym? && p.snd.Sym? && p.fst.sym == p.snd.sym
    case _ => false
  }

  /** expr_eliminate_eq on two expressions that are not null. The count is what is
      added to trans_count. */
  function EliminateEq(a: Expr, b: Expr): (p: Pair)
    ensures Size(p.fst) <= Size(a) && Size(p.snd) <= Size(b)
    decreases Size(a) + Size(b), 1
  {
    var p := if a.Bin? then Cancel(a.op, a, b) else Pair(a, b, 0);
    var q := if p.snd.Bin? && !(p.fst.Bin? && p.fst.op == p.snd.op)
             then Cancel(p.snd.op, p.fst, p.snd) else Pair(p.fst, p.snd, 0);
    Pair(EliminateYn(q.fst), EliminateYn(q.snd), p.count + q.count)
  }

  /** __expr_eliminate_eq: every operand of a meets every operand of b, and an equal
      pair is replaced by the neutral constant on both sides. */
  function Cancel(op: Op, a: Expr, b: Expr): (p: Pair)
    ensures Size(p.fst) <= Size(a) && Size(p.snd) <= Size(b)
    decreases Size(a) + Size(b), if Rooted(op, a) || Rooted(op, b) then 0 else 3
  {
    if Rooted(op, a) then
      var p := Cancel(op, a.left, b);
      var q := Cancel(op, a.right, p.snd);
      Pair(Bin(op, p.fst, q.fst), q.snd, p.count + q.count)
    else if Rooted(op, b) then
      var p := Cancel(op, a, b.left);
      var q := Cancel(op, p.fst, b.right);
      Pair(q.fst, Bin(op, p.snd, q.snd), p.count + q.count)
    else if a.Sym? && b.Sym? && a.sym == b.sym && a.sym.YesNoFlagged() then Pair(a, b, 0)
    else if ExprEq(a, b) then Pair(Const(Unit(op)), Const(Unit(op)), 1)
    else Pair(a, b, 0)
  }
}
