/** expr_transform: negation normal form without tests of a boolean against y, m or n. */
module Transform {
  import opened Tristate
  import opened Expr
  import opened Join

  /** Bounds the work of expr_transform: a De Morgan step and a resolved comparison may
      add nodes, but never weight. */
  function Weight(e: Expr): nat
    ensures Weight(e) >= 1
  {
    match e
    case Sym(_) => 1
    case Cmp(_, _, _) => 2
    case Bin(_, l, r) => 1 + Weight(l) + Weight(r)
    case Not(a) => 2 * Weight(a)
  }

  /** A comparison of a boolean with y, m or n, resolved. */
  function ResolveCmp(e: Expr): (r: Expr)
    requires e.Cmp?
    ensures Weight(r) <= Weight(e)
  {
    if e.lsym.Type() != Boolean || !e.rsym.Constant? then e
    else if e.rsym.val == MOD then Const(if e.rel == Eq then NO else YES)
    else if (e.rsym.val == YES) == (e.rel == Eq) then Sym(e.lsym)
    else Not(Sym(e.lsym))
  }

  /** !(l op r) with the NOT pushed to the operands. */
  function DeMorgan(op: Op, l: Expr, r: Expr): (e: Expr)
    ensures Weight(e) < 2 * Weight(Bin(op, l, r))
    ensures Proper(l) && Proper(r) ==> Proper(e)
    ensures forall v: Valuation :: Eval(e, v) == Neg(Apply(op, Eval(l, v), Eval(r, v)))
  {
    var e := Bin(Dual(op), Not(l), Not(r));
    assert Weight(Not(l)) == 2 * Weight(l) && Weight(Not(r)) == 2 * Weight(r);
    assert Proper(Not(l)) == Proper(l) && Proper(Not(r)) == Proper(r);
    assert forall v: Valuation :: Eval(Not(l), v) == Neg(Eval(l, v)) && Eval(Not(r), v) == Neg(Eval(r, v));
    e
  }

  /** expr_transform */
  function TransformExpr(e: Expr): (r: Expr)
    ensures Weight(r) <= Weight(e)
    decreases Weight(e)
  {
    match e
    case Sym(_) => e
    case Cmp(_, _, _) => ResolveCmp(e)
    case Bin(op, l, r) => Bin(op, TransformExpr(l), TransformExpr(r))
    case Not(a) =>
      match TransformExpr(a)
      case Not(x) => TransformExpr(x)
      case Cmp(rel, l, r) => Cmp(Flip(rel), l, r)
      case Bin(op, l, r) => TransformExpr(DeMorgan(op, l, r))
      case Sym(s) => if s.Constant? then Const(Neg(s.val)) else Not(Sym(s))
  }

  /** NOT only over symbols that are not y, m or n; no boolean compared with y, m or n. */
  predicate Normal(e: Expr) {
    match e
    case Sym(_) => true
    case Cmp(_, l, r) => !(l.Type() == Boolean && r.Constant?)
    case Not(a) => a.Sym? && !a.sym.Constant?
    case Bin(_, l, r) => Normal(l) && Normal(r)
  }

  lemma ResolveCmpValue(e: Expr, v: Valuation)
    requires Typed(v) && e.Cmp?
    ensures Eval(ResolveCmp(e), v) == Eval(e, v)
    ensures Normal(ResolveCmp(e))
  {
    if e.lsym.Type() == Boolean && e.rsym.Constant? {
      CompareConstant(v, e.rel, e.lsym, e.rsym.val);
      assert TypedAt(e.lsym, v(e.lsym));
      TypedConstant(v, NO);
      TypedConstant(v, YES);
    }
  }

  /** The meaning is untouched under every typed valuation. */
  lemma {:induction false} TransformValue(e: Expr, v: Valuation)
    requires Typed(v)
    ensures Eval(TransformExpr(e), v) == Eval(e, v)
    decreases Weight(e)
  {
    match e
    case Sym(_) =>
    case Cmp(_, _, _) => ResolveCmpValue(e, v);
    case Bin(op, l, r) =>
      TransformValue(l, v);
      TransformValue(r, v);
    case Not(a) =>
      TransformValue(a, v);
      match TransformExpr(a)
      case Not(x) => TransformValue(x, v);
      case Cmp(rel, l, r) =>
      case Bin(op, l, r) => TransformValue(DeMorgan(op, l, r), v);
      case Sym(s) => if s.Constant? { TypedConstant(v, s.val); TypedConstant(v, Neg(s.val)); }
  }

  lemma {:induction false} TransformNormal(e: Expr)
    ensures Normal(TransformExpr(e))
    ensures Proper(e) ==> Proper(TransformExpr(e))
    decreases Weight(e)
  {
    match e
    case Sym(_) =>
    case Cmp(_, _, _) =>
    case Bin(op, l, r) =>
      TransformNormal(l);
      TransformNormal(r);
    case Not(a) =>
      TransformNormal(a);
      match TransformExpr(a)
      case Not(x) => TransformNormal(x);
      case Cmp(rel, l, r) =>
      case Bin(op, l, r) => TransformNormal(DeMorgan(op, l, r));
      case Sym(s) =>
  }

  lemma {:induction false} TransformFixesNormal(e: Expr)
    requires Normal(e)
    ensures TransformExpr(e) == e
    decreases e
  {
    if e.Bin? {
      TransformFixesNormal(e.left);
      TransformFixesNormal(e.right);
    }
  }

  /** Idempotence; and expr_transform changes exactly the expressions not in normal form. */
  lemma TransformIdempotent(e: Expr)
    ensures TransformExpr(TransformExpr(e)) == TransformExpr(e)
    ensures TransformExpr(e) == e <==> Normal(e)
  {
    TransformNormal(e);
    TransformFixesNormal(TransformExpr(e));
    if Normal(e) { TransformFixesNormal(e); }
  }

  // What expr_transform does, without re-entering itself.

  /** The negation of a normal expression, pushed down to the symbols. */
  function Opposite(e: Expr): Expr {
    match e
    case Sym(s) => if s.Constant? then Const(Neg(s.val)) else Not(e)
    case Not(a) => a
    case Cmp(rel, l, r) => Cmp(Flip(rel), l, r)
    case Bin(op, l, r) => Bin(Dual(op), Opposite(l), Opposite(r))
  }

  lemma {:induction false} TransformOpposite(e: Expr)
    requires Normal(e)
    ensures TransformExpr(Not(e)) == Opposite(e)
  {
    TransformFixesNormal(e);
    if e.Bin? {
      TransformOpposite(e.left);
      TransformOpposite(e.right);
      assert DeMorgan(e.op, e.left, e.right) == Bin(Dual(e.op), Not(e.left), Not(e.right));
    }
  }

  /** The normal form of e, or of its negation, by one descent. */
  function NormalForm(e: Expr, negated: bool): Expr {
    match e
    case Not(a) => NormalForm(a, !negated)
    case Bin(op, l, r) => Bin(if negated then Dual(op) else op, NormalForm(l, negated), NormalForm(r, negated))
    case Sym(_) => if negated then Opposite(e) else e
    case Cmp(rel, l, r) =>
      if l.Type() == Boolean && r.Constant? then
        if r.val == MOD then Const(if (rel == Eq) == negated then YES else NO)
        else if ((r.val == YES) == (rel == Eq)) != negated then Sym(l) else Not(Sym(l))
      else Cmp(if negated then Flip(rel) else rel, l, r)
  }

  lemma {:induction false} OppositeForm(e: Expr)
    ensures Opposite(NormalForm(e, false)) == NormalForm(e, true) && Opposite(NormalForm(e, true)) == NormalForm(e, false)
  {
    match e
    case Not(a) => OppositeForm(a);
    case Bin(_, l, r) =>
      OppositeForm(l);
      OppositeForm(r);
    case Sym(_) =>
    case Cmp(_, _, _) =>
  }

  /** Main result: the rewriting that re-enters itself is the one descent. */
  lemma {:induction false} TransformIs(e: Expr)
    ensures TransformExpr(e) == NormalForm(e, false)
  {
    match e
    case Sym(_) =>
    case Cmp(_, _, _) =>
    case Bin(_, l, r) =>
      TransformIs(l);
      TransformIs(r);
    case Not(a) =>
      var t := TransformExpr(a);
      TransformIs(a);
      TransformNormal(a);
      TransformIdempotent(a);
      TransformOpposite(t);
      OppositeForm(a);
      assert TransformExpr(Not(a)) == TransformExpr(Not(t));
  }
}
