/** What expr_eq, expr_eliminate_eq and expr_eliminate_yn promise. */
module EqualityLaws {
  import opened Tristate
  import opened Expr
  import opened Equality

  lemma {:induction false} EliminateYnValue(e: Expr, v: Valuation)
    requires Typed(v)
    ensures Eval(EliminateYn(e), v) == Eval(e, v)
  {
    if e.Bin? {
      EliminateYnValue(e.left, v);
      EliminateYnValue(e.right, v);
      TypedConstant(v, NO);
      TypedConstant(v, YES);
    }
  }

  /** A y or n operand below AND/OR nodes only: what expr_eliminate_yn can remove. */
  predicate ConstOperand(e: Expr) {
    e.Bin? &&
    (e.left == Const(NO) || e.left == Const(YES) || e.right == Const(NO) || e.right == Const(YES) ||
     ConstOperand(e.left) || ConstOperand(e.right))
  }

  lemma {:induction false} EliminateYnShrinks(e: Expr)
    ensures !ConstOperand(EliminateYn(e))
    ensures if ConstOperand(e) then Size(EliminateYn(e)) < Size(e) else EliminateYn(e) == e
  {
    if e.Bin? {
      EliminateYnShrinks(e.left);
      EliminateYnShrinks(e.right);
    }
  }

  lemma MergeContexts(op: Op, c1: Tri, c2: Tri, x: Tri, y: Tri, z: Tri)
    ensures Apply(op, Apply(op, c1, x), Apply(op, c2, y)) == Apply(op, Apply(op, c1, c2), Apply(op, x, y))
    ensures Apply(op, c1, Apply(op, c2, z)) == Apply(op, Apply(op, c1, c2), z)
  {}

  /** Both sides lose the same AND (or OR) context: there is one value c with
      old == c op new on both sides. */
  lemma {:induction false} CancelContext(op: Op, a: Expr, b: Expr, v: Valuation) returns (c: Tri)
    requires Typed(v)
    ensures Eval(a, v) == Apply(op, c, Eval(Cancel(op, a, b).fst, v))
    ensures Eval(b, v) == Apply(op, c, Eval(Cancel(op, a, b).snd, v))
    decreases Size(a) + Size(b), if Rooted(op, a) || Rooted(op, b) then 0 else 3
  {
    TypedConstant(v, Unit(op));
    if Rooted(op, a) {
      var p := Cancel(op, a.left, b);
      var q := Cancel(op, a.right, p.snd);
      var c1 := CancelContext(op, a.left, b, v);
      var c2 := CancelContext(op, a.right, p.snd, v);
      c := Apply(op, c1, c2);
      MergeContexts(op, c1, c2, Eval(p.fst, v), Eval(q.fst, v), Eval(q.snd, v));
    } else if Rooted(op, b) {
      var p := Cancel(op, a, b.left);
      var q := Cancel(op, p.fst, b.right);
      var c1 := CancelContext(op, a, b.left, v);
      var c2 := CancelContext(op, p.fst, b.right, v);
      c := Apply(op, c1, c2);
      MergeContexts(op, c1, c2, Eval(p.snd, v), Eval(q.snd, v), Eval(q.fst, v));
    } else if a.Sym? && b.Sym? && a.sym == b.sym && a.sym.YesNoFlagged() {
      c := Unit(op);
    } else if ExprEq(a, b) {
      ExprEqSound(a, b, v);
      c := Eval(a, v);
    } else {
      c := Unit(op);
    }
  }

  /** expr_eliminate_eq strips one order-preserving context from both expressions. */
  lemma {:induction false} EliminateEqContext(a: Expr, b: Expr, v: Valuation) returns (lo: Tri, hi: Tri)
    requires Typed(v)
    ensures lo <= hi
    ensures Eval(a, v) == Clamp(lo, hi, Eval(EliminateEq(a, b).fst, v))
    ensures Eval(b, v) == Clamp(lo, hi, Eval(EliminateEq(a, b).snd, v))
    decreases Size(a) + Size(b), 1
  {
    var p := if a.Bin? then Cancel(a.op, a, b) else Pair(a, b, 0);
    var second := p.snd.Bin? && !(p.fst.Bin? && p.fst.op == p.snd.op);
    var q := if second then Cancel(p.snd.op, p.fst, p.snd) else Pair(p.fst, p.snd, 0);
    EliminateYnValue(q.fst, v);
    EliminateYnValue(q.snd, v);
    lo, hi := NO, YES;
    if second {
      var c := CancelContext(p.snd.op, p.fst, p.snd, v);
      lo, hi := ClampUnder(p.snd.op, c, lo, hi);
    }
    assert Eval(p.fst, v) == Clamp(lo, hi, Eval(q.fst, v)) && Eval(p.snd, v) == Clamp(lo, hi, Eval(q.snd, v));
    if a.Bin? {
      var c := CancelContext(a.op, a, b, v);
      lo, hi := ClampUnder(a.op, c, lo, hi);
    }
  }

  lemma {:induction false} ExprEqSound(a: Expr, b: Expr, v: Valuation)
    requires Typed(v)
    requires ExprEq(a, b)
    ensures Eval(a, v) == Eval(b, v)
    decreases Size(a) + Size(b), 2
  {
    if a.Not? {
      ExprEqSound(a.arg, b.arg, v);
    } else if a.Bin? {
      var lo, hi := EliminateEqContext(a, b, v);
    }
  }

  /** When nothing but y is left of the second expression, the first one was the
      stronger condition to begin with. */
  lemma StrippedToYes(a: Expr, b: Expr)
    requires EliminateEq(a, b).snd == Const(YES)
    ensures forall v: Valuation | Typed(v) :: Eval(a, v) <= Eval(b, v)
  {
    forall v: Valuation | Typed(v)
      ensures Eval(a, v) <= Eval(b, v)
    {
      var lo, hi := EliminateEqContext(a, b, v);
      TypedConstant(v, YES);
    }
  }

  /** Removing constants keeps the order of what is left: the neutral constant goes, the
      absorbing one stays alone, and two other operands stay side by side. */
  lemma EliminateYnRules(op: Op, l: Expr, r: Expr)
    requires EliminateYn(l) == l && EliminateYn(r) == r
    ensures EliminateYn(Bin(op, Const(Unit(op)), r)) == r && EliminateYn(Bin(op, l, Const(Unit(op)))) == l
    ensures EliminateYn(Bin(op, Const(Zero(op)), r)) == EliminateYn(Bin(op, l, Const(Zero(op)))) == Const(Zero(op))
    ensures l !in {Const(YES), Const(NO)} && r !in {Const(YES), Const(NO)} ==> EliminateYn(Bin(op, l, r)) == Bin(op, l, r)
  {}

  /** Inside an expression they are removed before anything else. */
  lemma EliminateYnInside(op: Op, l: Expr, r: Expr)
    ensures EliminateYn(Bin(op, l, r)) == EliminateYn(Bin(op, EliminateYn(l), EliminateYn(r)))
    ensures EliminateYn(EliminateYn(l)) == EliminateYn(l)
  {
    EliminateYnShrinks(l);
    EliminateYnShrinks(r);
    EliminateYnShrinks(EliminateYn(l));
    EliminateYnShrinks(EliminateYn(r));
  }

  /** On mixed operators equality is not complete: distributing an AND over an OR keeps the
      value everywhere, but gives an expression that is not found equal. */
  lemma DistributedUnequal(a: Expr, b: Expr, c: Expr)
    ensures var e, d := Bin(And, a, Bin(Or, b, c)), Bin(Or, Bin(And, a, b), Bin(And, a, c));
      !ExprEq(e, d) && forall v: Valuation :: Eval(e, v) == Eval(d, v)
  {
    var e, d := Bin(And, a, Bin(Or, b, c)), Bin(Or, Bin(And, a, b), Bin(And, a, c));
    forall v: Valuation ensures Eval(e, v) == Eval(d, v) {
      assert Eval(Bin(Or, b, c), v) == Max(Eval(b, v), Eval(c, v));
      assert Eval(Bin(And, a, b), v) == Min(Eval(a, v), Eval(b, v)) && Eval(Bin(And, a, c), v) == Min(Eval(a, v), Eval(c, v));
    }
  }
}
