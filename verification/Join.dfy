/** expr_join_or and expr_join_and: one expression for two operands of an OR or AND. */
module Join {
  import opened Tristate
  import opened Expr
  import opened Equality
  import opened EqualityLaws

  /** sym1: the symbol a first operand speaks about, looking through one NOT. */
  function FirstSymbol(e: Expr): Option<Symbol> {
    match e
    case Sym(s) => Some(s)
    case Cmp(_, l, _) => Some(l)
    case Not(Sym(s)) => Some(s)
    case Not(Cmp(_, l, _)) => Some(l)
    case _ => None
  }

  /** sym2: as above, but a second operand's NOT must be over a plain symbol. */
  function SecondSymbol(e: Expr): Option<Symbol> {
    match e
    case Not(Cmp(_, _, _)) => None
    case _ => FirstSymbol(e)
  }

  predicate IsCmp(e: Expr, rel: Rel, c: Tri) { e.Cmp? && e.rel == rel && e.rsym == Constant(c) }

  /** {a, b} are comparisons by rel with the constants {c, d}, in either order. */
  predicate BothCmp(a: Expr, b: Expr, rel: Rel, c: Tri, d: Tri) {
    (IsCmp(a, rel, c) && IsCmp(b, rel, d)) || (IsCmp(a, rel, d) && IsCmp(b, rel, c))
  }

  /** One of a and b is a plain symbol and the other its comparison by rel with c. */
  predicate SymAndCmp(a: Expr, b: Expr, rel: Rel, c: Tri) {
    (a.Sym? && IsCmp(b, rel, c)) || (b.Sym? && IsCmp(a, rel, c))
  }

  /** The symbol both operands speak about when it is boolean or tristate. */
  function CommonSymbol(a: Expr, b: Expr): Option<Symbol> {
    var s := FirstSymbol(a);
    if s.Some? && s == SecondSymbol(b) && s.value.Type() in {Boolean, SymType.Tristate} then s else None
  }

  /** expr_join_or */
  function JoinOr(a: Expr, b: Expr): Option<Expr> {
    if ExprEq(a, b) then Some(a)
    else match CommonSymbol(a, b)
    case None => None
    case Some(s) =>
      if s.Type() == SymType.Tristate && BothCmp(a, b, Eq, YES, MOD) then Some(Cmp(Ne, s, Constant(NO)))
      else if s.Type() == SymType.Tristate && BothCmp(a, b, Eq, YES, NO) then Some(Cmp(Ne, s, Constant(MOD)))
      else if s.Type() == SymType.Tristate && BothCmp(a, b, Eq, MOD, NO) then Some(Cmp(Ne, s, Constant(YES)))
      else if s.Type() == Boolean && ((a.Not? && a.arg.Sym? && b.Sym?) || (b.Not? && b.arg.Sym? && a.Sym?))
        then Some(Const(YES))
      else None
  }

  /** (s = x) && (s != y) for two constants: x itself decides. */
  function JoinEqNe(s: Symbol, x: Symbol, y: Symbol): Expr {
    if x != y then Cmp(Eq, s, x) else Const(NO)
  }

  /** expr_join_and */
  function JoinAnd(a: Expr, b: Expr): Option<Expr> {
    if ExprEq(a, b) then Some(a)
    else match CommonSymbol(a, b)
    case None => None
    case Some(s) =>
      if SymAndCmp(a, b, Eq, YES) then Some(Cmp(Eq, s, Constant(YES)))
      else if SymAndCmp(a, b, Ne, NO) then Some(Sym(s))
      else if SymAndCmp(a, b, Ne, MOD) then Some(Cmp(Eq, s, Constant(YES)))
      else if s.Type() != SymType.Tristate then None
      else if a.Cmp? && a.rel == Eq && b.Cmp? && b.rel == Ne && b.rsym.IsConst() && a.rsym.IsConst()
        then Some(JoinEqNe(s, a.rsym, b.rsym))
      else if a.Cmp? && a.rel == Ne && b.Cmp? && b.rel == Eq && a.rsym.IsConst() && b.rsym.IsConst()
        then Some(JoinEqNe(s, b.rsym, a.rsym))
      else if BothCmp(a, b, Ne, YES, NO) then Some(Cmp(Eq, s, Constant(MOD)))
      else if BothCmp(a, b, Ne, YES, MOD) then Some(Cmp(Eq, s, Constant(NO)))
      else if BothCmp(a, b, Ne, MOD, NO) then Some(Cmp(Eq, s, Constant(YES)))
      else None
  }

  function JoinOp(op: Op, a: Expr, b: Expr): Option<Expr> {
    if op == And then JoinAnd(a, b) else JoinOr(a, b)
  }

  lemma LetterInjective(a: Tri, b: Tri)
    ensures Letter(a) == Letter(b) <==> a == b
  {
    assert Letter(a)[0] == Letter(b)[0] <==> a == b;
  }

  /** Comparing a logical symbol with y, m or n is comparing tristate values. */
  lemma CompareConstant(v: Valuation, rel: Rel, s: Symbol, c: Tri)
    requires Typed(v) && s.Logical()
    ensures Eval(Cmp(rel, s, Constant(c)), v) == Truth((v(s).tri == c) == (rel == Eq))
  {
    assert TypedAt(s, v(s));
    TypedConstant(v, c);
    LetterInjective(v(s).tri, c);
  }

  lemma CompareConstants(v: Valuation, s: Symbol)
    requires Typed(v) && s.Logical()
    ensures forall rel, c: Tri :: Eval(Cmp(rel, s, Constant(c)), v) == Truth((v(s).tri == c) == (rel == Eq))
  {
    forall rel, c: Tri
      ensures Eval(Cmp(rel, s, Constant(c)), v) == Truth((v(s).tri == c) == (rel == Eq))
    {
      CompareConstant(v, rel, s, c);
    }
  }

  lemma DistinctConstants(v: Valuation, x: Symbol, y: Symbol)
    requires Typed(v) && x.IsConst() && y.IsConst() && ProperSym(x) && ProperSym(y)
    ensures x == y <==> v(x).text == v(y).text
  {
    assert TypedAt(x, v(x)) && TypedAt(y, v(y));
    if x.Constant? && y.Constant? {
      LetterInjective(x.val, y.val);
    } else if x.Constant? {
      assert Letter(x.val) in ["y", "m", "n"];
    } else if y.Constant? {
      assert Letter(y.val) in ["y", "m", "n"];
    }
  }

  lemma JoinOrValue(a: Expr, b: Expr, v: Valuation)
    requires Typed(v) && JoinOr(a, b).Some?
    ensures Eval(JoinOr(a, b).value, v) == Max(Eval(a, v), Eval(b, v))
  {
    if ExprEq(a, b) {
      ExprEqSound(a, b, v);
    } else {
      JoinOrSymbolValue(a, b, v);
    }
  }

  lemma JoinOrSymbolValue(a: Expr, b: Expr, v: Valuation)
    requires Typed(v) && JoinOr(a, b).Some? && !ExprEq(a, b)
    ensures Eval(JoinOr(a, b).value, v) == Max(Eval(a, v), Eval(b, v))
  {
    var s := CommonSymbol(a, b).value;
    if s.Type() == SymType.Tristate {
      OperandValue(a, s, v);
      OperandValue(b, s, v);
      OperandValue(JoinOr(a, b).value, s, v);
    } else {
      TypedConstant(v, YES);
      assert TypedAt(s, v(s));
      assert (a.Not? && a.arg == Sym(s) && b == Sym(s)) || (b.Not? && b.arg == Sym(s) && a == Sym(s));
    }
  }

  lemma JoinEqNeValue(s: Symbol, x: Symbol, y: Symbol, v: Valuation)
    requires Typed(v) && x.IsConst() && y.IsConst() && ProperSym(x) && ProperSym(y)
    ensures Eval(JoinEqNe(s, x, y), v) == Min(Eval(Cmp(Eq, s, x), v), Eval(Cmp(Ne, s, y), v))
  {
    DistinctConstants(v, x, y);
    TypedConstant(v, NO);
  }

  /** The value of an operand that is a symbol or its comparison with y, m or n. */
  lemma OperandValue(e: Expr, s: Symbol, v: Valuation)
    requires Typed(v) && s.Logical()
    requires e == Sym(s) || (e.Cmp? && e.lsym == s && e.rsym.Constant?)
    ensures Eval(e, v) == if e.Sym? then v(s).tri else Truth((v(s).tri == e.rsym.val) == (e.rel == Eq))
  {
    if e.Cmp? { CompareConstant(v, e.rel, s, e.rsym.val); }
  }

  lemma JoinAndSymbolValue(a: Expr, b: Expr, v: Valuation)
    requires Typed(v) && JoinAnd(a, b).Some? && !ExprEq(a, b)
    requires !(a.Cmp? && b.Cmp? && a.rel != b.rel)
    ensures Eval(JoinAnd(a, b).value, v) == Min(Eval(a, v), Eval(b, v))
  {
    var s := CommonSymbol(a, b).value;
    var t := JoinAnd(a, b).value;
    if a.Sym? || b.Sym? {
      assert SymAndCmp(a, b, Eq, YES) || SymAndCmp(a, b, Ne, NO) || SymAndCmp(a, b, Ne, MOD);
    } else {
      assert BothCmp(a, b, Ne, YES, NO) || BothCmp(a, b, Ne, YES, MOD) || BothCmp(a, b, Ne, MOD, NO);
    }
    OperandValue(a, s, v);
    OperandValue(b, s, v);
    OperandValue(t, s, v);
  }

  lemma JoinAndValue(a: Expr, b: Expr, v: Valuation)
    requires Typed(v) && Proper(a) && Proper(b) && JoinAnd(a, b).Some?
    ensures Eval(JoinAnd(a, b).value, v) == Min(Eval(a, v), Eval(b, v))
  {
    if ExprEq(a, b) {
      ExprEqSound(a, b, v);
    } else if a.Cmp? && b.Cmp? && a.rel != b.rel {
      var s := CommonSymbol(a, b).value;
      if a.rel == Eq {
        JoinEqNeValue(s, a.rsym, b.rsym, v);
      } else {
        JoinEqNeValue(s, b.rsym, a.rsym, v);
      }
    } else {
      JoinAndSymbolValue(a, b, v);
    }
  }

  /** The joined expression has exactly the value of the pair it stands for. */
  lemma JoinValue(op: Op, a: Expr, b: Expr, v: Valuation)
    requires Typed(v) && Proper(a) && Proper(b)
    requires JoinOp(op, a, b).Some?
    ensures Eval(JoinOp(op, a, b).value, v) == Apply(op, Eval(a, v), Eval(b, v))
  {
    if op == And { JoinAndValue(a, b, v); } else { JoinOrValue(a, b, v); }
  }

  /** A join is never an operand that the same operator could split again, and never
      larger than the operands it replaces. */
  lemma JoinShape(op: Op, a: Expr, b: Expr)
    requires JoinOp(op, a, b).Some?
    ensures var t := JoinOp(op, a, b).value;
      (t == a || !t.Bin?) && 1 + Size(t) <= Size(a) + Size(b) &&
      (Proper(a) && Proper(b) ==> Proper(t))
  {
    if !ExprEq(a, b) {
      var t := JoinOp(op, a, b).value;
      assert t.Sym? || t.Cmp?;
    }
  }
}
