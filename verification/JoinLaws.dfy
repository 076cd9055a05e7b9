/** Which two operands expr_join_or and expr_join_and make into one, and what of them. */
module JoinLaws {
  import opened Tristate
  import opened Expr
  import opened Equality
  import opened Join

  /** Comparisons of one tristate symbol, with two constants. */
  predicate SameSubject(a: Expr, b: Expr) {
    a.Cmp? && b.Cmp? && a.lsym == b.lsym && a.lsym.Type() == SymType.Tristate && a.rsym.IsConst() && b.rsym.IsConst()
  }

  /** ... both by rel, with different values among y, m and n. */
  predicate TwoValues(a: Expr, b: Expr, rel: Rel) {
    SameSubject(a, b) && a.rel == b.rel == rel && a.rsym.Constant? && b.rsym.Constant? && a.rsym.val != b.rsym.val
  }

  /** A boolean symbol and its negation. */
  predicate Complementary(a: Expr, b: Expr) {
    (a.Sym? && a.sym.Type() == Boolean && b == Not(a)) || (b.Sym? && b.sym.Type() == Boolean && a == Not(b))
  }

  /** x compares the boolean or tristate symbol s so that s decides x, or x decides s. */
  predicate Bears(s: Symbol, x: Expr) {
    s.Type() in {Boolean, SymType.Tristate} &&
    x in {Cmp(Eq, s, Constant(YES)), Cmp(Ne, s, Constant(NO)), Cmp(Ne, s, Constant(MOD))}
  }

  /** The pairs of different operands that are made into one. */
  predicate Mergeable(op: Op, a: Expr, b: Expr) {
    match op
    case Or => TwoValues(a, b, Eq) || Complementary(a, b)
    case And =>
      (a.Sym? && Bears(a.sym, b)) || (b.Sym? && Bears(b.sym, a)) ||
      TwoValues(a, b, Ne) || (SameSubject(a, b) && a.rel != b.rel)
  }

  /** Exactly equal operands and mergeable pairs are joined. */
  lemma JoinIff(op: Op, a: Expr, b: Expr)
    ensures JoinOp(op, a, b).Some? <==> ExprEq(a, b) || Mergeable(op, a, b)
    ensures ExprEq(a, b) ==> JoinOp(op, a, b) == Some(a)
  {
    if !ExprEq(a, b) {
      if op == Or { JoinOrIff(a, b); } else { JoinAndIff(a, b); }
    }
  }

  lemma JoinOrIff(a: Expr, b: Expr)
    requires !ExprEq(a, b)
    ensures JoinOr(a, b).Some? <==> TwoValues(a, b, Eq) || Complementary(a, b)
  {
    if a.Cmp? && b.Cmp? && a.lsym == b.lsym && a.rsym.Constant? && b.rsym.Constant? {
      assert a.rel == b.rel ==> a.rsym.val != b.rsym.val;
    }
  }

  lemma JoinAndIff(a: Expr, b: Expr)
    requires !ExprEq(a, b)
    ensures JoinAnd(a, b).Some? <==> Mergeable(And, a, b)
  {
    if a.Cmp? && b.Cmp? && a.lsym == b.lsym && a.rsym.Constant? && b.rsym.Constant? {
      assert a.rel == b.rel ==> a.rsym.val != b.rsym.val;
    }
  }

  /** The value among n, m and y that is neither c nor d. */
  function Third(c: Tri, d: Tri): Tri
    requires c != d
  {
    3 - c - d
  }

  /** s = c or s = d leaves only the third value out; a boolean or its negation is y. */
  lemma OrResult(a: Expr, b: Expr)
    requires !ExprEq(a, b)
    ensures TwoValues(a, b, Eq) ==> JoinOr(a, b) == Some(Cmp(Ne, a.lsym, Constant(Third(a.rsym.val, b.rsym.val))))
    ensures Complementary(a, b) ==> JoinOr(a, b) == Some(Const(YES))
  {}

  /** s != c and s != d leaves only the third value; s = x decides s != y; beside s itself a
      comparison makes it s = y, unless it follows from s. */
  lemma AndResult(a: Expr, b: Expr)
    requires !ExprEq(a, b)
    ensures TwoValues(a, b, Ne) ==> JoinAnd(a, b) == Some(Cmp(Eq, a.lsym, Constant(Third(a.rsym.val, b.rsym.val))))
    ensures SameSubject(a, b) && a.rel == Eq && b.rel == Ne ==> JoinAnd(a, b) == Some(if a.rsym == b.rsym then Const(NO) else a)
    ensures SameSubject(a, b) && a.rel == Ne && b.rel == Eq ==> JoinAnd(a, b) == Some(if a.rsym == b.rsym then Const(NO) else b)
    ensures a.Sym? && Bears(a.sym, b) ==>
      JoinAnd(a, b) == Some(if b == Cmp(Ne, a.sym, Constant(NO)) then a else Cmp(Eq, a.sym, Constant(YES)))
    ensures b.Sym? && Bears(b.sym, a) ==>
      JoinAnd(a, b) == Some(if a == Cmp(Ne, b.sym, Constant(NO)) then b else Cmp(Eq, b.sym, Constant(YES)))
  {}
}
