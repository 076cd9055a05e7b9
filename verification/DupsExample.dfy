/** A tristate dependency whose value expr_eliminate_dups changes: (s && y) || !s is m when s
    is m, but is simplified to y. */
module DupsExample {
  import opened Tristate
  import opened Expr
  import opened Equality
  import opened Transform
  import opened Slots
  import opened Dups
  import opened DupsLaws
  import opened DupsResult

  function Confirmed(s: Symbol): Expr { Bin(And, Sym(s), Const(YES)) }

  function EitherWay(s: Symbol): Expr { Bin(Or, Confirmed(s), Not(Sym(s))) }

  /** The negation of s && y is spelled out by !s. */
  lemma ContradictedByNot(s: Symbol)
    requires s.Config?
    ensures Contradicted(Or, Confirmed(s), Not(Sym(s)))
  {
    var x, n := Not(Sym(s)), Const(NO);
    assert TransformExpr(Not(Const(YES))) == n && TransformExpr(x) == x;
    assert DeMorgan(And, Sym(s), Const(YES)) == Bin(Or, x, Not(Const(YES)));
    assert TransformExpr(Not(Confirmed(s))) == Bin(Or, x, n);
    assert ExprEq(Sym(s), Sym(s)) && ExprEq(x, x) && ExprEq(n, n);
    assert ExtractEq(Or, None, x, x) == Extracted(Some(x), n, n);
    assert ExtractEq(Or, Some(x), n, n) == Extracted(Some(Bin(Or, x, n)), n, n);
    assert ExtractEq(Or, None, Bin(Or, x, n), x) == Extracted(Some(Bin(Or, x, n)), Bin(Or, n, n), n);
  }

  /** Nothing can be joined, neither in s && y nor around it. */
  lemma NothingToJoin(s: Symbol)
    requires s.Config?
    ensures Dups1(Or, EitherWay(s), [], []).count == 0
    ensures Dups2(And, Confirmed(s), [], []) == Rewritten(Confirmed(s), 0)
  {
    PairClean(And, Sym(s), Const(YES));
    var e := EitherWay(s);
    forall p, q | OperandSlot(Or, e, p) && OperandSlot(Or, e, q) && p != q ensures Unjoinable(Or, e, p, q) {
      PairSlots(Or, Confirmed(s), Not(Sym(s)), p);
      PairSlots(Or, Confirmed(s), Not(Sym(s)), q);
    }
    Dups1ZeroIf(Or, e, [], []);
  }

  /** s && y meets !s and is dropped, which leaves nothing to do. */
  lemma SecondPass(s: Symbol)
    requires s.Config?
    ensures Dups2(Or, EitherWay(s), [], []) == Rewritten(Bin(Or, Const(YES), Not(Sym(s))), 1)
  {
    var e, settled := EitherWay(s), Bin(Or, Const(YES), Not(Sym(s)));
    NothingToJoin(s);
    ContradictedByNot(s);
    assert [] + [L] == [L] && [] + [R] == [R];
    assert At(e, [L]) == Confirmed(s) && At(e, [R]) == Not(Sym(s));
    assert Child(e, L) == Confirmed(s) && SetChild(e, L, Const(YES)) == settled && Child(settled, L) == Const(YES);
    assert Put(Confirmed(s), [], Const(YES)) == Const(YES) && At(Const(YES), []) == Const(YES);
    assert Put(e, [L], Confirmed(s)) == e;
    assert Put(e, [L], Const(YES)) == settled;
    assert At(settled, [L]) == Const(YES);
    assert Dups2(Or, e, [L], [L]) == Rewritten(e, 0);
    assert Meet(Or, Rewritten(e, 0), [L], [R], Rewritten(Confirmed(s), 0)) == Rewritten(settled, 1);
    assert Dups2(Or, e, [L], [R]) == Rewritten(settled, 1);
    assert At(e, []) == e && SplitSecond(Or, e, [L], []) == Rewritten(settled, 1);
    assert Dups2(Or, e, [L], []) == Rewritten(settled, 1);
    Dups2Flat(Or, settled, [R], []);
  }

  /** For every tristate symbol the value is changed exactly where the symbol is m. */
  lemma DupsSettlesMod(s: Symbol, v: Valuation)
    requires Typed(v) && s.Type() == SymType.Tristate
    ensures EliminateDups(EitherWay(s)) == Const(YES)
    ensures Eval(EitherWay(s), v) == if v(s).tri == MOD then MOD else YES
    ensures Eval(EliminateDups(EitherWay(s)), v) == Eval(EitherWay(s), v) <==> v(s).tri != MOD
  {
    TypedConstant(v, YES);
    NothingToJoin(s);
    SecondPass(s);
    assert Round(EitherWay(s)) == Rewritten(Bin(Or, Const(YES), Not(Sym(s))), 1);
    assert EliminateYn(Round(EitherWay(s)).tree) == Const(YES);
    assert Round(Const(YES)) == Rewritten(Const(YES), 0);
    assert EliminateDups(EitherWay(s)) == EliminateDups(Const(YES)) == Const(YES);
    assert TypedAt(s, v(s)) && Eval(Sym(s), v) == v(s).tri;
    assert Eval(Not(Sym(s)), v) == Neg(Eval(Sym(s), v));
    assert Eval(Confirmed(s), v) == Min(v(s).tri, YES);
  }
}
