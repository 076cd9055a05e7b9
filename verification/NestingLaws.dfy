/** When the submenu test of menu_finalize succeeds. */
module NestingLaws {
  import opened Tristate
  import opened Expr
  import opened Equality
  import opened OperandLaws
  import opened Nesting

  function Symbols(e: Expr): set<Symbol> {
    match e
    case Sym(s) => {s}
    case Not(a) => Symbols(a)
    case Cmp(_, l, r) => {l, r}
    case Bin(_, l, r) => Symbols(l) + Symbols(r)
  }

  lemma {:induction false} ContainsIff(e: Expr, s: Symbol)
    ensures ContainsSymbol(e, s) <==> s in Symbols(e)
  {
    match e
    case Sym(_) =>
    case Cmp(_, _, _) =>
    case Not(a) => ContainsIff(a, s);
    case Bin(_, l, r) =>
      ContainsIff(l, s);
      ContainsIff(r, s);
  }

  /** x cannot be y unless s is set: s itself, s = y, s = m or s != n. */
  predicate Demands(x: Expr, s: Symbol) {
    x in {Sym(s), Cmp(Eq, s, Constant(YES)), Cmp(Eq, s, Constant(MOD)), Cmp(Ne, s, Constant(NO))}
  }

  /** expr_depends_symbol finds exactly the conjuncts that demand the symbol. */
  lemma {:induction false} DependsIff(e: Expr, s: Symbol)
    ensures DependsSymbol(e, s) <==> exists x :: x in OperandSet(And, e) && Demands(x, s)
    decreases e
  {
    if Rooted(And, e) {
      DependsIff(e.left, s);
      DependsIff(e.right, s);
      if x :| x in OperandSet(And, e.left) && Demands(x, s) { assert x in OperandSet(And, e); }
      if x :| x in OperandSet(And, e.right) && Demands(x, s) { assert x in OperandSet(And, e); }
    } else {
      assert DependsSymbol(e, s) == Demands(e, s) by {
        if e.Cmp? && e.rsym.Constant? { assert e.rsym.val in {NO, MOD, YES}; }
      }
      assert forall x :: x in OperandSet(And, e) <==> x == e;
    }
  }

  lemma {:induction false} OperandMentions(op: Op, e: Expr, x: Expr)
    requires x in OperandSet(op, e)
    ensures Symbols(x) <= Symbols(e)
  {
    if Rooted(op, e) {
      if x in OperandSet(op, e.left) { OperandMentions(op, e.left, x); } else { OperandMentions(op, e.right, x); }
    }
  }

  /** An entry one of whose conjuncts demands the symbol is nested below it, whatever the
      visibility of the prompt; one that does not mention the symbol never is. */
  lemma NestsByDemand(s: Symbol, shown: Option<Expr>, dep: Option<Expr>)
    ensures dep.Some? && (exists x :: x in OperandSet(And, dep.value) && Demands(x, s)) ==> Nests(s, shown, dep)
    ensures dep.None? || s !in Symbols(dep.value) ==> !Nests(s, shown, dep)
  {
    if dep.Some? {
      ContainsIff(dep.value, s);
      DependsIff(dep.value, s);
      if x :| x in OperandSet(And, dep.value) && Demands(x, s) { OperandMentions(And, dep.value, x); }
    }
  }

  // The second half of the test.

  /** A conjunction of symbols, negations and comparisons, none of them y, n or quoted; or y. */
  predicate Conjunction(e: Expr) { Cancellable(And, e) && forall x | x in OperandSet(And, e) :: !x.Bin? }

  lemma CancellableDecided(op: Op, a: Expr, b: Expr)
    requires Cancellable(op, a) && Cancellable(op, b)
    ensures Decided(op, a, b)
  {
    CancellableOperands(op, a);
    CancellableOperands(op, b);
    forall x, y | x in OperandSet(op, a) && y in OperandSet(op, b) ensures DecidedPair(x, y) {
      DecideOne(op, x, y);
    }
  }

  lemma DecideOne(op: Op, x: Expr, y: Expr)
    requires x == Const(Unit(op)) || Plain(x)
    requires y == Const(Unit(op)) || Plain(y)
    ensures DecidedPair(x, y)
  {
    if x == Const(Unit(op)) {
      UnitDecided(op, y);
    } else if y == Const(Unit(op)) {
      UnitDecided(op, x);
    } else {
      ExprEqComplete(x, y);
    }
  }

  /** What is left of two conjunctions, unless both are single literals, which are not even
      looked at. */
  lemma ConjunctionsLeft(a: Expr, b: Expr)
    requires Conjunction(a) && Conjunction(b) && (a.Bin? || b.Bin?)
    ensures EliminateEq(a, b).snd == EliminateYn(Cancel(And, a, b).snd)
  {
    assert !a.Bin? ==> a in OperandSet(And, a);
    assert a.Bin? && a.op == Or ==> a in OperandSet(And, a);
    assert b.Bin? && b.op == Or ==> b in OperandSet(And, b);
    CancelRooted(And, a, b);
    if !Rooted(And, b) {
      SingleLeft(a, b);
    }
  }

  /** A single literal is left as it is or becomes y. */
  lemma {:induction false} SingleLeft(a: Expr, b: Expr)
    requires !b.Bin?
    ensures !Cancel(And, a, b).snd.Bin?
    decreases a
  {
    if Rooted(And, a) {
      SingleLeft(a.left, b);
      SingleLeft(a.right, Cancel(And, a.left, b).snd);
    }
  }

  lemma StrippedIff(a: Expr, b: Expr)
    requires Conjunction(a) && Conjunction(b)
    ensures EliminateEq(a, b).snd == Const(YES) <==>
      if a.Bin? || b.Bin? then Operands(And, b) <= Operands(And, a) else b == Const(YES)
  {
    if a.Bin? || b.Bin? {
      var p := Cancel(And, a, b);
      CancellableDecided(And, a, b);
      CancellableOperands(And, a);
      CancellableOperands(And, b);
      CancelOperands(And, a, b);
      CancellableOperands(And, p.snd);
      EliminateYnOperands(And, p.snd);
      ConjunctionsLeft(a, b);
      NothingLeft(Operands(And, b), Operands(And, a));
    }
  }

  /** Main result: where no conjunct demands the symbol and both sides are conjunctions once
      normalised, the entry is nested exactly if it mentions the symbol and everything the
      prompt asks for is among its own conjuncts. Two single literals are not compared. */
  lemma NestsIff(s: Symbol, shown: Option<Expr>, dep: Expr)
    requires Conjunction(Visible(Some(dep))) && Conjunction(Visible(shown))
    requires forall x | x in OperandSet(And, dep) :: !Demands(x, s)
    ensures var a, b := Visible(Some(dep)), Visible(shown);
      Nests(s, shown, Some(dep)) <==>
        s in Symbols(dep) && if a.Bin? || b.Bin? then Operands(And, b) <= Operands(And, a) else b == Const(YES)
  {
    ContainsIff(dep, s);
    DependsIff(dep, s);
    StrippedIff(Visible(Some(dep)), Visible(shown));
  }
}
