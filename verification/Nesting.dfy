/** Dependencies of menu entries: expr_trans_compare, expr_trans_bool, expr_depends_symbol,
    and the test by which menu_finalize decides to nest an entry below the one before it. */
module Nesting {
  import opened Tristate
  import opened Expr
  import opened Equality
  import opened EqualityLaws
  import opened Join
  import opened Transform
  import opened DupsLaws
  import opened DupsResult

  function Negated(rel: Rel, e: Expr): Expr { if rel == Ne then Not(e) else e }

  /** expr_trans_compare on an expression that is not null: e rel c, spelled out. */
  function TransCompare(e: Expr, rel: Rel, c: Tri): Expr {
    match e
    case Bin(op, l, r) =>
      var l', r' := TransCompare(l, Eq, c), TransCompare(r, Eq, c);
      Negated(rel, if c == YES then Bin(op, l', r') else if c == NO then Bin(Dual(op), l', r') else e)
    case Not(a) => TransCompare(a, Flip(rel), c)
    case Cmp(_, _, _) => if c == MOD then Const(if rel == Eq then NO else YES)
                         else if (c == YES) == (rel == Eq) then e else Not(e)
    case Sym(s) => Cmp(rel, s, Constant(c))
  }

  /** expr_trans_compare */
  function TransCompareOpt(e: Option<Expr>, rel: Rel, c: Tri): Expr {
    match e
    case None => Negated(rel, Const(c))
    case Some(x) => TransCompare(x, rel, c)
  }

  /** Every symbol used as an expression has a string that follows its tristate value. */
  predicate LogicalLeaves(e: Expr) {
    match e
    case Sym(s) => s.Logical()
    case Not(a) => LogicalLeaves(a)
    case Cmp(_, _, _) => true
    case Bin(_, l, r) => LogicalLeaves(l) && LogicalLeaves(r)
  }

  /** No NOT is applied to a value m. */
  predicate NotsSettled(e: Expr, v: Valuation) {
    match e
    case Sym(_) => true
    case Not(a) => NotsSettled(a, v) && Eval(a, v) != MOD
    case Cmp(_, _, _) => true
    case Bin(_, l, r) => NotsSettled(l, v) && NotsSettled(r, v)
  }

  function Holds(e: Expr, rel: Rel, c: Tri, v: Valuation): Tri { Truth((Eval(e, v) == c) == (rel == Eq)) }

  /** e with every symbol read as y or n by its string: for a comparison with n all but "n"
      count as y, for one with y all but "y" count as n. */
  function Read(e: Expr, c: Tri, v: Valuation): (t: Tri)
    ensures t != MOD
  {
    match e
    case Sym(s) => Truth((v(s).text == Letter(c)) == (c == YES))
    case Not(a) => Neg(Read(a, c, v))
    case Cmp(_, _, _) => Eval(e, v)
    case Bin(op, l, r) => Apply(op, Read(l, c, v), Read(r, c, v))
  }

  function ReadOpt(e: Option<Expr>, v: Valuation): Tri {
    match e case None => YES case Some(x) => Read(x, NO, v)
  }

  /** For y and n, expr_trans_compare is the comparison of what is read. */
  lemma {:induction false} TransCompareValue(e: Expr, rel: Rel, c: Tri, v: Valuation)
    requires Typed(v) && c != MOD
    ensures Eval(TransCompare(e, rel, c), v) == Truth((Read(e, c, v) == c) == (rel == Eq))
  {
    match e
    case Sym(s) => TypedConstant(v, c);
    case Cmp(_, _, _) =>
    case Not(a) => TransCompareValue(a, Flip(rel), c, v);
    case Bin(op, l, r) =>
      TransCompareValue(l, Eq, c, v);
      TransCompareValue(r, Eq, c, v);
  }

  /** Where strings follow tristate values, reading an expression settles some m. */
  lemma {:induction false} ReadRefines(e: Expr, c: Tri, v: Valuation)
    requires Typed(v) && LogicalLeaves(e) && c != MOD
    ensures Refines(Eval(e, v), Read(e, c, v))
    ensures NotsSettled(e, v) ==> (Read(e, c, v) == c <==> Eval(e, v) == c)
  {
    match e
    case Sym(s) =>
      assert TypedAt(s, v(s));
      LetterInjective(v(s).tri, c);
    case Cmp(_, _, _) =>
    case Not(a) => ReadRefines(a, c, v);
    case Bin(op, l, r) =>
      ReadRefines(l, c, v);
      ReadRefines(r, c, v);
  }

  /** expr_trans_compare is the comparison of the value exactly if reading the expression
      does not change whether it is c; with boolean and tristate symbols only, exactly
      unless an m is read as c. */
  lemma TransCompareExact(e: Expr, rel: Rel, c: Tri, v: Valuation)
    requires Typed(v) && c != MOD
    ensures Eval(TransCompare(e, rel, c), v) == Holds(e, rel, c, v) <==> (Read(e, c, v) == c <==> Eval(e, v) == c)
    ensures LogicalLeaves(e) ==>
      (Eval(TransCompare(e, rel, c), v) == Holds(e, rel, c, v) <==> Eval(e, v) != MOD || Read(e, c, v) != c)
    ensures LogicalLeaves(e) && NotsSettled(e, v) ==> Eval(TransCompare(e, rel, c), v) == Holds(e, rel, c, v)
  {
    TransCompareValue(e, rel, c, v);
    if LogicalLeaves(e) { ReadRefines(e, c, v); }
  }

  /** Of a NOT the answer is right exactly if reading does not change whether the operand is
      the opposite constant; a NOT over an m that is settled below always goes wrong. */
  lemma NotCompareExact(a: Expr, rel: Rel, c: Tri, v: Valuation)
    requires Typed(v) && c != MOD
    ensures Eval(TransCompare(Not(a), rel, c), v) == Holds(Not(a), rel, c, v) <==>
      (Read(a, c, v) == Neg(c) <==> Eval(a, v) == Neg(c))
    ensures LogicalLeaves(a) && NotsSettled(a, v) ==>
      (Eval(TransCompare(Not(a), rel, c), v) == Holds(Not(a), rel, c, v) <==> Eval(a, v) != MOD)
  {
    TransCompareExact(Not(a), rel, c, v);
    if LogicalLeaves(a) { ReadRefines(a, c, v); }
  }

  // Expressions that are never m.

  predicate Crisp(e: Expr) {
    match e
    case Sym(s) => s.Type() == Boolean || (s.Constant? && s.val != MOD)
    case Not(a) => Crisp(a)
    case Cmp(_, _, _) => true
    case Bin(_, l, r) => Crisp(l) && Crisp(r)
  }

  lemma {:induction false} CrispTwoValued(e: Expr, v: Valuation)
    requires Typed(v) && Crisp(e)
    ensures TwoValued(e, v)
  {
    match e
    case Sym(s) => assert TypedAt(s, v(s));
    case Cmp(_, _, _) =>
    case Not(a) => CrispTwoValued(a, v);
    case Bin(_, l, r) =>
      CrispTwoValued(l, v);
      CrispTwoValued(r, v);
  }

  lemma {:induction false} TransCompareCrisp(e: Expr, rel: Rel, c: Tri)
    requires c != MOD
    ensures Crisp(TransCompare(e, rel, c))
    ensures Proper(e) ==> Proper(TransCompare(e, rel, c))
  {
    match e
    case Sym(s) =>
    case Cmp(_, _, _) =>
    case Not(a) => TransCompareCrisp(a, Flip(rel), c);
    case Bin(op, l, r) =>
      TransCompareCrisp(l, Eq, c);
      TransCompareCrisp(r, Eq, c);
  }

  lemma {:induction false} TransformCrisp(e: Expr)
    requires Crisp(e)
    ensures Crisp(TransformExpr(e))
    decreases Weight(e)
  {
    match e
    case Sym(_) =>
    case Cmp(_, _, _) =>
    case Bin(op, l, r) =>
      TransformCrisp(l);
      TransformCrisp(r);
    case Not(a) =>
      TransformCrisp(a);
      match TransformExpr(a)
      case Not(x) => TransformCrisp(x);
      case Cmp(rel, l, r) =>
      case Bin(op, l, r) =>
        assert Crisp(Not(l)) && Crisp(Not(r));
        TransformCrisp(DeMorgan(op, l, r));
      case Sym(s) =>
  }

  /** The normalised form of "e != n" that menu_finalize compares. */
  function Visible(e: Option<Expr>): Expr {
    EliminateDups(TransformExpr(TransCompareOpt(e, Ne, NO)))
  }

  predicate ProperOpt(e: Option<Expr>) { e.Some? ==> Proper(e.value) }

  predicate LogicalOpt(e: Option<Expr>) { e.Some? ==> LogicalLeaves(e.value) }

  /** Comparing first makes everything after the reading exact. */
  lemma VisibleValue(e: Option<Expr>, v: Valuation)
    requires Typed(v) && ProperOpt(e)
    ensures Eval(Visible(e), v) == Truth(ReadOpt(e, v) != NO)
  {
    var t := TransCompareOpt(e, Ne, NO);
    TypedConstant(v, NO);
    if e.Some? {
      TransCompareCrisp(e.value, Ne, NO);
      TransCompareValue(e.value, Ne, NO, v);
    }
    assert Crisp(t) && Proper(t);
    TransformValue(t, v);
    TransformNormal(t);
    TransformCrisp(t);
    CrispTwoValued(TransformExpr(t), v);
    EliminateDupsExact(TransformExpr(t), v);
  }

  /** So the normalised form says whether e is visible exactly if reading e does not change
      that: among boolean and tristate symbols, unless an m is read as n. */
  lemma VisibleExact(e: Option<Expr>, v: Valuation)
    requires Typed(v) && ProperOpt(e)
    ensures Eval(Visible(e), v) == Truth(EvalOpt(e, v) != NO) <==> (ReadOpt(e, v) == NO <==> EvalOpt(e, v) == NO)
    ensures LogicalOpt(e) ==>
      (Eval(Visible(e), v) == Truth(EvalOpt(e, v) != NO) <==> EvalOpt(e, v) != MOD || ReadOpt(e, v) != NO)
  {
    VisibleValue(e, v);
    if e.Some? && LogicalLeaves(e.value) { ReadRefines(e.value, NO, v); }
  }

  // The submenu test.

  /** expr_contains_symbol */
  predicate ContainsSymbol(e: Expr, s: Symbol) {
    match e
    case Sym(x) => x == s
    case Not(a) => ContainsSymbol(a, s)
    case Cmp(_, l, r) => l == s || r == s
    case Bin(_, l, r) => ContainsSymbol(l, s) || ContainsSymbol(r, s)
  }

  /** expr_depends_symbol */
  predicate DependsSymbol(e: Expr, s: Symbol) {
    match e
    case Sym(x) => x == s
    case Cmp(rel, l, r) => l == s && r.Constant? && (if rel == Eq then r.val != NO else r.val == NO)
    case Bin(And, l, r) => DependsSymbol(l, s) || DependsSymbol(r, s)
    case _ => false
  }

  /** The symbol is set: its string is not "n". */
  predicate IsSet(s: Symbol, v: Valuation) { v(s).text != "n" }

  /** An expression that depends on a symbol is n, and is read as n, unless the symbol is set. */
  lemma {:induction false} DependsSymbolSound(e: Expr, s: Symbol, v: Valuation)
    requires Typed(v) && DependsSymbol(e, s)
    ensures Eval(e, v) != NO || Read(e, NO, v) != NO ==> IsSet(s, v)
    ensures s.Logical() ==> (IsSet(s, v) <==> v(s).tri != NO)
  {
    assert TypedAt(s, v(s));
    match e
    case Sym(_) =>
    case Cmp(_, _, r) => TypedConstant(v, r.val);
    case Bin(_, l, r) => if DependsSymbol(l, s) { DependsSymbolSound(l, s, v); } else { DependsSymbolSound(r, s, v); }
  }

  /** The test of menu_finalize for an entry with dependency dep that follows an entry with
      symbol s and prompt visibility shown. */
  predicate Nests(s: Symbol, shown: Option<Expr>, dep: Option<Expr>) {
    dep.Some? && ContainsSymbol(dep.value, s) &&
    (DependsSymbol(dep.value, s) || EliminateEq(Visible(dep), Visible(shown)).snd == Const(YES))
  }

  /** An entry is only nested below an entry it is never visible without, visibility being
      what is read: then the symbol above it is set or has a visible prompt. */
  lemma NestingSound(s: Symbol, shown: Option<Expr>, dep: Option<Expr>, v: Valuation)
    requires Typed(v) && ProperOpt(shown) && ProperOpt(dep) && Nests(s, shown, dep)
    ensures ReadOpt(dep, v) != NO ==> IsSet(s, v) || ReadOpt(shown, v) != NO
  {
    if DependsSymbol(dep.value, s) {
      DependsSymbolSound(dep.value, s, v);
    } else {
      StrippedToYes(Visible(dep), Visible(shown));
      VisibleValue(dep, v);
      VisibleValue(shown, v);
    }
  }

  /** Reading e changes whether it is n. */
  predicate Misread(e: Option<Expr>, v: Valuation) { (ReadOpt(e, v) == NO) != (EvalOpt(e, v) == NO) }

  /** Something above is visible: the symbol is set or its prompt is shown. */
  predicate Above(s: Symbol, shown: Option<Expr>, v: Valuation) { IsSet(s, v) || EvalOpt(shown, v) != NO }

  /** For the values themselves it holds unless one of the two is misread. With boolean and
      tristate symbols only, whatever the prompt's visibility looks like, it fails exactly
      if the dependency is an m read as n while nothing above is visible. */
  lemma NestingExact(s: Symbol, shown: Option<Expr>, dep: Option<Expr>, v: Valuation)
    requires Typed(v) && ProperOpt(shown) && ProperOpt(dep) && Nests(s, shown, dep)
    ensures EvalOpt(dep, v) != NO && !Above(s, shown, v) ==> Misread(dep, v) || Misread(shown, v)
    ensures LogicalOpt(shown) && LogicalOpt(dep) ==>
      (EvalOpt(dep, v) != NO && !Above(s, shown, v) <==>
       EvalOpt(dep, v) == MOD && ReadOpt(dep, v) == NO && !Above(s, shown, v))
    ensures LogicalOpt(shown) && LogicalOpt(dep) && NotsSettled(dep.value, v) && EvalOpt(dep, v) != NO ==> Above(s, shown, v)
    ensures DependsSymbol(dep.value, s) && EvalOpt(dep, v) != NO ==> IsSet(s, v)
  {
    NestingSound(s, shown, dep, v);
    if LogicalOpt(dep) { ReadRefines(dep.value, NO, v); }
    if LogicalOpt(shown) && shown.Some? { ReadRefines(shown.value, NO, v); }
    if DependsSymbol(dep.value, s) { DependsSymbolSound(dep.value, s, v); }
  }

  // Inherited dependencies.

  /** expr_alloc_and */
  function AllocAnd(a: Option<Expr>, b: Option<Expr>): Option<Expr> {
    match (a, b)
    case (None, _) => b
    case (_, None) => a
    case (Some(x), Some(y)) => Some(Bin(And, x, y))
  }

  function Map(f: Expr -> Expr, e: Option<Expr>): Option<Expr> {
    match e case None => None case Some(x) => Some(f(x))
  }

  /** The dependency menu_finalize stores for a child: its own and its parent's, simplified. */
  function Inherit(parent: Option<Expr>, own: Option<Expr>): Option<Expr> {
    Map(EliminateDups, AllocAnd(parent, Map(TransformExpr, own)))
  }

  /** It is the conjunction of both, up to settling an m. */
  lemma InheritRefines(parent: Option<Expr>, own: Option<Expr>, v: Valuation)
    requires Typed(v) && ProperOpt(parent) && ProperOpt(own)
    ensures Refines(Min(EvalOpt(parent, v), EvalOpt(own, v)), EvalOpt(Inherit(parent, own), v))
    ensures ProperOpt(Inherit(parent, own))
  {
    if own.Some? {
      TransformValue(own.value, v);
      TransformNormal(own.value);
    }
    var both := AllocAnd(parent, Map(TransformExpr, own));
    if both.Some? { EliminateDupsRefines(both.value, v); }
  }

  // expr_trans_bool

  /** expr_trans_bool */
  function TransBool(e: Expr): Expr {
    match e
    case Bin(op, l, r) => Bin(op, TransBool(l), TransBool(r))
    case Not(a) => Not(TransBool(a))
    case Cmp(rel, l, r) => if rel == Ne && l.Type() == SymType.Tristate && r == Constant(NO) then Sym(l) else e
    case Sym(_) => e
  }

  /** In negation normal form it keeps which values are n; it may lower a y to m. */
  lemma {:induction false} TransBoolKeepsNo(e: Expr, v: Valuation)
    requires Typed(v) && Normal(e)
    ensures Eval(TransBool(e), v) == NO <==> Eval(e, v) == NO
    ensures Eval(TransBool(e), v) <= Eval(e, v)
  {
    match e
    case Sym(_) =>
    case Cmp(rel, l, r) => if TransBool(e) != e { CompareConstant(v, rel, l, NO); }
    case Not(a) =>
    case Bin(_, l, r) =>
      TransBoolKeepsNo(l, v);
      TransBoolKeepsNo(r, v);
  }

  /** No tristate symbol is compared with n by !=. */
  predicate NothingToRelax(e: Expr) {
    match e
    case Sym(_) => true
    case Not(a) => NothingToRelax(a)
    case Cmp(rel, l, r) => !(rel == Ne && l.Type() == SymType.Tristate && r == Constant(NO))
    case Bin(_, l, r) => NothingToRelax(l) && NothingToRelax(r)
  }

  /** It rewrites every such comparison to the symbol, and changes nothing else. */
  lemma {:induction false} TransBoolRelaxes(e: Expr)
    ensures NothingToRelax(TransBool(e)) && (TransBool(e) == e <==> NothingToRelax(e))
  {
    match e
    case Sym(_) =>
    case Cmp(_, _, _) =>
    case Not(a) => TransBoolRelaxes(a);
    case Bin(_, l, r) =>
      TransBoolRelaxes(l);
      TransBoolRelaxes(r);
  }

  /** Under a NOT the rewrite breaks exactly on m. */
  lemma TransBoolUnderNot(s: Symbol, v: Valuation)
    requires Typed(v) && s.Type() == SymType.Tristate
    ensures var e := Not(Cmp(Ne, s, Constant(NO)));
      (Eval(TransBool(e), v) == NO <==> Eval(e, v) == NO) <==> v(s).tri != MOD
  {
    CompareConstant(v, Ne, s, NO);
  }
}
