/** Dependencies for which the submenu test of menu_finalize goes by what it reads and not by
    what they are worth: a NOT over a tristate that is m, and a symbol that is not defined. */
module NestingExample {
  import opened Tristate
  import opened Expr
  import opened Equality
  import opened Transform
  import opened Dups
  import opened DupsResult
  import opened Nesting

  const T := Config(0, SymType.Tristate)
  const S := Config(1, SymType.Tristate)
  const FOO := Config(2, Unknown)
  const UNSET := Cmp(Eq, S, Constant(NO))

  /** T is m, every other symbol that is defined is n, and one that is not has its name as
      string. */
  function Sample(s: Symbol): Value {
    match s
    case Constant(c) => Value(c, Letter(c))
    case Quoted(text) => Value(NO, text)
    case Config(id, kind) =>
      if kind == SymType.Tristate && id == 0 then Value(MOD, Letter(MOD))
      else Value(NO, if kind == SymType.Tristate || kind == Boolean then Letter(NO) else "FOO")
  }

  lemma SampleTyped()
    ensures Typed(Sample)
  {
    forall s: Symbol ensures TypedAt(s, Sample(s)) {}
  }

  /** !T is m, but !T != n comes out as n; FOO is n, but FOO != n comes out as y. */
  lemma ComparedWrongly()
    ensures Typed(Sample)
    ensures Holds(Not(Sym(T)), Ne, NO, Sample) == YES && Eval(TransCompare(Not(Sym(T)), Ne, NO), Sample) == NO
    ensures Holds(Sym(FOO), Ne, NO, Sample) == NO && Eval(TransCompare(Sym(FOO), Ne, NO), Sample) == YES
  {
    SampleTyped();
  }

  function Opposite(x: Expr): Expr
    requires x.Cmp?
  {
    Cmp(Flip(x.rel), x.lsym, x.rsym)
  }

  /** De Morgan on two alternatives that become comparisons. */
  lemma TransformNeither(a: Expr, b: Expr, x: Expr, y: Expr)
    requires x.Cmp? && ResolveCmp(x) == x && TransformExpr(a) == Opposite(x)
    requires y.Cmp? && ResolveCmp(y) == y && TransformExpr(b) == Opposite(y)
    ensures TransformExpr(Not(Bin(Or, a, b))) == Bin(And, x, y)
  {
    var l, r := Opposite(x), Opposite(y);
    assert ResolveCmp(l) == l && ResolveCmp(r) == r;
    assert TransformExpr(Not(l)) == x && TransformExpr(Not(r)) == y;
    assert TransformExpr(Bin(Or, a, b)) == Bin(Or, l, r);
    assert DeMorgan(Or, l, r) == Bin(And, Not(l), Not(r));
  }

  /** e beside !S is normalised to two comparisons, which stay as they are. */
  lemma VisiblePair(e: Expr, x: Expr)
    requires x.Cmp? && ResolveCmp(x) == x && x.lsym != S
    requires TransformExpr(TransCompare(e, Ne, NO)) == x && TransformExpr(TransCompare(e, Eq, NO)) == Opposite(x)
    ensures Visible(Some(e)) == x
    ensures Visible(Some(Bin(And, e, Not(Sym(S))))) == Bin(And, x, UNSET)
  {
    assert Round(x).count == 0;
    var isSet := Cmp(Ne, S, Constant(NO));
    assert TransCompare(Not(Sym(S)), Eq, NO) == isSet && TransformExpr(isSet) == Opposite(UNSET);
    assert TransCompare(Bin(And, e, Not(Sym(S))), Ne, NO) == Not(Bin(Or, TransCompare(e, Eq, NO), isSet));
    TransformNeither(TransCompare(e, Eq, NO), isSet, x, UNSET);
    PairStays(And, x, UNSET);
  }

  /** Next to a comparison x, another one does not keep the test from succeeding. */
  lemma PairStripped(x: Expr)
    requires x.Cmp?
    ensures EliminateEq(Bin(And, x, UNSET), x).snd == Const(YES)
  {
    var y := UNSET;
    assert Cancel(And, x, x) == Pair(Const(YES), Const(YES), 1);
    assert Cancel(And, y, Const(YES)) == Pair(y, Const(YES), 0);
    assert Cancel(And, Bin(And, x, y), x) == Pair(Bin(And, Const(YES), y), Const(YES), 1);
  }

  /** e beside !S is nested below S where the prompt's visibility comes to the same x. */
  lemma PairNests(e: Expr, shown: Expr, x: Expr)
    requires x.Cmp? && ResolveCmp(x) == x && x.lsym != S
    requires TransformExpr(TransCompare(e, Ne, NO)) == x && TransformExpr(TransCompare(e, Eq, NO)) == Opposite(x)
    requires TransformExpr(TransCompare(shown, Ne, NO)) == x
    ensures Nests(S, Some(shown), Some(Bin(And, e, Not(Sym(S)))))
  {
    VisiblePair(e, x);
    PairStripped(x);
    assert Round(x).count == 0;
    assert Visible(Some(shown)) == x;
    assert ContainsSymbol(Not(Sym(S)), S);
  }

  /** "!T && !S" is nested below S with the prompt visibility "T = n", and is m while the
      prompt is hidden and S is n. */
  lemma NestedByNot()
    ensures var shown, dep := Cmp(Eq, T, Constant(NO)), Bin(And, Not(Sym(T)), Not(Sym(S)));
      && Typed(Sample) && Nests(S, Some(shown), Some(dep))
      && Eval(dep, Sample) == MOD && !Above(S, Some(shown), Sample)
  {
    SampleTyped();
    PairNests(Not(Sym(T)), Cmp(Eq, T, Constant(NO)), Cmp(Eq, T, Constant(NO)));
  }

  /** A symbol that is not boolean and its comparison with n become the same comparison. */
  lemma ReadAlike(f: Symbol, x: Expr)
    requires f.Type() != Boolean && x == Cmp(Ne, f, Constant(NO))
    ensures TransformExpr(TransCompare(x, Ne, NO)) == x && TransformExpr(TransCompare(Sym(f), Ne, NO)) == x
    ensures TransformExpr(TransCompare(x, Eq, NO)) == Opposite(x)
  {
    assert TransCompare(x, Eq, NO) == Not(x) && TransformExpr(x) == x;
  }

  lemma UndefinedNests(f: Symbol)
    requires f.Type() != Boolean && f != S
    ensures Nests(S, Some(Sym(f)), Some(Bin(And, Cmp(Ne, f, Constant(NO)), Not(Sym(S)))))
  {
    var x := Cmp(Ne, f, Constant(NO));
    ReadAlike(f, x);
    PairNests(x, Sym(f), x);
  }

  lemma UndefinedValues()
    ensures Eval(Bin(And, Cmp(Ne, FOO, Constant(NO)), Not(Sym(S))), Sample) == YES
    ensures !Above(S, Some(Sym(FOO)), Sample)
  {
    assert Eval(Cmp(Ne, FOO, Constant(NO)), Sample) == YES && Eval(Not(Sym(S)), Sample) == YES;
  }

  /** "FOO != n && !S" is nested below S with the prompt visibility "FOO", and is y while
      the prompt is hidden and S is n. */
  lemma NestedByUndefined()
    ensures var shown, dep := Sym(FOO), Bin(And, Cmp(Ne, FOO, Constant(NO)), Not(Sym(S)));
      && Typed(Sample) && Nests(S, Some(shown), Some(dep))
      && Eval(dep, Sample) == YES && !Above(S, Some(shown), Sample)
  {
    SampleTyped();
    UndefinedNests(FOO);
    UndefinedValues();
  }

  /** Both dependencies are stored by menu_finalize just as they are. */
  lemma StoredForm(e: Expr)
    requires e == Not(Sym(T)) || e == Cmp(Ne, FOO, Constant(NO))
    ensures Inherit(None, Some(Bin(And, e, Not(Sym(S))))) == Some(Bin(And, e, Not(Sym(S))))
  {
    TransformIdempotent(Bin(And, e, Not(Sym(S))));
    PairStays(And, e, Not(Sym(S)));
  }
}
