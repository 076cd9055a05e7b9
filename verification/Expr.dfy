/** Dependency expressions (struct expr) and their value under a valuation. */
module Expr {
  import opened Tristate

  datatype SymType = Unknown | Boolean | Tristate | Int | Hex | Text | Other

  /** Symbol pointers. The three fixed constants symbol_no, symbol_mod and symbol_yes,
      the quoted constants (one object for each string, see SymbolTable), and the
      config symbols. */
  datatype Symbol =
    | Constant(val: Tri)
    | Quoted(text: string)
    | Config(id: nat, kind: SymType)
  {
    function Type(): SymType { if Config? then kind else Unknown }

    /** flags & SYMBOL_CONST */
    predicate IsConst() { !Config? }

    /** flags & (SYMBOL_YES|SYMBOL_NO); quoted constants carry all three constant bits */
    predicate YesNoFlagged() { Quoted? || (Constant? && val != MOD) }

    /** The symbol's string is determined by its tristate value. */
    predicate Logical() { Constant? || (Config? && (kind == Boolean || kind == Tristate)) }
  }

  datatype Rel = Eq | Ne

  function Flip(rel: Rel): Rel { if rel == Eq then Ne else Eq }

  datatype Expr =
    | Sym(sym: Symbol)
    | Not(arg: Expr)
    | Cmp(rel: Rel, lsym: Symbol, rsym: Symbol)
    | Bin(op: Op, left: Expr, right: Expr)

  datatype Option<+T> = None | Some(value: T)

  function Const(c: Tri): Expr { Sym(Constant(c)) }

  /** The value a symbol has once calculated: struct symbol_value. */
  datatype Value = Value(tri: Tri, text: string)

  type Valuation = Symbol -> Value

  function Letter(t: Tri): string { if t == NO then "n" else if t == MOD then "m" else "y" }

  /** The valuations the symbol evaluator can produce. */
  ghost predicate Typed(v: Valuation) {
    forall s: Symbol :: TypedAt(s, v(s))
  }

  predicate TypedAt(s: Symbol, x: Value) {
    match s
    case Constant(c) => x == Value(c, Letter(c))
    case Quoted(text) => x == Value(NO, text)
    case Config(_, kind) =>
      (kind == Boolean ==> x.tri != MOD) &&
      (kind == Boolean || kind == Tristate ==> x.text == Letter(x.tri)) &&
      (kind != Boolean && kind != Tristate ==> x.tri == NO)
  }

  /** The lexer turns "y", "m" and "n" into the fixed constants, so no quoted symbol has
      one of these texts. */
  predicate ProperSym(s: Symbol) { s.Quoted? ==> s.text !in ["y", "m", "n"] }

  predicate Proper(e: Expr) {
    match e
    case Sym(s) => ProperSym(s)
    case Not(a) => Proper(a)
    case Cmp(_, l, r) => ProperSym(l) && ProperSym(r)
    case Bin(_, l, r) => Proper(l) && Proper(r)
  }

  function Truth(b: bool): Tri { if b then YES else NO }

  function Compare(rel: Rel, a: string, b: string): Tri { Truth((a == b) == (rel == Eq)) }

  /** expr_calc_value with the symbols already calculated. */
  function Eval(e: Expr, v: Valuation): Tri {
    match e
    case Sym(s) => v(s).tri
    case Not(a) => Neg(Eval(a, v))
    case Cmp(rel, l, r) => Compare(rel, v(l).text, v(r).text)
    case Bin(op, l, r) => Apply(op, Eval(l, v), Eval(r, v))
  }

  /** The null expression means y. */
  function EvalOpt(e: Option<Expr>, v: Valuation): Tri {
    match e case None => YES case Some(x) => Eval(x, v)
  }

  function Size(e: Expr): nat
    ensures Size(e) >= 1
  {
    match e
    case Sym(_) => 1
    case Not(a) => 1 + Size(a)
    case Cmp(_, _, _) => 1
    case Bin(_, l, r) => 1 + Size(l) + Size(r)
  }

  predicate Rooted(op: Op, e: Expr) { e.Bin? && e.op == op }

  lemma TypedConstant(v: Valuation, c: Tri)
    requires Typed(v)
    ensures v(Constant(c)) == Value(c, Letter(c)) && Eval(Const(c), v) == c
  {
    assert TypedAt(Constant(c), v(Constant(c)));
  }
}
