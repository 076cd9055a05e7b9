/** expr_print, and the expression grammar that reads its output back. */
module Printing {
  import opened Tristate
  import opened Expr

  /** A printed name stands for the symbol it names. */
  datatype Token = Word(sym: Symbol) | EqualSign | UnequalSign | NotSign | AndSign | OrSign | Open | Close

  datatype ExprType = TNone | TOr | TAnd | TNot | TEqual | TUnequal | TChoice | TSymbol

  function TypeOf(e: Expr): ExprType {
    match e
    case Sym(_) => TSymbol
    case Not(_) => TNot
    case Cmp(rel, _, _) => if rel == Eq then TEqual else TUnequal
    case Bin(op, _, _) => OpType(op)
  }

  function OpType(op: Op): ExprType { if op == And then TAnd else TOr }

  function OpSign(op: Op): Token { if op == And then AndSign else OrSign }

  /** expr_compare_type: each case of the source falls through to the next. */
  function CompareType(t1: ExprType, t2: ExprType): int {
    if t1 == t2 then 0
    else
      var weaker :=
        match t1
        case TEqual => {TNot, TAnd, TOr, TChoice, TNone}
        case TUnequal => {TNot, TAnd, TOr, TChoice, TNone}
        case TNot => {TAnd, TOr, TChoice, TNone}
        case TAnd => {TOr, TChoice, TNone}
        case TOr => {TChoice, TNone}
        case TChoice => {TNone}
        case _ => {};
      if t2 in weaker then 1 else -1
  }

  /** expr_print */
  function Print(e: Expr, prev: ExprType): seq<Token>
    decreases e, 1
  {
    if CompareType(prev, TypeOf(e)) > 0 then [Open] + Body(e) + [Close] else Body(e)
  }

  function Body(e: Expr): seq<Token>
    decreases e, 0
  {
    match e
    case Sym(s) => [Word(s)]
    case Not(a) => [NotSign] + Print(a, TNot)
    case Cmp(rel, l, r) => [Word(l), if rel == Eq then EqualSign else UnequalSign, Word(r)]
    case Bin(op, l, r) => Print(l, OpType(op)) + [OpSign(op)] + Print(r, OpType(op))
  }

  /** An OR is put in parentheses under an AND, and both under a NOT; nothing else is. */
  predicate Enclosed(e: Expr, prev: ExprType) { e.Bin? && (prev == TNot || (prev == TAnd && e.op == Or)) }

  lemma EnclosedIff(e: Expr, prev: ExprType)
    requires prev in {TNone, TOr, TAnd, TNot}
    ensures Print(e, prev) == if Enclosed(e, prev) then [Open] + Body(e) + [Close] else Body(e)
  {}

  // The grammar: '!' binds tighter than '&&', which binds tighter than '||'; both associate
  // to the left; comparisons are between symbols.

  datatype Parsed = Fail | Done(e: Expr, rest: seq<Token>)

  predicate Starts(ts: seq<Token>, t: Token) { ts != [] && ts[0] == t }

  function Primary(ts: seq<Token>): (p: Parsed)
    ensures p.Done? ==> |p.rest| < |ts|
    decreases |ts|, 0
  {
    if ts == [] then Fail
    else match ts[0]
    case Word(s) =>
      if |ts| > 2 && ts[1] in {EqualSign, UnequalSign} && ts[2].Word?
      then Done(Cmp(if ts[1] == EqualSign then Eq else Ne, s, ts[2].sym), ts[3..])
      else Done(Sym(s), ts[1..])
    case NotSign =>
      var p := Primary(ts[1..]);
      if p.Fail? then Fail else Done(Not(p.e), p.rest)
    case Open =>
      var p := Operands(Or, ts[1..]);
      if p.Done? && Starts(p.rest, Close) then Done(p.e, p.rest[1..]) else Fail
    case _ => Fail
  }

  /** An operand of the operator: of '&&' a primary, of '||' a chain of '&&'. */
  function Operand(op: Op, ts: seq<Token>): (p: Parsed)
    ensures p.Done? ==> |p.rest| < |ts|
    decreases |ts|, if op == And then 1 else 4
  {
    if op == And then Primary(ts) else Operands(And, ts)
  }

  function Operands(op: Op, ts: seq<Token>): (p: Parsed)
    ensures p.Done? ==> |p.rest| < |ts|
    decreases |ts|, if op == And then 2 else 5
  {
    var p := Operand(op, ts);
    if p.Fail? then Fail else Chain(op, p.e, p.rest)
  }

  /** Further operands, collected to the left. */
  function Chain(op: Op, acc: Expr, ts: seq<Token>): (p: Parsed)
    ensures p.Done? ==> |p.rest| <= |ts|
    decreases |ts|, if op == And then 3 else 6
  {
    if !Starts(ts, OpSign(op)) then Done(acc, ts)
    else
      var p := Operand(op, ts[1..]);
      if p.Fail? then Fail else Chain(op, Bin(op, acc, p.e), p.rest)
  }

  function Parse(ts: seq<Token>): Option<Expr> {
    var p := Operands(Or, ts);
    if p.Done? && p.rest == [] then Some(p.e) else None
  }

  // What reading back does to the shape.

  /** a op b with the operands of b hung onto a one by one. */
  function Graft(op: Op, a: Expr, b: Expr): Expr {
    if Rooted(op, b) then Bin(op, Graft(op, a, b.left), b.right) else Bin(op, a, b)
  }

  /** Every chain of one operator associated to the left. */
  function Leftward(e: Expr): Expr {
    match e
    case Bin(op, l, r) => Graft(op, Leftward(l), Leftward(r))
    case Not(a) => Not(Leftward(a))
    case _ => e
  }

  /** No operator node is the right operand of a node of the same operator. */
  predicate LeftLeaning(e: Expr) {
    match e
    case Bin(op, l, r) => !Rooted(op, r) && LeftLeaning(l) && LeftLeaning(r)
    case Not(a) => LeftLeaning(a)
    case _ => true
  }

  lemma {:induction false} GraftValue(op: Op, a: Expr, b: Expr, v: Valuation)
    ensures Eval(Graft(op, a, b), v) == Apply(op, Eval(a, v), Eval(b, v))
    decreases b
  {
    if Rooted(op, b) { GraftValue(op, a, b.left, v); }
  }

  lemma {:induction false} GraftLeans(op: Op, a: Expr, b: Expr)
    requires LeftLeaning(a) && LeftLeaning(b)
    ensures LeftLeaning(Graft(op, a, b)) && Rooted(op, Graft(op, a, b))
    decreases b
  {
    if Rooted(op, b) { GraftLeans(op, a, b.left); }
  }

  /** Associating to the left keeps the value, and changes exactly what is not left-leaning. */
  lemma {:induction false} LeftwardLaws(e: Expr, v: Valuation)
    ensures Eval(Leftward(e), v) == Eval(e, v)
    ensures LeftLeaning(Leftward(e)) && TypeOf(Leftward(e)) == TypeOf(e)
    ensures Leftward(e) == e <==> LeftLeaning(e)
  {
    match e
    case Sym(_) =>
    case Cmp(_, _, _) =>
    case Not(a) => LeftwardLaws(a, v);
    case Bin(op, l, r) =>
      LeftwardLaws(l, v);
      LeftwardLaws(r, v);
      GraftValue(op, Leftward(l), Leftward(r), v);
      GraftLeans(op, Leftward(l), Leftward(r));
  }
}
