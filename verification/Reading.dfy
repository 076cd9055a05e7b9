/** What the expression grammar accepts, and that it reads back what expr_print writes. */
module Reading {
  import opened Tristate
  import opened Expr
  import opened Printing

  /** A spelling of an expression, parentheses included. */
  datatype Tree =
    | Name(sym: Symbol)
    | Relation(rel: Rel, lsym: Symbol, rsym: Symbol)
    | Bang(arg: Tree)
    | Parens(inner: Tree)
    | Infix(op: Op, left: Tree, right: Tree)

  predicate InfixOf(t: Tree, op: Op) { t.Infix? && t.op == op }

  /** What stands beside an operator: '!' takes no infix at all, '&&' none of '||', and on the
      right none of its own. */
  predicate Fits(t: Tree) {
    match t
    case Name(_) => true
    case Relation(_, _, _) => true
    case Bang(a) => Fits(a) && !a.Infix?
    case Parens(a) => Fits(a)
    case Infix(op, l, r) => Fits(l) && Fits(r) && !InfixOf(r, op) && (op == And ==> !InfixOf(l, Or) && !r.Infix?)
  }

  function Spelling(t: Tree): seq<Token> {
    match t
    case Name(s) => [Word(s)]
    case Relation(rel, l, r) => [Word(l), if rel == Eq then EqualSign else UnequalSign, Word(r)]
    case Bang(a) => [NotSign] + Spelling(a)
    case Parens(a) => [Open] + Spelling(a) + [Close]
    case Infix(op, l, r) => Spelling(l) + [if op == And then AndSign else OrSign] + Spelling(r)
  }

  function Meaning(t: Tree): Expr {
    match t
    case Name(s) => Sym(s)
    case Relation(rel, l, r) => Cmp(rel, l, r)
    case Bang(a) => Not(Meaning(a))
    case Parens(a) => Meaning(a)
    case Infix(op, l, r) => Bin(op, Meaning(l), Meaning(r))
  }

  // Every spelling is read.

  predicate NoComparison(ts: seq<Token>) { !Starts(ts, EqualSign) && !Starts(ts, UnequalSign) }

  lemma {:induction false} ReadUnit(t: Tree, ts: seq<Token>)
    requires Fits(t) && !t.Infix? && NoComparison(ts)
    ensures Primary(Spelling(t) + ts) == Done(Meaning(t), ts)
    decreases t, 0
  {
    var all := Spelling(t) + ts;
    match t
    case Name(_) => assert all[1..] == ts;
    case Relation(_, _, _) => ReadRelation(t, ts);
    case Bang(a) =>
      ReadUnit(a, ts);
      assert all[1..] == Spelling(a) + ts;
    case Parens(a) =>
      var more := [Close] + ts;
      ReadTree(Or, a, more);
      ReadParens(Spelling(a), ts);
  }

  lemma ReadRelation(t: Tree, ts: seq<Token>)
    requires t.Relation?
    ensures Primary(Spelling(t) + ts) == Done(Meaning(t), ts)
  {
    assert (Spelling(t) + ts)[3..] == ts;
  }

  lemma ReadParens(a: seq<Token>, ts: seq<Token>)
    requires Operands(Or, a + ([Close] + ts)).Done? && Operands(Or, a + ([Close] + ts)).rest == [Close] + ts
    ensures Primary([Open] + a + [Close] + ts) == Done(Operands(Or, a + ([Close] + ts)).e, ts)
  {
    assert ([Open] + a + [Close] + ts)[1..] == a + ([Close] + ts);
    assert ([Close] + ts)[1..] == ts;
  }

  /** As an operand of op: what is no infix of it, nor of a weaker operator. */
  lemma {:induction false} ReadOperand(op: Op, t: Tree, ts: seq<Token>)
    requires Fits(t) && !InfixOf(t, op) && (op == And ==> !t.Infix?) && NoComparison(ts) && (op == Or ==> !Starts(ts, AndSign))
    ensures Operand(op, Spelling(t) + ts) == Done(Meaning(t), ts)
    decreases t, 2
  {
    if op == And {
      ReadUnit(t, ts);
    } else if t.Infix? {
      ReadInfix(t, ts);
    } else {
      ReadUnit(t, ts);
      assert Operand(And, Spelling(t) + ts) == Done(Meaning(t), ts);
      assert Chain(And, Meaning(t), ts) == Done(Meaning(t), ts);
    }
  }

  /** An infix of '&&' before anything but '&&'. */
  lemma {:induction false} ReadInfix(t: Tree, ts: seq<Token>)
    requires Fits(t) && InfixOf(t, And) && NoComparison(ts) && !Starts(ts, AndSign)
    ensures Operands(And, Spelling(t) + ts) == Done(Meaning(t), ts)
    decreases t, 1
  {
    ReadTree(And, t, ts);
  }

  /** A tree is read up to where further operands may follow. */
  lemma {:induction false} ReadTree(op: Op, t: Tree, ts: seq<Token>)
    requires Fits(t) && (op == And ==> !InfixOf(t, Or)) && NoComparison(ts) && (op == Or ==> !Starts(ts, AndSign))
    ensures Operands(op, Spelling(t) + ts) == Chain(op, Meaning(t), ts)
    decreases t, if InfixOf(t, op) then 0 else 3
  {
    if InfixOf(t, op) {
      var more := [OpSign(op)] + Spelling(t.right) + ts;
      assert Spelling(t) + ts == Spelling(t.left) + more;
      assert more[1..] == Spelling(t.right) + ts;
      ReadTree(op, t.left, more);
      ReadOperand(op, t.right, ts);
    } else {
      ReadOperand(op, t, ts);
    }
  }

  // Everything that is read is a spelling.

  /** The tokens ts begin with a spelling of what has been parsed. */
  predicate Spells(t: Tree, ts: seq<Token>, p: Parsed) {
    p.Done? && Fits(t) && Meaning(t) == p.e && ts == Spelling(t) + p.rest
  }

  lemma {:induction false} PrimarySpells(ts: seq<Token>) returns (t: Tree)
    requires Primary(ts).Done?
    ensures Spells(t, ts, Primary(ts)) && !t.Infix?
    decreases |ts|, 0
  {
    match ts[0]
    case Word(s) =>
      t := if Primary(ts).e.Cmp? then Relation(Primary(ts).e.rel, s, Primary(ts).e.rsym) else Name(s);
    case NotSign =>
      var a := PrimarySpells(ts[1..]);
      t := Bang(a);
    case Open =>
      var a := OperandsSpell(Or, ts[1..]);
      t := Parens(a);
      ParensSpell(ts, a);
  }

  lemma ParensSpell(ts: seq<Token>, a: Tree)
    requires Primary(ts).Done? && ts[0] == Open && Spells(a, ts[1..], Operands(Or, ts[1..]))
    ensures Spells(Parens(a), ts, Primary(ts))
  {
    var p := Operands(Or, ts[1..]);
    assert p.rest == [Close] + p.rest[1..];
    assert ts == [Open] + ts[1..];
  }

  lemma {:induction false} OperandSpells(op: Op, ts: seq<Token>) returns (t: Tree)
    requires Operand(op, ts).Done?
    ensures Spells(t, ts, Operand(op, ts)) && !InfixOf(t, op) && (op == And ==> !t.Infix?)
    decreases |ts|, if op == And then 1 else 4
  {
    if op == And { t := PrimarySpells(ts); } else { t := OperandsSpell(And, ts); }
  }

  lemma {:induction false} OperandsSpell(op: Op, ts: seq<Token>) returns (t: Tree)
    requires Operands(op, ts).Done?
    ensures Spells(t, ts, Operands(op, ts)) && (op == And ==> !InfixOf(t, Or))
    decreases |ts|, if op == And then 2 else 5
  {
    var first := OperandSpells(op, ts);
    t := ChainSpells(op, first, Operand(op, ts).rest);
  }

  lemma {:induction false} ChainSpells(op: Op, acc: Tree, ts: seq<Token>) returns (t: Tree)
    requires Fits(acc) && (op == And ==> !InfixOf(acc, Or)) && Chain(op, Meaning(acc), ts).Done?
    ensures Spells(t, Spelling(acc) + ts, Chain(op, Meaning(acc), ts)) && (op == And ==> !InfixOf(t, Or))
    decreases |ts|, if op == And then 3 else 6
  {
    if !Starts(ts, OpSign(op)) {
      t := acc;
    } else {
      var next := OperandSpells(op, ts[1..]);
      ChainLonger(op, acc, next, ts);
      t := ChainSpells(op, Infix(op, acc, next), Operand(op, ts[1..]).rest);
    }
  }

  lemma ChainLonger(op: Op, acc: Tree, next: Tree, ts: seq<Token>)
    requires Starts(ts, OpSign(op)) && Spells(next, ts[1..], Operand(op, ts[1..]))
    ensures var longer, rest := Infix(op, acc, next), Operand(op, ts[1..]).rest;
      && Spelling(acc) + ts == Spelling(longer) + rest
      && Chain(op, Meaning(acc), ts) == Chain(op, Meaning(longer), rest)
  {
    ChainNext(op, Meaning(acc), ts);
    Sequel(Spelling(acc), OpSign(op), Spelling(next), Operand(op, ts[1..]).rest, ts);
  }

  lemma ChainNext(op: Op, acc: Expr, ts: seq<Token>)
    requires Starts(ts, OpSign(op)) && Operand(op, ts[1..]).Done?
    ensures var p := Operand(op, ts[1..]); Chain(op, acc, ts) == Chain(op, Bin(op, acc, p.e), p.rest)
  {}

  lemma Sequel(a: seq<Token>, sign: Token, b: seq<Token>, rest: seq<Token>, ts: seq<Token>)
    requires ts != [] && ts[0] == sign && ts[1..] == b + rest
    ensures a + ts == a + [sign] + b + rest
  {
    assert ts == [sign] + (b + rest);
  }

  /** Main result: the tokens are read as the expression exactly if they spell it. */
  lemma ParseIff(ts: seq<Token>, e: Expr)
    ensures Parse(ts) == Some(e) <==> exists t :: Fits(t) && Spelling(t) == ts && Meaning(t) == e
  {
    if Parse(ts) == Some(e) {
      var t := OperandsSpell(Or, ts);
      assert Spelling(t) == ts;
    }
    if t :| Fits(t) && Spelling(t) == ts && Meaning(t) == e {
      ReadTree(Or, t, []);
      assert Spelling(t) + [] == ts;
    }
  }

  // Printing and reading back.

  /** The operands of b hung onto a one by one. */
  function Hang(op: Op, a: Tree, b: Tree): Tree {
    if InfixOf(b, op) then Infix(op, Hang(op, a, b.left), b.right) else Infix(op, a, b)
  }

  /** The spelling expr_print chooses. */
  function TreeOf(e: Expr, prev: ExprType): Tree
    decreases e, 1
  {
    if Enclosed(e, prev) then Parens(Bare(e)) else Bare(e)
  }

  function Bare(e: Expr): Tree
    decreases e, 0
  {
    match e
    case Sym(s) => Name(s)
    case Cmp(rel, l, r) => Relation(rel, l, r)
    case Not(a) => Bang(TreeOf(a, TNot))
    case Bin(op, l, r) => Hang(op, TreeOf(l, OpType(op)), TreeOf(r, OpType(op)))
  }

  /** Along the left of t no operand hides the operator in parentheses. */
  predicate Tight(op: Op, t: Tree) { if InfixOf(t, op) then Tight(op, t.left) else !Rooted(op, Meaning(t)) }

  /** Nor is there an OR left of an AND. */
  predicate Beside(op: Op, t: Tree) { Fits(t) && Tight(op, t) && (op == And ==> !InfixOf(t, Or)) }

  lemma {:induction false} HangLaws(op: Op, a: Tree, b: Tree)
    requires Beside(op, a) && Beside(op, b)
    ensures Beside(op, Hang(op, a, b)) && InfixOf(Hang(op, a, b), op)
    ensures Spelling(Hang(op, a, b)) == Spelling(a) + [OpSign(op)] + Spelling(b)
    ensures Meaning(Hang(op, a, b)) == Graft(op, Meaning(a), Meaning(b))
    decreases b
  {
    if InfixOf(b, op) {
      HangLaws(op, a, b.left);
      Regroup(Spelling(a), Spelling(b.left), Spelling(b.right), OpSign(op));
    }
  }

  lemma Regroup(a: seq<Token>, b: seq<Token>, c: seq<Token>, sign: Token)
    ensures a + [sign] + b + [sign] + c == a + [sign] + (b + [sign] + c)
  {}

  /** What expr_print writes spells the expression associated to the left. */
  lemma {:induction false} TreeOfLaws(e: Expr, prev: ExprType)
    requires prev in {TNone, TOr, TAnd, TNot}
    ensures var t := TreeOf(e, prev); Fits(t) && Spelling(t) == Print(e, prev) && Meaning(t) == Leftward(e)
    ensures prev == TNot ==> !TreeOf(e, prev).Infix?
    ensures forall op | prev == OpType(op) :: Beside(op, TreeOf(e, prev))
    decreases e, 1
  {
    EnclosedIff(e, prev);
    BareLaws(e);
    LeftwardType(e);
  }

  lemma {:induction false} BareLaws(e: Expr)
    ensures Fits(Bare(e)) && Spelling(Bare(e)) == Body(e) && Meaning(Bare(e)) == Leftward(e)
    ensures if e.Bin? then InfixOf(Bare(e), e.op) && Beside(e.op, Bare(e)) else !Bare(e).Infix?
    decreases e, 0
  {
    match e
    case Sym(_) =>
    case Cmp(_, _, _) =>
    case Not(a) => TreeOfLaws(a, TNot);
    case Bin(op, l, r) =>
      TreeOfLaws(l, OpType(op));
      TreeOfLaws(r, OpType(op));
      HangLaws(op, TreeOf(l, OpType(op)), TreeOf(r, OpType(op)));
  }

  lemma LeftwardType(e: Expr)
    ensures TypeOf(Leftward(e)) == TypeOf(e)
  {
    LeftwardLaws(e, s => Value(NO, ""));
  }

  /** Main result: reading back what expr_print wrote gives the expression associated to
      the left, which has the same value; it is the expression itself exactly when no
      operator was nested to the right. */
  lemma RoundTrip(e: Expr)
    ensures Parse(Print(e, TNone)) == Some(Leftward(e))
    ensures forall v: Valuation :: Eval(Leftward(e), v) == Eval(e, v)
    ensures Parse(Print(e, TNone)) == Some(e) <==> LeftLeaning(e)
  {
    TreeOfLaws(e, TNone);
    ParseIff(Print(e, TNone), Leftward(e));
    forall v: Valuation ensures Eval(Leftward(e), v) == Eval(e, v) {
      LeftwardLaws(e, v);
    }
    LeftwardLaws(e, s => Value(NO, ""));
  }
}
