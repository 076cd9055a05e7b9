/** What expr_eq decides: whether two expressions are the same up to the order and the
    association of operands, at every level. */
module OperandLaws {
  import opened Tristate
  import opened Expr
  import opened Equality

  /** An expression without the order and the association of operands. */
  datatype Shape = Leaf(e: Expr) | Negation(arg: Shape) | Node(op: Op, parts: multiset<Shape>)

  function ShapeOf(e: Expr): Shape
    decreases e, 0
  {
    match e
    case Sym(_) => Leaf(e)
    case Cmp(_, _, _) => Leaf(e)
    case Not(a) => Negation(ShapeOf(a))
    case Bin(op, l, r) => Node(op, Operands(op, l) + Operands(op, r))
  }

  /** The operands of the operator tree other than the neutral constant, as shapes. */
  function Operands(op: Op, e: Expr): multiset<Shape>
    decreases e, 1
  {
    if Rooted(op, e) then Operands(op, e.left) + Operands(op, e.right)
    else if e == Const(Unit(op)) then multiset{}
    else multiset{ShapeOf(e)}
  }

  /** All operands, the neutral constant included. */
  function OperandSet(op: Op, e: Expr): set<Expr> {
    if Rooted(op, e) then OperandSet(op, e.left) + OperandSet(op, e.right) else {e}
  }

  /** A symbol, its negation or a comparison. */
  predicate Literal(e: Expr) { e.Sym? || e.Cmp? || (e.Not? && e.arg.Sym?) }

  /** No y, n or quoted symbol is an operand at any level. */
  predicate Plain(e: Expr) {
    match e
    case Sym(s) => !s.YesNoFlagged()
    case Not(a) => Plain(a)
    case Cmp(_, _, _) => true
    case Bin(_, l, r) => Plain(l) && Plain(r)
  }

  /** Every operand is plain, or the neutral constant that marks a cancelled one. */
  predicate Cancellable(op: Op, e: Expr) {
    if Rooted(op, e) then Cancellable(op, e.left) && Cancellable(op, e.right)
    else e == Const(Unit(op)) || Plain(e)
  }

  lemma BinOperands(op: Op, l: Expr, r: Expr)
    ensures Operands(op, Bin(op, l, r)) == Operands(op, l) + Operands(op, r)
    ensures OperandSet(op, Bin(op, l, r)) == OperandSet(op, l) + OperandSet(op, r)
  {}

  lemma {:induction false} OperandsSmaller(op: Op, e: Expr)
    ensures forall x | x in OperandSet(op, e) :: Size(x) <= Size(e) && !Rooted(op, x) && (Plain(e) ==> Plain(x))
    ensures Rooted(op, e) ==> forall x | x in OperandSet(op, e) :: Size(x) < Size(e)
    decreases e
  {
    if Rooted(op, e) {
      OperandsSmaller(op, e.left);
      OperandsSmaller(op, e.right);
    }
  }

  // When two operands are found equal.

  predicate DecidedPair(x: Expr, y: Expr) { ExprEq(x, y) <==> ShapeOf(x) == ShapeOf(y) }

  /** On every operand of a and every operand of b, expr_eq decides whether the shapes are
      the same. */
  ghost predicate Decided(op: Op, a: Expr, b: Expr) {
    forall x, y | x in OperandSet(op, a) && y in OperandSet(op, b) :: DecidedPair(x, y)
  }

  /** A literal is found equal to itself only. */
  lemma LiteralEq(a: Expr, b: Expr)
    requires Literal(a)
    ensures ExprEq(a, b) <==> a == b
    ensures ShapeOf(a) == ShapeOf(b) <==> a == b
  {
    if a.Not? && b.Not? { assert ExprEq(a, b) == ExprEq(a.arg, b.arg); }
  }

  lemma UnitDecided(op: Op, x: Expr)
    ensures DecidedPair(x, Const(Unit(op))) && DecidedPair(Const(Unit(op)), x)
  {
    LiteralEq(Const(Unit(op)), x);
  }

  lemma StaysDecided(op: Op, a: Expr, b: Expr, a': Expr, b': Expr)
    requires Decided(op, a, b)
    requires OperandSet(op, a') <= OperandSet(op, a) + {Const(Unit(op))}
    requires OperandSet(op, b') <= OperandSet(op, b) + {Const(Unit(op))}
    ensures Decided(op, a', b')
  {
    forall x, y | x in OperandSet(op, a') && y in OperandSet(op, b') ensures DecidedPair(x, y) {
      UnitDecided(op, x);
      UnitDecided(op, y);
    }
  }

  // Cancelling.

  lemma CancelTwice(x: multiset<Shape>, y: multiset<Shape>, z: multiset<Shape>)
    ensures (x - z) + (y - (z - x)) == (x + y) - z && (z - x) - y == z - (x + y)
  {}

  lemma DifferenceLaws(x: multiset<Shape>, y: multiset<Shape>)
    ensures x == y ==> x - y == y - x == multiset{} && x * y == x
    ensures x !! y ==> x - y == x && y - x == y && x * y == multiset{}
  {}

  /** What is left of a and b is the multiset difference of their operands in both
      directions; no operand is new. */
  predicate Differences(op: Op, a: Expr, b: Expr, fst: Expr, snd: Expr) {
    && OperandSet(op, fst) <= OperandSet(op, a) + {Const(Unit(op))}
    && OperandSet(op, snd) <= OperandSet(op, b) + {Const(Unit(op))}
    && Operands(op, fst) == Operands(op, a) - Operands(op, b)
    && Operands(op, snd) == Operands(op, b) - Operands(op, a)
  }

  lemma DifferencesLeft(op: Op, a: Expr, b: Expr, fst: Expr, snd: Expr, fst': Expr, snd': Expr)
    requires Rooted(op, a) && Differences(op, a.left, b, fst, snd) && Differences(op, a.right, snd, fst', snd')
    ensures Differences(op, a, b, Bin(op, fst, fst'), snd')
  {
    CancelTwice(Operands(op, a.left), Operands(op, a.right), Operands(op, b));
    BinOperands(op, fst, fst');
  }

  lemma DifferencesRight(op: Op, a: Expr, b: Expr, fst: Expr, snd: Expr, fst': Expr, snd': Expr)
    requires Rooted(op, b) && Differences(op, a, b.left, fst, snd) && Differences(op, fst, b.right, fst', snd')
    ensures Differences(op, a, b, fst', Bin(op, snd, snd'))
  {
    CancelTwice(Operands(op, b.left), Operands(op, b.right), Operands(op, a));
    BinOperands(op, snd, snd');
  }

  /** Two operands: the same shape is taken out on both sides. */
  lemma DifferencesLeaf(op: Op, a: Expr, b: Expr, fst: Expr, snd: Expr)
    requires !Rooted(op, a) && !Rooted(op, b)
    requires if ShapeOf(a) == ShapeOf(b) then fst == snd == Const(Unit(op)) else fst == a && snd == b
    ensures Differences(op, a, b, fst, snd)
  {
    LiteralEq(Const(Unit(op)), a);
    LiteralEq(Const(Unit(op)), b);
    DifferenceLaws(Operands(op, a), Operands(op, b));
    if ShapeOf(a) != ShapeOf(b) { assert Operands(op, a) !! Operands(op, b); }
  }

  /** Operands that expr_eq finds equal may all be cancelled: those that may not, two y or two
      n or two quoted symbols, are neutral in a. */
  ghost predicate Unflagged(op: Op, a: Expr) {
    forall x | x in OperandSet(op, a) :: x.Sym? && x.sym.YesNoFlagged() ==> x == Const(Unit(op))
  }

  lemma CancelLeaf(op: Op, a: Expr, b: Expr)
    requires !Rooted(op, a) && !Rooted(op, b) && DecidedPair(a, b)
    requires a.Sym? && a.sym.YesNoFlagged() ==> a == Const(Unit(op))
    ensures var p := Cancel(op, a, b);
      if ShapeOf(a) == ShapeOf(b) then p.fst == p.snd == Const(Unit(op)) else p.fst == a && p.snd == b
  {
    LiteralEq(Const(Unit(op)), a);
    LiteralEq(Const(Unit(op)), b);
  }

  /** Two equal y, n or quoted symbols are left standing. */
  lemma NotCancelled(op: Op, a: Expr, b: Expr)
    requires a.Sym? && b.Sym?
    ensures a.sym.YesNoFlagged() || a != b ==> Cancel(op, a, b) == Pair(a, b, 0)
    ensures a == b && !a.sym.YesNoFlagged() ==> Cancel(op, a, b) == Pair(Const(Unit(op)), Const(Unit(op)), 1)
  {
    LiteralEq(a, b);
  }

  /** Cancelling is multiset difference in both directions. */
  lemma {:induction false} CancelOperands(op: Op, a: Expr, b: Expr)
    requires Decided(op, a, b) && Unflagged(op, a)
    ensures Differences(op, a, b, Cancel(op, a, b).fst, Cancel(op, a, b).snd)
    decreases Size(a) + Size(b)
  {
    if Rooted(op, a) {
      var p := Cancel(op, a.left, b);
      var q := Cancel(op, a.right, p.snd);
      CancelOperands(op, a.left, b);
      StaysDecided(op, a, b, a.right, p.snd);
      CancelOperands(op, a.right, p.snd);
      DifferencesLeft(op, a, b, p.fst, p.snd, q.fst, q.snd);
    } else if Rooted(op, b) {
      var p := Cancel(op, a, b.left);
      var q := Cancel(op, p.fst, b.right);
      CancelOperands(op, a, b.left);
      StaysDecided(op, a, b, p.fst, b.right);
      CancelOperands(op, p.fst, b.right);
      DifferencesRight(op, a, b, p.fst, p.snd, q.fst, q.snd);
    } else {
      assert DecidedPair(a, b);
      CancelLeaf(op, a, b);
      DifferencesLeaf(op, a, b, Cancel(op, a, b).fst, Cancel(op, a, b).snd);
    }
  }

  // Removing constants.

  lemma {:induction false} PlainStays(e: Expr)
    requires Plain(e)
    ensures EliminateYn(e) == e
  {
    if e.Bin? {
      PlainStays(e.left);
      PlainStays(e.right);
    }
  }

  /** Removing constants keeps the other operands, and leaves the neutral constant exactly if
      there are none. */
  lemma {:induction false} EliminateYnOperands(op: Op, e: Expr)
    requires Cancellable(op, e)
    ensures Cancellable(op, EliminateYn(e)) && Operands(op, EliminateYn(e)) == Operands(op, e)
    ensures Operands(op, e) == multiset{} <==> EliminateYn(e) == Const(Unit(op))
    ensures EliminateYn(e) != Const(Zero(op))
  {
    if Rooted(op, e) {
      EliminateYnOperands(op, e.left);
      EliminateYnOperands(op, e.right);
      var l, r := EliminateYn(e.left), EliminateYn(e.right);
      BinOperands(op, l, r);
      EmptyUnion(Operands(op, l), Operands(op, r));
    } else if Plain(e) {
      PlainStays(e);
    }
  }

  lemma EmptyUnion(x: multiset<Shape>, y: multiset<Shape>)
    ensures x + y == multiset{} <==> x == multiset{} && y == multiset{}
    ensures x == multiset{} ==> x + y == y
    ensures y == multiset{} ==> x + y == x
  {
    if x + y == multiset{} {
      assert x <= x + y && y <= x + y;
    }
  }

  lemma {:induction false} CancellableOperands(op: Op, e: Expr)
    ensures Cancellable(op, e) <==> forall x | x in OperandSet(op, e) :: x == Const(Unit(op)) || Plain(x)
    ensures Cancellable(op, e) ==> Unflagged(op, e)
    decreases e
  {
    if Rooted(op, e) {
      CancellableOperands(op, e.left);
      CancellableOperands(op, e.right);
      assert forall x | x in OperandSet(op, e.left) || x in OperandSet(op, e.right) :: x in OperandSet(op, e);
    } else {
      assert e in OperandSet(op, e);
    }
  }

  // Equality.

  /** On expressions without y, n or quoted symbols as operands, expr_eq decides whether they
      are the same up to order and association at every level. */
  lemma {:induction false} ExprEqComplete(a: Expr, b: Expr)
    requires Plain(a) && Plain(b)
    ensures ExprEq(a, b) <==> ShapeOf(a) == ShapeOf(b)
    decreases Size(a) + Size(b)
  {
    if a.Not? && b.Not? {
      ExprEqComplete(a.arg, b.arg);
    } else if a.Bin? && b.Bin? && a.op == b.op {
      PlainDecided(a.op, a, b);
      TreesEqual(a.op, a, b);
    }
  }

  lemma {:induction false} PlainDecided(op: Op, a: Expr, b: Expr)
    requires Plain(a) && Plain(b) && Rooted(op, a) && Rooted(op, b)
    ensures Decided(op, a, b)
    decreases Size(a) + Size(b), 0
  {
    OperandsSmaller(op, a);
    OperandsSmaller(op, b);
    forall x, y | x in OperandSet(op, a) && y in OperandSet(op, b) ensures DecidedPair(x, y) {
      ExprEqComplete(x, y);
    }
  }

  /** Cancelling keeps the nodes of the operator. */
  lemma {:induction false} CancelRooted(op: Op, a: Expr, b: Expr)
    ensures Rooted(op, a) ==> Rooted(op, Cancel(op, a, b).fst)
    ensures Rooted(op, b) ==> Rooted(op, Cancel(op, a, b).snd)
    decreases Size(a) + Size(b)
  {
    if Rooted(op, a) {
      var p := Cancel(op, a.left, b);
      CancelRooted(op, a.left, b);
      CancelRooted(op, a.right, p.snd);
    }
  }

  /** On two trees of one operator there is one round of cancelling. */
  lemma EliminateEqTrees(op: Op, a: Expr, b: Expr)
    requires Rooted(op, a) && Rooted(op, b)
    ensures var p := Cancel(op, a, b);
      EliminateEq(a, b) == Pair(EliminateYn(p.fst), EliminateYn(p.snd), p.count)
  {
    CancelRooted(op, a, b);
  }

  lemma TreesEqual(op: Op, a: Expr, b: Expr)
    requires Rooted(op, a) && Rooted(op, b) && Plain(a) && Plain(b) && Decided(op, a, b)
    ensures ExprEq(a, b) <==> Operands(op, a) == Operands(op, b)
  {
    var p := EliminateEq(a, b);
    PlainCancellable(op, a);
    PlainCancellable(op, b);
    EliminateEqOperands(op, a, b);
    SameDifference(Operands(op, a), Operands(op, b));
    assert ExprEq(a, b) == (p.fst.Sym? && p.snd.Sym? && p.fst.sym == p.snd.sym);
  }

  /** Both differences are left, with the neutral constant for an empty one. */
  lemma EliminateEqOperands(op: Op, a: Expr, b: Expr)
    requires Rooted(op, a) && Rooted(op, b) && Cancellable(op, a) && Cancellable(op, b) && Decided(op, a, b)
    ensures var p := EliminateEq(a, b);
      && Operands(op, p.fst) == Operands(op, a) - Operands(op, b)
      && Operands(op, p.snd) == Operands(op, b) - Operands(op, a)
      && (Operands(op, p.fst) == multiset{} <==> p.fst == Const(Unit(op)))
      && (Operands(op, p.snd) == multiset{} <==> p.snd == Const(Unit(op)))
  {
    CancellableOperands(op, a);
    CancellableOperands(op, b);
    CancelOperands(op, a, b);
    EliminateEqTrees(op, a, b);
    var p := Cancel(op, a, b);
    CancellableOperands(op, p.fst);
    CancellableOperands(op, p.snd);
    EliminateYnOperands(op, p.fst);
    EliminateYnOperands(op, p.snd);
  }

  lemma {:induction false} PlainCancellable(op: Op, e: Expr)
    requires Plain(e)
    ensures Cancellable(op, e)
  {
    if Rooted(op, e) {
      PlainCancellable(op, e.left);
      PlainCancellable(op, e.right);
    }
  }

  lemma NothingLeft(x: multiset<Shape>, y: multiset<Shape>)
    ensures x - y == multiset{} <==> x <= y
  {
    if x - y == multiset{} {
      forall e ensures x[e] <= y[e] { assert (x - y)[e] == 0; }
    }
  }

  lemma SameDifference(x: multiset<Shape>, y: multiset<Shape>)
    ensures x == y <==> x - y == multiset{} && y - x == multiset{}
    ensures x - y == y - x ==> x == y
  {
    if x - y == y - x {
      forall e ensures x[e] == y[e] {
        assert (x - y)[e] == (y - x)[e];
      }
    }
    if x - y == multiset{} && y - x == multiset{} {
      assert x <= y && y <= x;
    }
  }
}
