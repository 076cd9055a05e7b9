/** What expr_extract_eq finds, and so when expr_eliminate_dups2 drops an operand. */
module ExtractLaws {
  import opened Tristate
  import opened Expr
  import opened Equality
  import opened Transform
  import opened OperandLaws
  import opened Dups

  function Collected(op: Op, common: Option<Expr>): multiset<Shape> {
    if common.None? then multiset{} else Operands(op, common.value)
  }

  /** The common part of a and b, as multisets, has moved from both to what is collected. */
  predicate Parted(op: Op, common: Option<Expr>, a: Expr, b: Expr, x: Extracted) {
    && Differences(op, a, b, x.fst, x.snd)
    && Collected(op, x.common) == Collected(op, common) + Operands(op, a) * Operands(op, b)
  }

  lemma MeetTwice(x: multiset<Shape>, y: multiset<Shape>, z: multiset<Shape>)
    ensures x * z + y * (z - x) == (x + y) * z && z * x + (z - x) * y == z * (x + y)
  {}

  lemma PartedLeft(op: Op, common: Option<Expr>, a: Expr, b: Expr, p: Extracted, q: Extracted)
    requires Rooted(op, a) && Parted(op, common, a.left, b, p) && Parted(op, p.common, a.right, p.snd, q)
    ensures Parted(op, common, a, b, Extracted(q.common, Bin(op, p.fst, q.fst), q.snd))
  {
    DifferencesLeft(op, a, b, p.fst, p.snd, q.fst, q.snd);
    MeetTwice(Operands(op, a.left), Operands(op, a.right), Operands(op, b));
  }

  lemma PartedRight(op: Op, common: Option<Expr>, a: Expr, b: Expr, p: Extracted, q: Extracted)
    requires Rooted(op, b) && Parted(op, common, a, b.left, p) && Parted(op, p.common, p.fst, b.right, q)
    ensures Parted(op, common, a, b, Extracted(q.common, q.fst, Bin(op, p.snd, q.snd)))
  {
    DifferencesRight(op, a, b, p.fst, p.snd, q.fst, q.snd);
    MeetTwice(Operands(op, b.left), Operands(op, b.right), Operands(op, a));
  }

  lemma PartedEqual(op: Op, common: Option<Expr>, a: Expr, b: Expr)
    requires !Rooted(op, a) && !Rooted(op, b) && ShapeOf(a) == ShapeOf(b)
    ensures var one := Const(Unit(op));
      Parted(op, common, a, b, Extracted(Some(if common.None? then a else Bin(op, common.value, a)), one, one))
  {
    LiteralEq(Const(Unit(op)), a);
    LiteralEq(Const(Unit(op)), b);
    DifferencesLeaf(op, a, b, Const(Unit(op)), Const(Unit(op)));
    DifferenceLaws(Operands(op, a), Operands(op, b));
    if common.Some? { BinOperands(op, common.value, a); }
  }

  lemma PartedApart(op: Op, common: Option<Expr>, a: Expr, b: Expr)
    requires !Rooted(op, a) && !Rooted(op, b) && ShapeOf(a) != ShapeOf(b)
    ensures Parted(op, common, a, b, Extracted(common, a, b))
  {
    DifferencesLeaf(op, a, b, a, b);
    assert Operands(op, a) !! Operands(op, b);
    DifferenceLaws(Operands(op, a), Operands(op, b));
  }

  /** Extraction collects the multiset intersection and leaves both differences. */
  lemma {:induction false} ExtractParts(op: Op, common: Option<Expr>, a: Expr, b: Expr)
    requires Decided(op, a, b)
    ensures Parted(op, common, a, b, ExtractEq(op, common, a, b))
    decreases Size(a) + Size(b)
  {
    if Rooted(op, a) {
      var p := ExtractEq(op, common, a.left, b);
      var q := ExtractEq(op, p.common, a.right, p.snd);
      ExtractParts(op, common, a.left, b);
      StaysDecided(op, a, b, a.right, p.snd);
      ExtractParts(op, p.common, a.right, p.snd);
      PartedLeft(op, common, a, b, p, q);
    } else if Rooted(op, b) {
      var p := ExtractEq(op, common, a, b.left);
      var q := ExtractEq(op, p.common, p.fst, b.right);
      ExtractParts(op, common, a, b.left);
      StaysDecided(op, a, b, p.fst, b.right);
      ExtractParts(op, p.common, p.fst, b.right);
      PartedRight(op, common, a, b, p, q);
    } else {
      assert DecidedPair(a, b);
      if ShapeOf(a) == ShapeOf(b) { PartedEqual(op, common, a, b); } else { PartedApart(op, common, a, b); }
    }
  }

  /** No operand of a is found equal to one of b. */
  ghost predicate Apart(op: Op, a: Expr, b: Expr) {
    forall x, y | x in OperandSet(op, a) && y in OperandSet(op, b) :: !ExprEq(x, y)
  }

  /** Nothing is collected exactly if no operand is shared; then nothing is changed. */
  lemma {:induction false} ExtractNothing(op: Op, a: Expr, b: Expr)
    ensures ExtractEq(op, None, a, b).common.None? <==> Apart(op, a, b)
    ensures ExtractEq(op, None, a, b).common.None? ==> ExtractEq(op, None, a, b) == Extracted(None, a, b)
    decreases Size(a) + Size(b)
  {
    if Rooted(op, a) {
      var p := ExtractEq(op, None, a.left, b);
      ExtractNothing(op, a.left, b);
      if p.common.None? { ExtractNothing(op, a.right, b); } else { ExtractKeeps(op, p.common, a.right, p.snd); }
    } else if Rooted(op, b) {
      var p := ExtractEq(op, None, a, b.left);
      ExtractNothing(op, a, b.left);
      if p.common.None? { ExtractNothing(op, a, b.right); } else { ExtractKeeps(op, p.common, p.fst, b.right); }
    }
  }

  /** What is collected stays collected. */
  lemma {:induction false} ExtractKeeps(op: Op, common: Option<Expr>, a: Expr, b: Expr)
    requires common.Some?
    ensures ExtractEq(op, common, a, b).common.Some?
    decreases Size(a) + Size(b)
  {
    if Rooted(op, a) {
      var p := ExtractEq(op, common, a.left, b);
      ExtractKeeps(op, common, a.left, b);
      ExtractKeeps(op, p.common, a.right, p.snd);
    } else if Rooted(op, b) {
      var p := ExtractEq(op, common, a, b.left);
      ExtractKeeps(op, common, a, b.left);
      ExtractKeeps(op, p.common, p.fst, b.right);
    }
  }

  /** Every operand is plain or a literal. */
  predicate Simple(op: Op, e: Expr) { forall x | x in OperandSet(op, e) :: Plain(x) || Literal(x) }

  /** Removing constants leaves the neutral one exactly if there was nothing else. */
  lemma {:induction false} EliminateYnUnit(op: Op, e: Expr)
    requires Simple(op, e)
    ensures EliminateYn(e) == Const(Unit(op)) <==> Operands(op, e) == multiset{}
    decreases e
  {
    if Rooted(op, e) {
      EliminateYnUnit(op, e.left);
      EliminateYnUnit(op, e.right);
      EmptyUnion(Operands(op, e.left), Operands(op, e.right));
    } else if Plain(e) {
      PlainStays(e);
    }
  }

  // When an operand is dropped.

  lemma {:induction false} OppositePlain(e: Expr)
    requires Normal(e) && Plain(e)
    ensures Plain(Opposite(e))
  {
    if e.Bin? {
      OppositePlain(e.left);
      OppositePlain(e.right);
    }
  }

  lemma {:induction false} OppositeLiterals(op: Op, e: Expr)
    requires Normal(e) && forall x | x in OperandSet(Dual(op), e) :: Literal(x)
    ensures forall x | x in OperandSet(op, Opposite(e)) :: Literal(x)
  {
    if Rooted(Dual(op), e) {
      OppositeLiterals(op, e.left);
      OppositeLiterals(op, e.right);
    } else {
      assert e in OperandSet(Dual(op), e);
    }
  }

  lemma {:induction false} InOperands(op: Op, e: Expr, x: Expr)
    requires x in OperandSet(op, e)
    ensures x == Const(Unit(op)) || ShapeOf(x) in Operands(op, e)
  {
    if Rooted(op, e) {
      if x in OperandSet(op, e.left) { InOperands(op, e.left, x); } else { InOperands(op, e.right, x); }
    }
  }

  lemma {:induction false} OperandOf(op: Op, e: Expr, s: Shape) returns (x: Expr)
    requires s in Operands(op, e)
    ensures x in OperandSet(op, e) && ShapeOf(x) == s
  {
    x := e;
    if Rooted(op, e) {
      if s in Operands(op, e.left) { x := OperandOf(op, e.left, s); } else { x := OperandOf(op, e.right, s); }
    }
  }

  lemma {:induction false} SomeOperand(op: Op, e: Expr) returns (x: Expr)
    ensures x in OperandSet(op, e)
  {
    x := e;
    if Rooted(op, e) { x := SomeOperand(op, e.left); }
  }

  /** The second pass drops a normal operand e1 that meets e2 exactly if the operands of its
      opposite occur, often enough, among those of e2; if there are none but neutral
      constants, exactly if such a constant occurs there. Both may be plain, or else e1 a tree
      over literals and e2 anything. */
  lemma ContradictedIff(op: Op, e1: Expr, e2: Expr)
    requires Rooted(Dual(op), e1) && Normal(e1)
    requires (Plain(e1) && Plain(e2)) || forall x | x in OperandSet(Dual(op), e1) :: Literal(x)
    ensures var n := Opposite(e1);
      Contradicted(op, e1, e2) <==>
        if Operands(op, n) != multiset{} then Operands(op, n) <= Operands(op, e2) else Const(Unit(op)) in OperandSet(op, e2)
  {
    var n := Opposite(e1);
    TransformOpposite(e1);
    OppositeDecided(op, e1, e2);
    ContradictedParts(op, e1, e2);
    if Operands(op, n) <= Operands(op, e2) { SharedOperand(op, n, e2); }
  }

  lemma OppositeDecided(op: Op, e1: Expr, e2: Expr)
    requires Rooted(Dual(op), e1) && Normal(e1)
    requires (Plain(e1) && Plain(e2)) || forall x | x in OperandSet(Dual(op), e1) :: Literal(x)
    ensures Decided(op, Opposite(e1), e2) && Simple(op, Opposite(e1))
  {
    var n := Opposite(e1);
    if Plain(e1) && Plain(e2) {
      OppositePlain(e1);
      OperandsSmaller(op, n);
      OperandsSmaller(op, e2);
      forall x, y | x in OperandSet(op, n) && y in OperandSet(op, e2) ensures DecidedPair(x, y) {
        ExprEqComplete(x, y);
      }
    } else {
      OppositeLiterals(op, e1);
      forall x, y | x in OperandSet(op, n) && y in OperandSet(op, e2) ensures DecidedPair(x, y) {
        LiteralEq(x, y);
      }
    }
  }

  lemma ContradictedParts(op: Op, e1: Expr, e2: Expr)
    requires TransformExpr(Not(e1)).Bin? && Decided(op, TransformExpr(Not(e1)), e2) && Simple(op, TransformExpr(Not(e1)))
    ensures var n := TransformExpr(Not(e1));
      Contradicted(op, e1, e2) <==> Operands(op, n) <= Operands(op, e2) && !Apart(op, n, e2)
  {
    var n := TransformExpr(Not(e1));
    var x := ExtractEq(op, None, n, e2);
    ExtractParts(op, None, n, e2);
    ExtractNothing(op, n, e2);
    EliminateYnUnit(op, x.fst);
    NothingLeft(Operands(op, n), Operands(op, e2));
  }

  /** Where the operands of n are among those of e2, one is shared, or n has neutral ones only. */
  lemma SharedOperand(op: Op, n: Expr, e2: Expr)
    requires Decided(op, n, e2) && Operands(op, n) <= Operands(op, e2)
    ensures Operands(op, n) != multiset{} ==> !Apart(op, n, e2)
    ensures Operands(op, n) == multiset{} ==> (Apart(op, n, e2) <==> Const(Unit(op)) !in OperandSet(op, e2))
  {
    if Operands(op, n) != multiset{} {
      var s :| s in Operands(op, n);
      assert s in Operands(op, e2);
      var x := OperandOf(op, n, s);
      var y := OperandOf(op, e2, s);
      assert DecidedPair(x, y);
    } else {
      var one := Const(Unit(op));
      forall x | x in OperandSet(op, n) ensures x == one { InOperands(op, n, x); }
      var x := SomeOperand(op, n);
      forall y | y in OperandSet(op, e2) ensures ExprEq(one, y) <==> y == one {
        LiteralEq(one, y);
      }
    }
  }
}
