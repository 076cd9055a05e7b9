/** expr_eliminate_dups as a whole: why its loop ends and what it does to the meaning. */
module DupsLaws {
  import opened Tristate
  import opened Expr
  import opened Equality
  import opened EqualityLaws
  import opened Join
  import opened Transform
  import opened Dups
  import opened Slots
  import opened DupsWalk

  // Termination: a counted rewrite leaves a y or n operand for expr_eliminate_yn.

  lemma ConstSlot(op: Op, t: Expr, p: Path)
    requires OnSpine(op, t, p) && HasSlot(t, p) && p != []
    requires At(t, p) == Const(NO) || At(t, p) == Const(YES) || ConstOperand(At(t, p))
    ensures ConstOperand(t)
  {
    if |p| > 1 {
      assert p[1..] != [];
    }
  }

  lemma JoinSlotsProgress(op: Op, s: Rewritten, p1: Path, p2: Path)
    requires OperandSlot(op, s.tree, p1) && OperandSlot(op, s.tree, p2) && p1 != p2 && p1 != []
    ensures JoinSlots(op, s, p1, p2) != s ==> ConstOperand(JoinSlots(op, s, p1, p2).tree)
  {
    var j := JoinOp(op, At(s.tree, p1), At(s.tree, p2));
    if j.Some? {
      var one := Const(Unit(op));
      var u := Put(s.tree, p1, one);
      PutOperand(op, s.tree, p1, one);
      PutOther(op, s.tree, p1, one, p2);
      SameSpineSlot(op, s.tree, u, p1);
      SameSpineSlot(op, s.tree, u, p2);
      JoinShape(op, At(s.tree, p1), At(s.tree, p2));
      PutOther(op, u, p2, j.value, p1);
      PutOperand(op, u, p2, j.value);
      SameSpineSlot(op, u, Put(u, p2, j.value), p1);
      ConstSlot(op, Put(u, p2, j.value), p1);
    }
  }

  lemma DropProgress(op: Op, s: Rewritten, p1: Path, p2: Path)
    requires OperandSlot(op, s.tree, p1)
    requires OnSpine(op, s.tree, p2) && HasSlot(s.tree, p2) && p1 != []
    ensures DropContradicted(op, s, p1, p2) != s ==> ConstOperand(DropContradicted(op, s, p1, p2).tree)
  {
    if Contradicted(op, At(s.tree, p1), At(s.tree, p2)) {
      PutOperand(op, s.tree, p1, Const(Zero(op)));
      SameSpineSlot(op, s.tree, Put(s.tree, p1, Const(Zero(op))), p1);
      ConstSlot(op, Put(s.tree, p1, Const(Zero(op))), p1);
    }
  }

  /** What is counted leaves a y or n operand. */
  function Progress(): Law { (op, t, r: Rewritten) => (r.count == 0 ==> r.tree == t) && (r.count > 0 ==> ConstOperand(r.tree)) }

  lemma PassProgress(op: Op, t: Expr)
    ensures Progress()(op, t, Dups1(op, t, [], [])) && Progress()(op, t, Dups2(op, t, [], []))
  {
    var law := Progress();
    forall op, t, p, inner ensures Lifts(law, op, t, p, inner) {
      if OperandSlot(op, t, p) && At(t, p).Bin? && Keeps(At(t, p).op, At(t, p), inner) {
        PutSame(t, p);
        if p != [] && ConstOperand(inner.tree) {
          PutOperand(op, t, p, inner.tree);
          SameSpineSlot(op, t, Put(t, p, inner.tree), p);
          ConstSlot(op, Put(t, p, inner.tree), p);
        }
      }
    }
    forall op, t, p1, p2 ensures Joins(law, op, t, p1, p2) {
      if OperandSlot(op, t, p1) && OperandSlot(op, t, p2) && p1 != p2 { JoinSlotsProgress(op, Rewritten(t, 0), p1, p2); }
    }
    forall op, t, p1, p2 ensures Drops(law, op, t, p1, p2) {
      if OperandSlot(op, t, p1) && OnSpine(op, t, p2) && HasSlot(t, p2) && p1 != [] { DropProgress(op, Rewritten(t, 0), p1, p2); }
    }
    Dups1Follows(law, op, t, [], []);
    Dups2Follows(law, op, t, [], []);
  }

  /** A round that counted something loses at least one node to expr_eliminate_yn. */
  lemma RoundProgress(e: Expr)
    ensures Round(e).count > 0 ==> Size(EliminateYn(Round(e).tree)) < Size(e)
  {
    if e.Bin? {
      PassProgress(e.op, e);
      PassProgress(e.op, Dups1(e.op, e, [], []).tree);
      EliminateYnShrinks(Round(e).tree);
    }
  }

  /** expr_eliminate_dups on an expression that is not null: rounds until nothing is counted. */
  function EliminateDups(e: Expr): Expr
    decreases Size(e)
  {
    RoundProgress(e);
    if Round(e).count == 0 then Round(e).tree else EliminateDups(EliminateYn(Round(e).tree))
  }

  // Meaning.

  /** A spine node is its operand at p under one context of the operator, whatever is put there. */
  lemma {:induction false} OneHole(op: Op, t: Expr, p: Path, x: Expr, v: Valuation) returns (c: Tri)
    requires OnSpine(op, t, p) && HasSlot(t, p)
    ensures Eval(t, v) == Apply(op, c, Eval(At(t, p), v))
    ensures Eval(Put(t, p, x), v) == Apply(op, c, Eval(x, v))
  {
    if p == [] {
      c := Unit(op);
    } else {
      var near, far := Child(t, p[0]), if p[0] == L then t.right else t.left;
      var d := OneHole(op, near, p[1..], x, v);
      c := Apply(op, d, Eval(far, v));
      WidenContext(op, d, Eval(far, v), Eval(At(t, p), v));
      WidenContext(op, d, Eval(far, v), Eval(x, v));
    }
  }

  lemma WidenContext(op: Op, d: Tri, far: Tri, x: Tri)
    ensures Apply(op, Apply(op, d, far), x) == Apply(op, Apply(op, d, x), far)
    ensures Apply(op, Apply(op, d, far), x) == Apply(op, far, Apply(op, d, x))
    ensures Apply(op, Apply(op, d, far), x) == Apply(op, d, Apply(op, far, x))
  {}

  lemma {:induction false} SlotProper(t: Expr, p: Path, x: Expr)
    requires HasSlot(t, p) && Proper(t)
    ensures Proper(At(t, p))
    ensures Proper(x) ==> Proper(Put(t, p, x))
  {
    if p != [] {
      SlotProper(Child(t, p[0]), p[1..], x);
    }
  }

  lemma JoinSlotsValue(op: Op, s: Rewritten, p1: Path, p2: Path, v: Valuation)
    requires Typed(v) && Proper(s.tree)
    requires OperandSlot(op, s.tree, p1) && OperandSlot(op, s.tree, p2) && p1 != p2
    ensures Eval(JoinSlots(op, s, p1, p2).tree, v) == Eval(s.tree, v)
    ensures Proper(JoinSlots(op, s, p1, p2).tree)
  {
    var e1, e2 := At(s.tree, p1), At(s.tree, p2);
    var j := JoinOp(op, e1, e2);
    if j.Some? {
      var one := Const(Unit(op));
      SlotProper(s.tree, p1, one);
      SlotProper(s.tree, p2, one);
      JoinValue(op, e1, e2, v);
      JoinShape(op, e1, e2);
      TwoHoles(op, s.tree, p1, p2, j.value, v);
      SlotProper(Put(s.tree, p1, one), p2, j.value);
    }
  }

  /** One operand moves to the other: the first becomes neutral, the second x. */
  lemma TwoHoles(op: Op, t: Expr, p1: Path, p2: Path, x: Expr, v: Valuation)
    requires Typed(v) && OperandSlot(op, t, p1) && OperandSlot(op, t, p2) && p1 != p2
    requires Eval(x, v) == Apply(op, Eval(At(t, p1), v), Eval(At(t, p2), v))
    ensures var u := Put(t, p1, Const(Unit(op)));
      HasSlot(u, p2) && Eval(Put(u, p2, x), v) == Eval(t, v)
  {
    var one := Const(Unit(op));
    var u := Put(t, p1, one);
    PutOperand(op, t, p1, one);
    PutOther(op, t, p1, one, p2);
    SameSpineSlot(op, t, u, p2);
    TypedConstant(v, Unit(op));
    var c1 := OneHole(op, t, p1, one, v);
    var c2 := OneHole(op, u, p2, x, v);
  }

  function KeepsValue(v: Valuation): Law {
    (op, t, r: Rewritten) => Proper(t) ==> Proper(r.tree) && Eval(r.tree, v) == Eval(t, v)
  }

  /** expr_eliminate_dups1 keeps the value exactly, also when both slots are the same. */
  lemma Dups1Value(op: Op, t: Expr, p1: Path, p2: Path, v: Valuation)
    requires Typed(v) && Proper(t)
    requires OnSpine(op, t, p1) && OnSpine(op, t, p2)
    ensures Eval(Dups1(op, t, p1, p2).tree, v) == Eval(t, v)
    ensures Proper(Dups1(op, t, p1, p2).tree)
  {
    var law := KeepsValue(v);
    forall op, t, p, inner ensures Lifts(law, op, t, p, inner) {
      if OperandSlot(op, t, p) && Proper(t) {
        var c := OneHole(op, t, p, inner.tree, v);
        SlotProper(t, p, inner.tree);
      }
    }
    forall op, t, p1, p2 ensures Joins(law, op, t, p1, p2) {
      if OperandSlot(op, t, p1) && OperandSlot(op, t, p2) && p1 != p2 && Proper(t) {
        JoinSlotsValue(op, Rewritten(t, 0), p1, p2, v);
      }
    }
    Dups1Follows(law, op, t, p1, p2);
  }

  /** The value of what has been collected so far; nothing yet counts as neutral. */
  function EvalCommon(op: Op, common: Option<Expr>, v: Valuation): Tri {
    match common case None => Unit(op) case Some(x) => Eval(x, v)
  }

  /** The context c has moved from a and b, of which x.fst and x.snd are left, to what is
      collected. */
  ghost predicate Shares(op: Op, common: Option<Expr>, a: Expr, b: Expr, x: Extracted, c: Tri, v: Valuation) {
    && EvalCommon(op, x.common, v) == Apply(op, EvalCommon(op, common, v), c)
    && Eval(a, v) == Apply(op, c, Eval(x.fst, v))
    && Eval(b, v) == Apply(op, c, Eval(x.snd, v))
  }

  lemma SharesLeft(op: Op, common: Option<Expr>, a: Expr, b: Expr, p: Extracted, c1: Tri, q: Extracted, c2: Tri, v: Valuation)
    requires Rooted(op, a)
    requires Shares(op, common, a.left, b, p, c1, v) && Shares(op, p.common, a.right, p.snd, q, c2, v)
    ensures Shares(op, common, a, b, Extracted(q.common, Bin(op, p.fst, q.fst), q.snd), Apply(op, c1, c2), v)
  {
    MergeContexts(op, c1, c2, Eval(p.fst, v), Eval(q.fst, v), Eval(q.snd, v));
    WidenContext(op, EvalCommon(op, common, v), c1, c2);
  }

  lemma SharesRight(op: Op, common: Option<Expr>, a: Expr, b: Expr, p: Extracted, c1: Tri, q: Extracted, c2: Tri, v: Valuation)
    requires Rooted(op, b)
    requires Shares(op, common, a, b.left, p, c1, v) && Shares(op, p.common, p.fst, b.right, q, c2, v)
    ensures Shares(op, common, a, b, Extracted(q.common, q.fst, Bin(op, p.snd, q.snd)), Apply(op, c1, c2), v)
  {
    MergeContexts(op, c1, c2, Eval(p.snd, v), Eval(q.snd, v), Eval(q.fst, v));
    WidenContext(op, EvalCommon(op, common, v), c1, c2);
  }

  /** expr_extract_eq moves one common context out of both expressions. */
  lemma {:induction false} ExtractEqContext(op: Op, common: Option<Expr>, a: Expr, b: Expr, v: Valuation)
    returns (c: Tri)
    requires Typed(v)
    ensures Shares(op, common, a, b, ExtractEq(op, common, a, b), c, v)
    decreases Size(a) + Size(b)
  {
    if Rooted(op, a) {
      var p := ExtractEq(op, common, a.left, b);
      var q := ExtractEq(op, p.common, a.right, p.snd);
      var c1 := ExtractEqContext(op, common, a.left, b, v);
      var c2 := ExtractEqContext(op, p.common, a.right, p.snd, v);
      c := Apply(op, c1, c2);
      SharesLeft(op, common, a, b, p, c1, q, c2, v);
    } else if Rooted(op, b) {
      var p := ExtractEq(op, common, a, b.left);
      var q := ExtractEq(op, p.common, p.fst, b.right);
      var c1 := ExtractEqContext(op, common, a, b.left, v);
      var c2 := ExtractEqContext(op, p.common, p.fst, b.right, v);
      c := Apply(op, c1, c2);
      SharesRight(op, common, a, b, p, c1, q, c2, v);
    } else {
      c := SharesLeaf(op, common, a, b, v);
    }
  }

  lemma SharesLeaf(op: Op, common: Option<Expr>, a: Expr, b: Expr, v: Valuation) returns (c: Tri)
    requires Typed(v) && !Rooted(op, a) && !Rooted(op, b)
    ensures Shares(op, common, a, b, ExtractEq(op, common, a, b), c, v)
  {
    TypedConstant(v, Unit(op));
    if ExprEq(a, b) {
      ExprEqSound(a, b, v);
      c := Eval(a, v);
    } else {
      c := Unit(op);
    }
  }

  /** Extraction is conservative: what was taken out, put back, gives the old values. */
  lemma ExtractEqOpValue(op: Op, a: Expr, b: Expr, v: Valuation)
    requires Typed(v)
    ensures var x := ExtractEqOp(op, a, b);
      && Eval(a, v) == Apply(op, EvalCommon(op, x.common, v), Eval(x.fst, v))
      && Eval(b, v) == Apply(op, EvalCommon(op, x.common, v), Eval(x.snd, v))
  {
    var c := ExtractEqContext(op, None, a, b, v);
    var p := ExtractEq(op, None, a, b);
    EliminateYnValue(p.fst, v);
    EliminateYnValue(p.snd, v);
  }

  lemma DropContradictedRefines(op: Op, s: Rewritten, p1: Path, p2: Path, v: Valuation)
    requires Typed(v) && Proper(s.tree)
    requires OperandSlot(op, s.tree, p1)
    requires OnSpine(op, s.tree, p2) && HasSlot(s.tree, p2)
    ensures Refines(Eval(s.tree, v), Eval(DropContradicted(op, s, p1, p2).tree, v))
    ensures Contradicted(op, At(s.tree, p1), At(s.tree, p2)) ==>
      Eval(DropContradicted(op, s, p1, p2).tree, v) == Zero(op) &&
      (Eval(DropContradicted(op, s, p1, p2).tree, v) == Eval(s.tree, v) <==> Eval(s.tree, v) != MOD)
    ensures Proper(DropContradicted(op, s, p1, p2).tree)
  {
    var e1, e2 := At(s.tree, p1), At(s.tree, p2);
    if Contradicted(op, e1, e2) {
      var zero := Const(Zero(op));
      SlotProper(s.tree, p1, zero);
      TypedConstant(v, Zero(op));
      TypedConstant(v, Unit(op));
      ExtractEqOpValue(op, TransformExpr(Not(e1)), e2, v);
      TransformValue(Not(e1), v);
      var c1 := OneHole(op, s.tree, p1, zero, v);
      var c2 := OneHole(op, s.tree, p2, zero, v);
    }
  }

  lemma PutRefines(op: Op, t: Expr, p: Path, x: Expr, v: Valuation)
    requires OnSpine(op, t, p) && HasSlot(t, p)
    requires Refines(Eval(At(t, p), v), Eval(x, v))
    ensures Refines(Eval(t, v), Eval(Put(t, p, x), v))
  {
    var c := OneHole(op, t, p, x, v);
    RefinesUnder(op, c, Eval(At(t, p), v), Eval(x, v));
  }

  function RefinesValue(v: Valuation): Law {
    (op, t, r: Rewritten) => Proper(t) ==> Proper(r.tree) && Refines(Eval(t, v), Eval(r.tree, v))
  }

  /** expr_eliminate_dups2 may settle an m, and does nothing else. */
  lemma Dups2Refines(op: Op, t: Expr, p1: Path, p2: Path, v: Valuation)
    requires Typed(v) && Proper(t)
    requires OnSpine(op, t, p1) && OnSpine(op, t, p2)
    ensures Refines(Eval(t, v), Eval(Dups2(op, t, p1, p2).tree, v))
    ensures Proper(Dups2(op, t, p1, p2).tree)
  {
    var law := RefinesValue(v);
    forall op, t, p, inner ensures Lifts(law, op, t, p, inner) {
      if OperandSlot(op, t, p) && Proper(t) {
        SlotProper(t, p, inner.tree);
        if Refines(Eval(At(t, p), v), Eval(inner.tree, v)) { PutRefines(op, t, p, inner.tree, v); }
      }
    }
    forall op, t, p1, p2 ensures Drops(law, op, t, p1, p2) {
      if OperandSlot(op, t, p1) && OnSpine(op, t, p2) && HasSlot(t, p2) && Proper(t) {
        DropContradictedRefines(op, Rewritten(t, 0), p1, p2, v);
      }
    }
    Dups2Follows(law, op, t, p1, p2);
  }

  lemma {:induction false} EliminateYnProper(e: Expr)
    requires Proper(e)
    ensures Proper(EliminateYn(e))
  {
    if e.Bin? {
      EliminateYnProper(e.left);
      EliminateYnProper(e.right);
    }
  }

  /** Main result: simplification only refines. A y stays y and an n stays n under every
      typed valuation; only an m may become n or y. */
  lemma {:induction false} EliminateDupsRefines(e: Expr, v: Valuation)
    requires Typed(v) && Proper(e)
    ensures Refines(Eval(e, v), Eval(EliminateDups(e), v))
    ensures Proper(EliminateDups(e))
    decreases Size(e)
  {
    if e.Bin? {
      var a := Dups1(e.op, e, [], []);
      Dups1Value(e.op, e, [], [], v);
      Dups2Refines(e.op, a.tree, [], [], v);
      var t := Round(e).tree;
      EliminateYnValue(t, v);
      EliminateYnProper(t);
      RoundProgress(e);
      if Round(e).count > 0 { EliminateDupsRefines(EliminateYn(t), v); }
    }
  }
}
