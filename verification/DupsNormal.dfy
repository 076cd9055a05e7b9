/** expr_eliminate_dups keeps the normal form of expr_transform, so that menu_finalize may
    apply expr_trans_bool to its result. */
module DupsNormal {
  import opened Tristate
  import opened Expr
  import opened Equality
  import opened Join
  import opened Transform
  import opened Slots
  import opened Dups
  import opened DupsWalk
  import opened DupsLaws
  import opened DupsResult
  import opened Nesting

  lemma {:induction false} SlotNormal(op: Op, t: Expr, p: Path, x: Expr)
    requires OnSpine(op, t, p) && HasSlot(t, p) && Normal(t)
    ensures Normal(At(t, p))
    ensures Normal(x) ==> Normal(Put(t, p, x))
  {
    if p != [] { SlotNormal(op, Child(t, p[0]), p[1..], x); }
  }

  lemma JoinNormal(op: Op, a: Expr, b: Expr)
    requires Normal(a) && Normal(b) && JoinOp(op, a, b).Some?
    ensures Normal(JoinOp(op, a, b).value)
  {}

  lemma JoinSlotsNormal(op: Op, s: Rewritten, p1: Path, p2: Path)
    requires OperandSlot(op, s.tree, p1) && OperandSlot(op, s.tree, p2) && p1 != p2 && Normal(s.tree)
    ensures Normal(JoinSlots(op, s, p1, p2).tree)
  {
    var j := JoinOp(op, At(s.tree, p1), At(s.tree, p2));
    if j.Some? {
      var one := Const(Unit(op));
      var u := Put(s.tree, p1, one);
      SlotNormal(op, s.tree, p1, one);
      SlotNormal(op, s.tree, p2, one);
      JoinNormal(op, At(s.tree, p1), At(s.tree, p2));
      PutOperand(op, s.tree, p1, one);
      SameSpineSlot(op, s.tree, u, p2);
      SlotNormal(op, u, p2, j.value);
    }
  }

  function KeepsNormal(): Law { (op, t, r: Rewritten) => Normal(t) ==> Normal(r.tree) }

  lemma PassNormal(op: Op, t: Expr)
    requires Normal(t)
    ensures Normal(Dups1(op, t, [], []).tree) && Normal(Dups2(op, t, [], []).tree)
  {
    var law := KeepsNormal();
    forall op, t, p, inner ensures Lifts(law, op, t, p, inner) {
      if OperandSlot(op, t, p) && Normal(t) { SlotNormal(op, t, p, inner.tree); }
    }
    forall op, t, p1, p2 ensures Joins(law, op, t, p1, p2) {
      if OperandSlot(op, t, p1) && OperandSlot(op, t, p2) && p1 != p2 && Normal(t) {
        JoinSlotsNormal(op, Rewritten(t, 0), p1, p2);
      }
    }
    forall op, t, p1, p2 ensures Drops(law, op, t, p1, p2) {
      if OperandSlot(op, t, p1) && Normal(t) { SlotNormal(op, t, p1, Const(Zero(op))); }
    }
    Dups1Follows(law, op, t, [], []);
    Dups2Follows(law, op, t, [], []);
  }

  lemma {:induction false} EliminateYnNormal(e: Expr)
    requires Normal(e)
    ensures Normal(EliminateYn(e))
  {
    if e.Bin? {
      EliminateYnNormal(e.left);
      EliminateYnNormal(e.right);
    }
  }

  lemma {:induction false} EliminateDupsNormal(e: Expr)
    requires Normal(e)
    ensures Normal(EliminateDups(e))
    decreases Size(e)
  {
    RoundProgress(e);
    if e.Bin? {
      PassNormal(e.op, e);
      PassNormal(e.op, Dups1(e.op, e, [], []).tree);
      if Round(e).count > 0 {
        EliminateYnNormal(Round(e).tree);
        EliminateDupsNormal(EliminateYn(Round(e).tree));
      }
    }
  }

  predicate NormalOpt(e: Option<Expr>) { e.Some? ==> Normal(e.value) }

  /** The visibility menu_finalize stores for a property of a symbol that is not tristate. */
  function PropertyVisible(base: Option<Expr>, own: Option<Expr>): Option<Expr> {
    Map(TransBool, Inherit(base, own))
  }

  /** Everything menu_finalize derives from normal dependencies is normal again, and
      expr_trans_bool never changes whether a property is visible. */
  lemma PropertyVisibility(base: Option<Expr>, own: Option<Expr>, v: Valuation)
    requires Typed(v) && NormalOpt(base)
    ensures NormalOpt(Inherit(base, own)) && NormalOpt(PropertyVisible(base, own))
    ensures EvalOpt(PropertyVisible(base, own), v) == NO <==> EvalOpt(Inherit(base, own), v) == NO
    ensures Inherit(base, own).None? <==> base.None? && own.None?
    ensures Inherit(base, own).Some? ==> NothingJoins(Inherit(base, own).value) && NothingContradicts(Inherit(base, own).value)
    ensures PropertyVisible(base, own).Some? ==> NothingToRelax(PropertyVisible(base, own).value)
  {
    if own.Some? { TransformNormal(own.value); }
    var both := AllocAnd(base, Map(TransformExpr, own));
    if both.Some? {
      EliminateDupsNormal(both.value);
      TransBoolKeepsNo(EliminateDups(both.value), v);
      TransBoolNormal(EliminateDups(both.value));
      TransBoolRelaxes(EliminateDups(both.value));
      EliminateDupsClean(both.value);
    }
  }

  lemma {:induction false} TransBoolNormal(e: Expr)
    requires Normal(e)
    ensures Normal(TransBool(e))
  {
    if e.Bin? {
      TransBoolNormal(e.left);
      TransBoolNormal(e.right);
    }
  }

  /** What the submenu test compares is normal, free of redundancy and never m. */
  lemma VisibleNormal(e: Option<Expr>)
    ensures Normal(Visible(e)) && NothingJoins(Visible(e)) && NothingContradicts(Visible(e))
    ensures forall v: Valuation | Typed(v) && ProperOpt(e) :: Eval(Visible(e), v) != MOD
  {
    var t := TransformExpr(TransCompareOpt(e, Ne, NO));
    TransformNormal(TransCompareOpt(e, Ne, NO));
    EliminateDupsNormal(t);
    EliminateDupsClean(t);
    forall v: Valuation | Typed(v) && ProperOpt(e) ensures Eval(Visible(e), v) != MOD {
      VisibleValue(e, v);
    }
  }
}
