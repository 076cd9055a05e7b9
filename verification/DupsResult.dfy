/** The shape and the exactness of what expr_eliminate_dups returns. */
module DupsResult {
  import opened Tristate
  import opened Expr
  import opened Equality
  import opened EqualityLaws
  import opened OperandLaws
  import opened Join
  import opened JoinLaws
  import opened Dups
  import opened Slots
  import opened DupsWalk
  import opened DupsLaws

  // Exactness.

  /** No symbol that is used as an expression is m. */
  predicate TwoValued(e: Expr, v: Valuation) {
    match e
    case Sym(s) => v(s).tri != MOD
    case Not(a) => TwoValued(a, v)
    case Cmp(_, _, _) => true
    case Bin(_, l, r) => TwoValued(l, v) && TwoValued(r, v)
  }

  lemma {:induction false} TwoValuedNeverMod(e: Expr, v: Valuation)
    requires TwoValued(e, v)
    ensures Eval(e, v) != MOD
  {
    match e
    case Sym(_) =>
    case Cmp(_, _, _) =>
    case Not(a) => TwoValuedNeverMod(a, v);
    case Bin(_, l, r) =>
      TwoValuedNeverMod(l, v);
      TwoValuedNeverMod(r, v);
  }

  /** Wherever no symbol is m the simplified expression has exactly the old value. */
  lemma EliminateDupsExact(e: Expr, v: Valuation)
    requires Typed(v) && Proper(e) && TwoValued(e, v)
    ensures Eval(EliminateDups(e), v) == Eval(e, v)
  {
    EliminateDupsRefines(e, v);
    TwoValuedNeverMod(e, v);
  }

  /** The second pass drops nothing in any round of the loop. */
  predicate WithoutDrops(e: Expr)
    decreases Size(e)
  {
    RoundProgress(e);
    (e.Bin? ==> Dups2(e.op, Dups1(e.op, e, [], []).tree, [], []).count == 0) &&
    (Round(e).count > 0 ==> WithoutDrops(EliminateYn(Round(e).tree)))
  }

  /** Then the value is kept under every typed valuation, also where symbols are m. */
  lemma {:induction false} ExactWithoutDrops(e: Expr, v: Valuation)
    requires Typed(v) && Proper(e) && WithoutDrops(e)
    ensures Eval(EliminateDups(e), v) == Eval(e, v)
    decreases Size(e)
  {
    RoundProgress(e);
    if e.Bin? {
      var t := Round(e).tree;
      Dups1Value(e.op, e, [], [], v);
      EliminateYnValue(t, v);
      EliminateYnProper(t);
      if Round(e).count > 0 { ExactWithoutDrops(EliminateYn(t), v); }
    }
  }

  /** No operand of the operator tree has operands of its own. */
  predicate Flat(op: Op, e: Expr) {
    if Rooted(op, e) then Flat(op, e.left) && Flat(op, e.right) else !e.Bin?
  }

  lemma {:induction false} FlatSlot(op: Op, t: Expr, p: Path, x: Expr)
    requires Flat(op, t) && OperandSlot(op, t, p)
    ensures !At(t, p).Bin?
    ensures !x.Bin? ==> Flat(op, Put(t, p, x))
  {
    if p != [] { FlatSlot(op, Child(t, p[0]), p[1..], x); }
  }

  lemma {:induction false} Dups2Leaf(op: Op, t: Expr, p1: Path, p2: Path)
    requires OperandSlot(op, t, p1) && !At(t, p1).Bin? && OnSpine(op, t, p2)
    ensures Dups2(op, t, p1, p2) == Rewritten(t, 0)
    decreases SpineSize(op, (SpineHasSlot(op, t, p2); At(t, p2)))
  {
    SpineHasSlot(op, t, p2);
    if Rooted(op, At(t, p2)) {
      ChildSlots(op, t, p2);
      Dups2Leaf(op, t, p1, p2 + [L]);
      Dups2Leaf(op, t, p1, p2 + [R]);
    }
    assert SplitSecond(op, t, p1, p2) == Rewritten(t, 0);
  }

  lemma {:induction false} Dups2Flat(op: Op, t: Expr, p1: Path, p2: Path)
    requires Flat(op, t) && OnSpine(op, t, p1) && OnSpine(op, t, p2)
    ensures Dups2(op, t, p1, p2) == Rewritten(t, 0)
    decreases SpineSize(op, (SpineHasSlot(op, t, p1); At(t, p1)))
  {
    SpineHasSlot(op, t, p1);
    if Rooted(op, At(t, p1)) {
      ChildSlots(op, t, p1);
      Dups2Flat(op, t, p1 + [L], p2);
      Dups2Flat(op, t, p1 + [R], p2);
    } else {
      FlatSlot(op, t, p1, t);
      Dups2Leaf(op, t, p1, p2);
    }
  }

  function KeepsFlat(): Law { (op, t, r: Rewritten) => Flat(op, t) ==> Flat(op, r.tree) }

  lemma Dups1Flat(op: Op, t: Expr)
    requires Flat(op, t)
    ensures Flat(op, Dups1(op, t, [], []).tree)
  {
    var law := KeepsFlat();
    forall op, t, p, inner ensures Lifts(law, op, t, p, inner) {
      if OperandSlot(op, t, p) && Flat(op, t) { FlatSlot(op, t, p, t); }
    }
    forall op, t, p1, p2 ensures Joins(law, op, t, p1, p2) {
      if OperandSlot(op, t, p1) && OperandSlot(op, t, p2) && p1 != p2 && Flat(op, t) { JoinSlotsFlat(op, t, p1, p2); }
    }
    Dups1Follows(law, op, t, [], []);
  }

  lemma JoinSlotsFlat(op: Op, t: Expr, p1: Path, p2: Path)
    requires Flat(op, t) && OperandSlot(op, t, p1) && OperandSlot(op, t, p2) && p1 != p2
    ensures Flat(op, JoinSlots(op, Rewritten(t, 0), p1, p2).tree)
  {
    var j := JoinOp(op, At(t, p1), At(t, p2));
    if j.Some? {
      var one := Const(Unit(op));
      JoinShape(op, At(t, p1), At(t, p2));
      FlatSlot(op, t, p1, one);
      PutOperand(op, t, p1, one);
      SameSpineSlot(op, t, Put(t, p1, one), p2);
      FlatSlot(op, Put(t, p1, one), p2, j.value);
    }
  }

  lemma {:induction false} EliminateYnFlat(op: Op, e: Expr)
    requires Flat(op, e)
    ensures Flat(op, EliminateYn(e))
  {
    if Rooted(op, e) {
      EliminateYnFlat(op, e.left);
      EliminateYnFlat(op, e.right);
    }
  }

  /** Nothing is dropped from a tree of one operator. */
  lemma {:induction false} FlatWithoutDrops(op: Op, e: Expr)
    requires Flat(op, e)
    ensures WithoutDrops(e)
    decreases Size(e)
  {
    RoundProgress(e);
    if e.Bin? {
      Dups1Flat(op, e);
      Dups2Flat(op, Dups1(op, e, [], []).tree, [], []);
      EliminateYnFlat(op, Round(e).tree);
      if Round(e).count > 0 { FlatWithoutDrops(op, EliminateYn(Round(e).tree)); }
    }
  }

  // Completeness: the result holds nothing the rounds look for.

  lemma PrefixStep(p: Path, q: Path)
    requires p <= q && p != q
    ensures p + [L] <= q || p + [R] <= q
  {
    assert q[|p|] == L || q[|p|] == R;
  }

  lemma {:induction false} Dups1Zero(op: Op, t: Expr, p1: Path, p2: Path, q1: Path, q2: Path)
    requires OnSpine(op, t, p1) && OnSpine(op, t, p2) && Dups1(op, t, p1, p2).count == 0
    requires OperandSlot(op, t, q1) && OperandSlot(op, t, q2)
    requires p1 <= q1 && p2 <= q2 && q1 != q2
    ensures JoinOp(op, At(t, q1), At(t, q2)).None?
    ensures At(t, q1).Bin? ==> Dups1(At(t, q1).op, At(t, q1), [], []).count == 0
    decreases SpineSize(op, (SpineHasSlot(op, t, p1); At(t, p1))), SpineSize(op, (SpineHasSlot(op, t, p2); At(t, p2)))
  {
    SpineHasSlot(op, t, p1);
    SpineHasSlot(op, t, p2);
    if Rooted(op, At(t, p1)) {
      ChildSlots(op, t, p1);
      PrefixStep(p1, q1);
      Dups1Zero(op, t, if p1 + [L] <= q1 then p1 + [L] else p1 + [R], p2, q1, q2);
    } else if Rooted(op, At(t, p2)) {
      SpineEnds(op, t, p1, q1);
      ChildSlots(op, t, p2);
      PrefixStep(p2, q2);
      Dups1Zero(op, t, p1, if p2 + [L] <= q2 then p2 + [L] else p2 + [R], q1, q2);
    } else {
      SpineEnds(op, t, p1, q1);
      SpineEnds(op, t, p2, q2);
      PutSame(t, p1);
    }
  }

  /** Below an operand the spine does not continue. */
  lemma SpineEnds(op: Op, t: Expr, p: Path, q: Path)
    requires OperandSlot(op, t, p) && OnSpine(op, t, q) && p <= q
    ensures p == q
  {
    if p != [] {
      SpineEnds(op, Child(t, p[0]), p[1..], q[1..]);
      assert p == [p[0]] + p[1..] && q == [q[0]] + q[1..];
    }
  }

  lemma {:induction false} Dups2Zero(op: Op, t: Expr, p1: Path, p2: Path, q1: Path, q2: Path)
    requires OnSpine(op, t, p1) && OnSpine(op, t, p2) && Dups2(op, t, p1, p2).count == 0
    requires OperandSlot(op, t, q1) && OnSpine(op, t, q2) && HasSlot(t, q2)
    requires p1 <= q1 && p2 <= q2 && q1 != q2
    ensures At(t, q1).Bin? ==> !Contradicted(op, At(t, q1), At(t, q2))
    ensures At(t, q1).Bin? ==> Dups2(At(t, q1).op, At(t, q1), [], []).count == 0
    decreases SpineSize(op, (SpineHasSlot(op, t, p1); At(t, p1))), SpineSize(op, (SpineHasSlot(op, t, p2); At(t, p2)))
  {
    SpineHasSlot(op, t, p1);
    SpineHasSlot(op, t, p2);
    if Rooted(op, At(t, p1)) {
      ChildSlots(op, t, p1);
      PrefixStep(p1, q1);
      Dups2Zero(op, t, if p1 + [L] <= q1 then p1 + [L] else p1 + [R], p2, q1, q2);
    } else {
      SpineEnds(op, t, p1, q1);
      if p2 != q2 {
        if !Rooted(op, At(t, p2)) { SpineEnds(op, t, p2, q2); }
        ChildSlots(op, t, p2);
        PrefixStep(p2, q2);
        Dups2Zero(op, t, p1, if p2 + [L] <= q2 then p2 + [L] else p2 + [R], q1, q2);
      } else {
        PutSame(t, p1);
      }
    }
  }

  /** Neither pass counts anything. */
  predicate Clean(e: Expr) { Round(e).count == 0 }

  /** Two operands that cannot be joined, the first of them clean for the first pass. */
  predicate Unjoinable(op: Op, t: Expr, q1: Path, q2: Path)
    requires HasSlot(t, q1) && HasSlot(t, q2)
  {
    JoinOp(op, At(t, q1), At(t, q2)).None? &&
    (At(t, q1).Bin? ==> Dups1(At(t, q1).op, At(t, q1), [], []).count == 0)
  }

  /** An operand whose negation is not spelled out at the other slot, clean for the second pass. */
  predicate Uncontradicted(op: Op, t: Expr, q1: Path, q2: Path)
    requires HasSlot(t, q1) && HasSlot(t, q2)
  {
    At(t, q1).Bin? ==>
      !Contradicted(op, At(t, q1), At(t, q2)) && Dups2(At(t, q1).op, At(t, q1), [], []).count == 0
  }

  lemma {:induction false} Dups1ZeroIf(op: Op, t: Expr, p1: Path, p2: Path)
    requires OnSpine(op, t, p1) && OnSpine(op, t, p2)
    requires forall q1, q2 | OperandSlot(op, t, q1) && OperandSlot(op, t, q2) && q1 != q2 :: Unjoinable(op, t, q1, q2)
    ensures Dups1(op, t, p1, p2).count == 0
    decreases SpineSize(op, (SpineHasSlot(op, t, p1); At(t, p1))), SpineSize(op, (SpineHasSlot(op, t, p2); At(t, p2)))
  {
    SpineHasSlot(op, t, p1);
    SpineHasSlot(op, t, p2);
    if Rooted(op, At(t, p1)) {
      ChildSlots(op, t, p1);
      Dups1ZeroIf(op, t, p1 + [L], p2);
      Dups1ZeroIf(op, t, p1 + [R], p2);
    } else if Rooted(op, At(t, p2)) {
      ChildSlots(op, t, p2);
      Dups1ZeroIf(op, t, p1, p2 + [L]);
      Dups1ZeroIf(op, t, p1, p2 + [R]);
    } else if p1 != p2 {
      assert Unjoinable(op, t, p1, p2);
      PutSame(t, p1);
    }
  }

  lemma {:induction false} Dups2ZeroIf(op: Op, t: Expr, p1: Path, p2: Path)
    requires OnSpine(op, t, p1) && OnSpine(op, t, p2)
    requires forall q1, q2 | OperandSlot(op, t, q1) && OnSpine(op, t, q2) && HasSlot(t, q2) && q1 != q2 ::
      Uncontradicted(op, t, q1, q2)
    ensures Dups2(op, t, p1, p2).count == 0
    decreases SpineSize(op, (SpineHasSlot(op, t, p1); At(t, p1))), SpineSize(op, (SpineHasSlot(op, t, p2); At(t, p2)))
  {
    SpineHasSlot(op, t, p1);
    SpineHasSlot(op, t, p2);
    if Rooted(op, At(t, p1)) {
      ChildSlots(op, t, p1);
      Dups2ZeroIf(op, t, p1 + [L], p2);
      Dups2ZeroIf(op, t, p1 + [R], p2);
    } else {
      if Rooted(op, At(t, p2)) {
        ChildSlots(op, t, p2);
        Dups2ZeroIf(op, t, p1, p2 + [L]);
        Dups2ZeroIf(op, t, p1, p2 + [R]);
      }
      assert SplitSecond(op, t, p1, p2) == Rewritten(t, 0);
      if p1 != p2 {
        assert Uncontradicted(op, t, p1, p2);
        PutSame(t, p1);
      }
    }
  }

  lemma OperandSmaller(e: Expr, p: Path)
    requires e.Bin? && OperandSlot(e.op, e, p)
    ensures p != [] && Size(At(e, p)) < Size(e)
  {
    SlotSmaller(e, p);
  }

  /** At every level, no two operands of one operator tree are found equal or are a pair that
      can be made into one. */
  ghost predicate NothingJoins(e: Expr)
    decreases Size(e)
  {
    e.Bin? ==>
      (forall p, q | OperandSlot(e.op, e, p) && OperandSlot(e.op, e, q) && p != q ::
         !ExprEq(At(e, p), At(e, q)) && !Mergeable(e.op, At(e, p), At(e, q))) &&
      (forall p | OperandSlot(e.op, e, p) :: OperandSmaller(e, p); NothingJoins(At(e, p)))
  }

  /** At every level, no operand that is a node meets its negation in another part of its
      operator tree. */
  ghost predicate NothingContradicts(e: Expr)
    decreases Size(e)
  {
    e.Bin? ==>
      (forall p, q | OperandSlot(e.op, e, p) && At(e, p).Bin? && OnSpine(e.op, e, q) && HasSlot(e, q) && p != q ::
         !Contradicted(e.op, At(e, p), At(e, q))) &&
      (forall p | OperandSlot(e.op, e, p) :: OperandSmaller(e, p); NothingContradicts(At(e, p)))
  }

  /** Some operand of the tree. */
  lemma {:induction false} AnyOperand(op: Op, t: Expr) returns (p: Path)
    ensures OperandSlot(op, t, p)
  {
    p := [];
    if Rooted(op, t) {
      var q := AnyOperand(op, t.left);
      p := [L] + q;
      assert p[1..] == q;
    }
  }

  /** An operand is never the only one. */
  lemma OtherOperand(e: Expr, p: Path) returns (q: Path)
    requires e.Bin? && OperandSlot(e.op, e, p)
    ensures OperandSlot(e.op, e, q) && q != p
  {
    var d := if p[0] == L then R else L;
    var below := AnyOperand(e.op, Child(e, d));
    q := [d] + below;
    assert q[1..] == below;
  }

  /** The first pass counts nothing exactly if nothing can be joined at any level. */
  lemma {:induction false} Dups1CleanIff(e: Expr)
    requires e.Bin?
    ensures Dups1(e.op, e, [], []).count == 0 <==> NothingJoins(e)
    decreases Size(e)
  {
    var op := e.op;
    forall p | OperandSlot(op, e, p) ensures At(e, p).Bin? ==>
      (Dups1(At(e, p).op, At(e, p), [], []).count == 0 <==> NothingJoins(At(e, p)))
    {
      OperandSmaller(e, p);
      if At(e, p).Bin? { Dups1CleanIff(At(e, p)); }
    }
    if Dups1(op, e, [], []).count == 0 {
      forall p, q | OperandSlot(op, e, p) && OperandSlot(op, e, q) && p != q
        ensures !ExprEq(At(e, p), At(e, q)) && !Mergeable(op, At(e, p), At(e, q))
      {
        assert [] <= p && [] <= q;
        Dups1Zero(op, e, [], [], p, q);
        JoinIff(op, At(e, p), At(e, q));
      }
      forall p | OperandSlot(op, e, p) ensures NothingJoins(At(e, p)) {
        var q := OtherOperand(e, p);
        assert [] <= p && [] <= q;
        Dups1Zero(op, e, [], [], p, q);
      }
    }
    if NothingJoins(e) {
      forall p, q | OperandSlot(op, e, p) && OperandSlot(op, e, q) && p != q ensures Unjoinable(op, e, p, q) {
        OperandSmaller(e, p);
        JoinIff(op, At(e, p), At(e, q));
      }
      Dups1ZeroIf(op, e, [], []);
    }
  }

  /** The second pass counts nothing exactly if nothing is contradicted at any level. */
  lemma {:induction false} Dups2CleanIff(e: Expr)
    requires e.Bin?
    ensures Dups2(e.op, e, [], []).count == 0 <==> NothingContradicts(e)
    decreases Size(e)
  {
    var op := e.op;
    forall p | OperandSlot(op, e, p) ensures At(e, p).Bin? ==>
      (Dups2(At(e, p).op, At(e, p), [], []).count == 0 <==> NothingContradicts(At(e, p)))
    {
      OperandSmaller(e, p);
      if At(e, p).Bin? { Dups2CleanIff(At(e, p)); }
    }
    if Dups2(op, e, [], []).count == 0 {
      forall p, q | OperandSlot(op, e, p) && At(e, p).Bin? && OnSpine(op, e, q) && HasSlot(e, q) && p != q
        ensures !Contradicted(op, At(e, p), At(e, q))
      {
        assert [] <= p && [] <= q;
        Dups2Zero(op, e, [], [], p, q);
      }
      forall p | OperandSlot(op, e, p) ensures NothingContradicts(At(e, p)) {
        OperandSmaller(e, p);
        assert [] <= p;
        Dups2Zero(op, e, [], [], p, []);
      }
    }
    if NothingContradicts(e) {
      forall p, q | OperandSlot(op, e, p) && OnSpine(op, e, q) && HasSlot(e, q) && p != q ensures Uncontradicted(op, e, p, q) {
        OperandSmaller(e, p);
      }
      Dups2ZeroIf(op, e, [], []);
    }
  }

  /** A round counts nothing exactly if the expression is free of redundancy of both kinds. */
  lemma CleanIff(e: Expr)
    ensures Clean(e) <==> NothingJoins(e) && NothingContradicts(e)
  {
    if e.Bin? {
      Dups1CleanIff(e);
      Dups2CleanIff(Dups1(e.op, e, [], []).tree);
    }
  }

  /** The loop of expr_eliminate_dups ends in an expression without redundancy, which a
      second call returns unchanged. */
  lemma {:induction false} EliminateDupsClean(e: Expr)
    ensures Clean(EliminateDups(e)) && EliminateDups(EliminateDups(e)) == EliminateDups(e)
    ensures NothingJoins(EliminateDups(e)) && NothingContradicts(EliminateDups(e))
    decreases Size(e)
  {
    RoundProgress(e);
    if Round(e).count > 0 {
      EliminateDupsClean(EliminateYn(Round(e).tree));
    } else {
      CleanIff(e);
    }
  }

  lemma PairSlots(op: Op, a: Expr, b: Expr, p: Path)
    requires !Rooted(op, a) && !Rooted(op, b) && OperandSlot(op, Bin(op, a, b), p)
    ensures (p == [L] && At(Bin(op, a, b), p) == a) || (p == [R] && At(Bin(op, a, b), p) == b)
  {
    if p[0] == L { SpineEnds(op, a, [], p[1..]); } else { SpineEnds(op, b, [], p[1..]); }
    assert p == [p[0]] + p[1..];
  }

  /** Two operands without operands of their own that cannot be joined stay as they are. */
  lemma PairStays(op: Op, a: Expr, b: Expr)
    requires !a.Bin? && !b.Bin? && JoinOp(op, a, b).None? && JoinOp(op, b, a).None?
    ensures EliminateDups(Bin(op, a, b)) == Bin(op, a, b)
  {
    var e := Bin(op, a, b);
    PairClean(op, a, b);
    assert Round(e).count == 0;
  }

  lemma PairClean(op: Op, a: Expr, b: Expr)
    requires !a.Bin? && !b.Bin? && JoinOp(op, a, b).None? && JoinOp(op, b, a).None?
    ensures Clean(Bin(op, a, b))
  {
    var e := Bin(op, a, b);
    JoinIff(op, a, b);
    JoinIff(op, b, a);
    forall p, q | OperandSlot(op, e, p) && OperandSlot(op, e, q) && p != q
      ensures !ExprEq(At(e, p), At(e, q)) && !Mergeable(op, At(e, p), At(e, q))
    {
      PairSlots(op, a, b, p);
      PairSlots(op, a, b, q);
    }
    forall p | OperandSlot(op, e, p) ensures !At(e, p).Bin? {
      PairSlots(op, a, b, p);
    }
    assert NothingJoins(e) && NothingContradicts(e);
    CleanIff(e);
  }

  lemma PairPaths(op: Op, a: Expr, b: Expr, x: Expr)
    ensures var t := Bin(op, a, b);
      && HasSlot(t, [L]) && HasSlot(t, [R]) && At(t, [L]) == a && At(t, [R]) == b
      && Put(t, [L], x) == Bin(op, x, b) && Put(t, [R], x) == Bin(op, a, x)
      && ([] + [L] == [L] && [] + [R] == [R])
  {
    var t := Bin(op, a, b);
    assert Child(t, L) == a && Child(t, R) == b && SetChild(t, L, x) == Bin(op, x, b) && SetChild(t, R, x) == Bin(op, a, x);
    assert Put(a, [], x) == x && Put(b, [], x) == x && At(a, []) == a && At(b, []) == b;
  }

  /** The first operand meets the second and becomes neutral. */
  lemma TwiceFirst(op: Op, a: Expr)
    requires Literal(a)
    ensures Dups1(op, Bin(op, a, a), [L], []) == Rewritten(Bin(op, Const(Unit(op)), a), 1)
  {
    var e, t := Bin(op, a, a), Bin(op, Const(Unit(op)), a);
    LiteralEq(a, a);
    JoinIff(op, a, a);
    PairPaths(op, a, a, a);
    PairPaths(op, a, a, Const(Unit(op)));
    PairPaths(op, Const(Unit(op)), a, a);
    assert Dups1(op, e, [L], [L]) == Rewritten(e, 0);
    assert Dups1(op, e, [L], [R]) == Rewritten(t, 1);
  }

  lemma TwiceSecond(op: Op, a: Expr)
    requires Literal(a)
    ensures Dups1(op, Bin(op, Const(Unit(op)), a), [R], []).tree == Bin(op, Const(Unit(op)), a)
  {
    var one := Const(Unit(op));
    var t := Bin(op, one, a);
    LiteralEq(a, one);
    JoinIff(op, a, one);
    PairPaths(op, one, a, a);
    PairPaths(op, one, a, one);
    PairPaths(op, one, one, a);
    assert Dups1(op, t, [R], [L]).tree == t;
    assert Dups1(op, t, [R], [R]) == Rewritten(t, 0);
  }

  /** A literal beside itself is simplified to the literal. */
  lemma TwiceIsOnce(op: Op, a: Expr)
    requires Literal(a)
    ensures EliminateDups(Bin(op, a, a)) == a
  {
    var e, t := Bin(op, a, a), Bin(op, Const(Unit(op)), a);
    PairPaths(op, a, a, a);
    TwiceFirst(op, a);
    TwiceSecond(op, a);
    var r := Dups1(op, e, [], []);
    assert r.tree == t && r.count >= 1;
    Dups2Flat(op, t, [], []);
    assert Round(e) == r;
    assert EliminateYn(t) == a;
    assert Round(a) == Rewritten(a, 0);
    assert EliminateDups(e) == EliminateDups(a) == a;
  }
}
