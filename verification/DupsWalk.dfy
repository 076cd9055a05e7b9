/** The order in which expr_eliminate_dups1 and expr_eliminate_dups2 rewrite, once for all:
    what holds of each single rewrite and is kept by a sequence of them holds of a pass. */
module DupsWalk {
  import opened Tristate
  import opened Expr
  import opened Slots
  import opened Dups

  /** What is claimed of a pass over the operator tree t that ends in r. */
  type Law = (Op, Expr, Rewritten) -> bool

  /** It holds if nothing happens. */
  ghost predicate Stays(law: Law, op: Op, t: Expr) { law(op, t, Rewritten(t, 0)) }

  /** It is kept when one rewriting follows another. */
  ghost predicate Chains(law: Law, op: Op, t: Expr, a: Rewritten, b: Rewritten) {
    Keeps(op, t, a) && law(op, t, a) && law(op, a.tree, b) ==> law(op, t, Rewritten(b.tree, a.count + b.count))
  }

  /** It passes from an operand to the tree. */
  ghost predicate Lifts(law: Law, op: Op, t: Expr, p: Path, inner: Rewritten) {
    OperandSlot(op, t, p) && At(t, p).Bin? && Keeps(At(t, p).op, At(t, p), inner) && law(At(t, p).op, At(t, p), inner) ==>
      law(op, t, Rewritten(Put(t, p, inner.tree), inner.count))
  }

  /** It holds of a single join. */
  ghost predicate Joins(law: Law, op: Op, t: Expr, p1: Path, p2: Path) {
    OperandSlot(op, t, p1) && OperandSlot(op, t, p2) && p1 != p2 ==>
      law(op, t, JoinSlots(op, Rewritten(t, 0), p1, p2))
  }

  /** It holds when a single operand is dropped. */
  ghost predicate Drops(law: Law, op: Op, t: Expr, p1: Path, p2: Path) {
    OperandSlot(op, t, p1) && OnSpine(op, t, p2) && HasSlot(t, p2) && p1 != [] ==>
      law(op, t, DropContradicted(op, Rewritten(t, 0), p1, p2))
  }

  ghost predicate Composes(law: Law) {
    && (forall op, t :: Stays(law, op, t))
    && (forall op, t, a, b :: Chains(law, op, t, a, b))
    && (forall op, t, p, inner :: Lifts(law, op, t, p, inner))
  }

  lemma Chain(law: Law, op: Op, t: Expr, a: Rewritten, b: Rewritten)
    requires Composes(law) && Keeps(op, t, a) && law(op, t, a) && law(op, a.tree, b)
    ensures law(op, t, Rewritten(b.tree, a.count + b.count))
  {
    assert Chains(law, op, t, a, b);
  }

  ghost predicate HoldsOfJoins(law: Law) { forall op, t, p1, p2 :: Joins(law, op, t, p1, p2) }

  ghost predicate HoldsOfDrops(law: Law) { forall op, t, p1, p2 :: Drops(law, op, t, p1, p2) }

  /** What holds of joins holds of expr_eliminate_dups1. */
  lemma {:induction false} Dups1Follows(law: Law, op: Op, t: Expr, p1: Path, p2: Path)
    requires Composes(law) && HoldsOfJoins(law) && OnSpine(op, t, p1) && OnSpine(op, t, p2)
    ensures law(op, t, Dups1(op, t, p1, p2))
    decreases Size(t), SpineSize(op, (SpineHasSlot(op, t, p1); At(t, p1))), SpineSize(op, (SpineHasSlot(op, t, p2); At(t, p2))), 1
  {
    SpineHasSlot(op, t, p1);
    SpineHasSlot(op, t, p2);
    var e1, e2 := At(t, p1), At(t, p2);
    if Rooted(op, e1) {
      Dups1FirstFollows(law, op, t, p1, p2);
    } else if Rooted(op, e2) {
      ChildSlots(op, t, p2);
      var a := Dups1(op, t, p1, p2 + [L]);
      SameSpineSlot(op, t, a.tree, p1);
      SameSpineSlot(op, t, a.tree, p2 + [R]);
      Dups1Follows(law, op, t, p1, p2 + [L]);
      Dups1Follows(law, op, a.tree, p1, p2 + [R]);
      var b := Dups1(op, a.tree, p1, p2 + [R]);
      assert Dups1(op, t, p1, p2) == Rewritten(b.tree, a.count + b.count);
      Chain(law, op, t, a, b);
    } else if p1 != p2 {
      SlotSmaller(t, p1);
      if e1.Bin? { Dups1Follows(law, e1.op, e1, [], []); }
      var inner := if e1.Bin? then Dups1(e1.op, e1, [], []) else Rewritten(e1, 0);
      JoinFollows(law, op, t, p1, p2, inner);
      assert Dups1(op, t, p1, p2) == JoinSlots(op, Rewritten(Put(t, p1, inner.tree), inner.count), p1, p2);
    } else {
      assert Stays(law, op, t);
    }
  }

  lemma {:induction false} Dups1FirstFollows(law: Law, op: Op, t: Expr, p1: Path, p2: Path)
    requires Composes(law) && HoldsOfJoins(law) && OnSpine(op, t, p1) && OnSpine(op, t, p2)
    requires HasSlot(t, p1) && Rooted(op, At(t, p1))
    ensures law(op, t, Dups1(op, t, p1, p2))
    decreases Size(t), SpineSize(op, (SpineHasSlot(op, t, p1); At(t, p1))), SpineSize(op, (SpineHasSlot(op, t, p2); At(t, p2))), 0
  {
    SpineHasSlot(op, t, p2);
    ChildSlots(op, t, p1);
    var a := Dups1(op, t, p1 + [L], p2);
    SameSpineSlot(op, t, a.tree, p1 + [R]);
    SameSpineSlot(op, t, a.tree, p2);
    Dups1Follows(law, op, t, p1 + [L], p2);
    Dups1Follows(law, op, a.tree, p1 + [R], p2);
    var b := Dups1(op, a.tree, p1 + [R], p2);
    assert Dups1(op, t, p1, p2) == Rewritten(b.tree, a.count + b.count);
    Chain(law, op, t, a, b);
  }

  lemma JoinFollows(law: Law, op: Op, t: Expr, p1: Path, p2: Path, inner: Rewritten)
    requires Composes(law) && HoldsOfJoins(law)
    requires OperandSlot(op, t, p1) && OperandSlot(op, t, p2) && p1 != p2
    requires if At(t, p1).Bin? then Keeps(At(t, p1).op, At(t, p1), inner) && law(At(t, p1).op, At(t, p1), inner)
             else inner == Rewritten(At(t, p1), 0)
    ensures var s := Rewritten(Put(t, p1, inner.tree), inner.count);
      && OperandSlot(op, s.tree, p1) && OperandSlot(op, s.tree, p2)
      && law(op, t, JoinSlots(op, s, p1, p2))
  {
    var s := Rewritten(Put(t, p1, inner.tree), inner.count);
    PutOperand(op, t, p1, inner.tree);
    PutOther(op, t, p1, inner.tree, p2);
    SameSpineSlot(op, t, s.tree, p1);
    SameSpineSlot(op, t, s.tree, p2);
    PutSame(t, p1);
    assert Stays(law, op, t) && Lifts(law, op, t, p1, inner);
    assert Joins(law, op, s.tree, p1, p2);
    var j := JoinSlots(op, Rewritten(s.tree, 0), p1, p2);
    assert JoinSlots(op, s, p1, p2) == Rewritten(j.tree, s.count + j.count);
    Chain(law, op, t, s, j);
  }

  /** What holds of drops holds of expr_eliminate_dups2. */
  lemma {:induction false} Dups2Follows(law: Law, op: Op, t: Expr, p1: Path, p2: Path)
    requires Composes(law) && HoldsOfDrops(law) && OnSpine(op, t, p1) && OnSpine(op, t, p2)
    ensures law(op, t, Dups2(op, t, p1, p2))
    decreases Size(t), SpineSize(op, (SpineHasSlot(op, t, p1); At(t, p1))), SpineSize(op, (SpineHasSlot(op, t, p2); At(t, p2))), 1
  {
    SpineHasSlot(op, t, p1);
    SpineHasSlot(op, t, p2);
    if Rooted(op, At(t, p1)) {
      Dups2FirstFollows(law, op, t, p1, p2);
    } else {
      var s := SplitSecond(op, t, p1, p2);
      SplitFollows(law, op, t, p1, p2);
      SameSpineSlot(op, t, s.tree, p1);
      SameSpineSlot(op, t, s.tree, p2);
      var e1 := At(s.tree, p1);
      if p1 != p2 && e1.Bin? {
        SlotSmaller(s.tree, p1);
        Dups2Follows(law, e1.op, e1, [], []);
        var inner := Dups2(e1.op, e1, [], []);
        MeetFollows(law, op, t, s, p1, p2, inner);
        assert Dups2(op, t, p1, p2) == Meet(op, s, p1, p2, inner);
      }
    }
  }

  lemma {:induction false} Dups2FirstFollows(law: Law, op: Op, t: Expr, p1: Path, p2: Path)
    requires Composes(law) && HoldsOfDrops(law) && OnSpine(op, t, p1) && OnSpine(op, t, p2)
    requires HasSlot(t, p1) && Rooted(op, At(t, p1))
    ensures law(op, t, Dups2(op, t, p1, p2))
    decreases Size(t), SpineSize(op, (SpineHasSlot(op, t, p1); At(t, p1))), SpineSize(op, (SpineHasSlot(op, t, p2); At(t, p2))), 0
  {
    SpineHasSlot(op, t, p2);
    ChildSlots(op, t, p1);
    var a := Dups2(op, t, p1 + [L], p2);
    SameSpineSlot(op, t, a.tree, p1 + [R]);
    SameSpineSlot(op, t, a.tree, p2);
    Dups2Follows(law, op, t, p1 + [L], p2);
    Dups2Follows(law, op, a.tree, p1 + [R], p2);
    var b := Dups2(op, a.tree, p1 + [R], p2);
    assert Dups2(op, t, p1, p2) == Rewritten(b.tree, a.count + b.count);
    Chain(law, op, t, a, b);
  }

  lemma {:induction false} SplitFollows(law: Law, op: Op, t: Expr, p1: Path, p2: Path)
    requires Composes(law) && HoldsOfDrops(law) && OnSpine(op, t, p1) && OnSpine(op, t, p2)
    requires HasSlot(t, p1) && !Rooted(op, At(t, p1))
    ensures law(op, t, SplitSecond(op, t, p1, p2))
    decreases Size(t), SpineSize(op, (SpineHasSlot(op, t, p1); At(t, p1))), SpineSize(op, (SpineHasSlot(op, t, p2); At(t, p2))), 0
  {
    SpineHasSlot(op, t, p2);
    if Rooted(op, At(t, p2)) {
      ChildSlots(op, t, p2);
      var a := Dups2(op, t, p1, p2 + [L]);
      SameSpineSlot(op, t, a.tree, p1);
      SameSpineSlot(op, t, a.tree, p2 + [R]);
      Dups2Follows(law, op, t, p1, p2 + [L]);
      Dups2Follows(law, op, a.tree, p1, p2 + [R]);
      var b := Dups2(op, a.tree, p1, p2 + [R]);
      assert SplitSecond(op, t, p1, p2) == Rewritten(b.tree, a.count + b.count);
      Chain(law, op, t, a, b);
    } else {
      assert Stays(law, op, t);
    }
  }

  lemma MeetFollows(law: Law, op: Op, t: Expr, s: Rewritten, p1: Path, p2: Path, inner: Rewritten)
    requires Composes(law) && HoldsOfDrops(law) && Keeps(op, t, s) && law(op, t, s) && p1 != []
    requires OperandSlot(op, s.tree, p1) && OnSpine(op, s.tree, p2) && HasSlot(s.tree, p2) && At(s.tree, p1).Bin?
    requires Keeps(At(s.tree, p1).op, At(s.tree, p1), inner) && law(At(s.tree, p1).op, At(s.tree, p1), inner)
    ensures law(op, t, Meet(op, s, p1, p2, inner))
  {
    var u := Rewritten(Put(s.tree, p1, inner.tree), inner.count);
    PutOperand(op, s.tree, p1, inner.tree);
    PutSame(s.tree, p1);
    SameSpineSlot(op, s.tree, u.tree, p1);
    SameSpineSlot(op, s.tree, u.tree, p2);
    assert Lifts(law, op, s.tree, p1, inner) && Drops(law, op, u.tree, p1, p2);
    var d := DropContradicted(op, Rewritten(u.tree, 0), p1, p2);
    assert Meet(op, s, p1, p2, inner) == Rewritten(d.tree, s.count + (u.count + d.count));
    Chain(law, op, s.tree, u, d);
    Chain(law, op, t, s, Rewritten(d.tree, u.count + d.count));
  }
}
