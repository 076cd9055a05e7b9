/** expr_extract_eq and expr_eliminate_dups: removing repeated and contradictory operands.
    The slots (struct expr **) the source passes around are paths into one tree, so that
    two slots may coincide or one may lie inside the other. */
module Dups {
  import opened Tristate
  import opened Expr
  import opened Equality
  import opened Join
  import opened Transform
  import opened Slots

  /** The slot is reached from the root through nodes of one operator only. */
  predicate OnSpine(op: Op, t: Expr, p: Path) {
    p == [] || (Rooted(op, t) && OnSpine(op, Child(t, p[0]), p[1..]))
  }

  /** A slot of an operand: on the spine, but not a node of the spine. */
  predicate OperandSlot(op: Op, t: Expr, p: Path) {
    OnSpine(op, t, p) && HasSlot(t, p) && !Rooted(op, At(t, p))
  }

  // expr_extract_eq

  datatype Extracted = Extracted(common: Option<Expr>, fst: Expr, snd: Expr)

  /** expr_extract_eq: common collects the operands a and b share. */
  function ExtractEq(op: Op, common: Option<Expr>, a: Expr, b: Expr): (x: Extracted)
    ensures Size(x.fst) <= Size(a) && Size(x.snd) <= Size(b)
    decreases Size(a) + Size(b)
  {
    if Rooted(op, a) then
      var p := ExtractEq(op, common, a.left, b);
      var q := ExtractEq(op, p.common, a.right, p.snd);
      Extracted(q.common, Bin(op, p.fst, q.fst), q.snd)
    else if Rooted(op, b) then
      var p := ExtractEq(op, common, a, b.left);
      var q := ExtractEq(op, p.common, p.fst, b.right);
      Extracted(q.common, q.fst, Bin(op, p.snd, q.snd))
    else if ExprEq(a, b) then
      Extracted(Some(if common.None? then a else Bin(op, common.value, a)), Const(Unit(op)), Const(Unit(op)))
    else Extracted(common, a, b)
  }

  /** expr_extract_eq_and, expr_extract_eq_or */
  function ExtractEqOp(op: Op, a: Expr, b: Expr): Extracted {
    var p := ExtractEq(op, None, a, b);
    if p.common.None? then p else Extracted(p.common, EliminateYn(p.fst), EliminateYn(p.snd))
  }

  // Slots on the spine of one operator.

  /** The same nodes of the operator in the same places; the operands may differ. */
  predicate SameSpine(op: Op, t: Expr, t': Expr) {
    if Rooted(op, t) then Rooted(op, t') && SameSpine(op, t.left, t'.left) && SameSpine(op, t.right, t'.right)
    else !Rooted(op, t')
  }

  function SpineSize(op: Op, e: Expr): nat {
    if Rooted(op, e) then 1 + SpineSize(op, e.left) + SpineSize(op, e.right) else 0
  }

  lemma SpineHasSlot(op: Op, t: Expr, p: Path)
    requires OnSpine(op, t, p)
    ensures HasSlot(t, p)
  {}

  lemma SameSpineSlot(op: Op, t: Expr, t': Expr, p: Path)
    requires SameSpine(op, t, t') && OnSpine(op, t, p)
    ensures OnSpine(op, t', p) && HasSlot(t, p) && HasSlot(t', p)
    ensures SameSpine(op, At(t, p), At(t', p))
    ensures SpineSize(op, At(t, p)) == SpineSize(op, At(t', p))
  {
    if p == [] {
      SameSpineSize(op, t, t');
    } else if p[0] == L {
      SameSpineSlot(op, t.left, t'.left, p[1..]);
    } else {
      SameSpineSlot(op, t.right, t'.right, p[1..]);
    }
  }

  lemma SameSpineSize(op: Op, t: Expr, t': Expr)
    requires SameSpine(op, t, t')
    ensures SpineSize(op, t) == SpineSize(op, t')
  {}

  lemma SameSpineTransitive(op: Op, a: Expr, b: Expr, c: Expr)
    requires SameSpine(op, a, b) && SameSpine(op, b, c)
    ensures SameSpine(op, a, c)
  {}

  lemma SameSpineReflexive(op: Op, a: Expr)
    ensures SameSpine(op, a, a)
  {}

  lemma ChildSlots(op: Op, t: Expr, p: Path)
    requires OnSpine(op, t, p) && HasSlot(t, p) && Rooted(op, At(t, p))
    ensures OnSpine(op, t, p + [L]) && HasSlot(t, p + [L]) && At(t, p + [L]) == At(t, p).left
    ensures OnSpine(op, t, p + [R]) && HasSlot(t, p + [R]) && At(t, p + [R]) == At(t, p).right
  {
    if p == [] {
      assert OnSpine(op, t.left, []) && OnSpine(op, t.right, []);
      assert [L][1..] == [] && [R][1..] == [];
    } else {
      ChildSlots(op, Child(t, p[0]), p[1..]);
      assert (p + [L])[1..] == p[1..] + [L] && (p + [R])[1..] == p[1..] + [R];
    }
  }

  /** Overwriting an operand slot. */
  lemma PutOperand(op: Op, t: Expr, p: Path, x: Expr)
    requires OnSpine(op, t, p) && HasSlot(t, p) && !Rooted(op, At(t, p)) && !Rooted(op, x)
    ensures SameSpine(op, t, Put(t, p, x))
    ensures Size(Put(t, p, x)) + Size(At(t, p)) == Size(t) + Size(x)
    ensures HasSlot(Put(t, p, x), p) && At(Put(t, p, x), p) == x
  {
    if p != [] {
      var l, r := t.left, t.right;
      PutOperand(op, Child(t, p[0]), p[1..], x);
      SameSpineReflexive(op, l);
      SameSpineReflexive(op, r);
    }
  }

  lemma PutOther(op: Op, t: Expr, p: Path, x: Expr, q: Path)
    requires OnSpine(op, t, p) && HasSlot(t, p) && !Rooted(op, At(t, p))
    requires OnSpine(op, t, q) && HasSlot(t, q) && !Rooted(op, At(t, q)) && p != q
    ensures HasSlot(Put(t, p, x), q) && At(Put(t, p, x), q) == At(t, q)
  {
    if p != [] && q != [] && p[0] == q[0] {
      assert p == [p[0]] + p[1..] && q == [q[0]] + q[1..];
      PutOther(op, Child(t, p[0]), p[1..], x, q[1..]);
    }
  }

  /** A slot below the root holds less than the root. */
  lemma SlotSmaller(t: Expr, p: Path)
    requires HasSlot(t, p)
    ensures Size(At(t, p)) <= Size(t)
    ensures p != [] ==> Size(At(t, p)) < Size(t)
  {}

  // expr_eliminate_dups1 and expr_eliminate_dups2

  /** A tree and what has been added to trans_count. */
  datatype Rewritten = Rewritten(tree: Expr, count: nat)

  /** What a pass over an operator tree keeps. */
  predicate Keeps(op: Op, t: Expr, r: Rewritten) {
    SameSpine(op, t, r.tree) && Size(r.tree) <= Size(t) && (r.count == 0 ==> r.tree == t)
  }

  /** The join of two operands: the first becomes the neutral constant. */
  function JoinSlots(op: Op, s: Rewritten, p1: Path, p2: Path): (r: Rewritten)
    requires OperandSlot(op, s.tree, p1) && OperandSlot(op, s.tree, p2) && p1 != p2
    ensures SameSpine(op, s.tree, r.tree) && Size(r.tree) <= Size(s.tree)
    ensures r.count >= s.count && (r.count == s.count ==> r == s)
  {
    var e1, e2 := At(s.tree, p1), At(s.tree, p2);
    match JoinOp(op, e1, e2)
    case None =>
      SameSpineReflexive(op, s.tree);
      s
    case Some(x) =>
      JoinShape(op, e1, e2);
      var u := Put(s.tree, p1, Const(Unit(op)));
      PutOperand(op, s.tree, p1, Const(Unit(op)));
      PutOther(op, s.tree, p1, Const(Unit(op)), p2);
      SameSpineSlot(op, s.tree, u, p2);
      PutOperand(op, u, p2, x);
      SameSpineTransitive(op, s.tree, u, Put(u, p2, x));
      Rewritten(Put(u, p2, x), s.count + 1)
  }

  /** expr_eliminate_dups1 on the slots p1 and p2 of the tree t. */
  function Dups1(op: Op, t: Expr, p1: Path, p2: Path): (r: Rewritten)
    requires OnSpine(op, t, p1) && OnSpine(op, t, p2)
    ensures Keeps(op, t, r)
    decreases Size(t), SpineSize(op, (SpineHasSlot(op, t, p1); At(t, p1))), SpineSize(op, (SpineHasSlot(op, t, p2); At(t, p2)))
  {
    SpineHasSlot(op, t, p1);
    SpineHasSlot(op, t, p2);
    SameSpineReflexive(op, t);
    var e1, e2 := At(t, p1), At(t, p2);
    if Rooted(op, e1) then
      ChildSlots(op, t, p1);
      var a := Dups1(op, t, p1 + [L], p2);
      SameSpineSlot(op, t, a.tree, p1 + [R]);
      SameSpineSlot(op, t, a.tree, p2);
      var b := Dups1(op, a.tree, p1 + [R], p2);
      SameSpineTransitive(op, t, a.tree, b.tree);
      Rewritten(b.tree, a.count + b.count)
    else if Rooted(op, e2) then
      ChildSlots(op, t, p2);
      var a := Dups1(op, t, p1, p2 + [L]);
      SameSpineSlot(op, t, a.tree, p1);
      SameSpineSlot(op, t, a.tree, p2 + [R]);
      var b := Dups1(op, a.tree, p1, p2 + [R]);
      SameSpineTransitive(op, t, a.tree, b.tree);
      Rewritten(b.tree, a.count + b.count)
    else if p1 == p2 then Rewritten(t, 0)
    else
      SlotSmaller(t, p1);
      var inner := if e1.Bin? then Dups1(e1.op, e1, [], []) else Rewritten(e1, 0);
      var s := Rewritten(Put(t, p1, inner.tree), inner.count);
      PutOperand(op, t, p1, inner.tree);
      PutOther(op, t, p1, inner.tree, p2);
      SameSpineSlot(op, t, s.tree, p1);
      SameSpineSlot(op, t, s.tree, p2);
      PutSame(t, p1);
      var r := JoinSlots(op, s, p1, p2);
      SameSpineTransitive(op, t, s.tree, r.tree);
      r
  }

  /** The condition under which expr_eliminate_dups2 drops the operand e1: every operand of
      its negation also occurs in e2. */
  predicate Contradicted(op: Op, e1: Expr, e2: Expr) {
    ExtractEqOp(op, TransformExpr(Not(e1)), e2).fst == Const(Unit(op))
  }

  /** The last part of expr_eliminate_dups2, for an operand e1 that is a node of the other
      operator, once duplicates inside it are gone. The slot p2 may enclose p1. */
  function DropContradicted(op: Op, s: Rewritten, p1: Path, p2: Path): (r: Rewritten)
    requires OperandSlot(op, s.tree, p1)
    requires OnSpine(op, s.tree, p2) && HasSlot(s.tree, p2)
    ensures SameSpine(op, s.tree, r.tree) && Size(r.tree) <= Size(s.tree)
    ensures r.count >= s.count && (r.count == s.count ==> r == s)
  {
    SameSpineReflexive(op, s.tree);
    if Contradicted(op, At(s.tree, p1), At(s.tree, p2)) then
      PutOperand(op, s.tree, p1, Const(Zero(op)));
      Rewritten(Put(s.tree, p1, Const(Zero(op))), s.count + 1)
    else s
  }

  /** The operand e1, which is inner once duplicates inside it are gone, meets e2. */
  function Meet(op: Op, s: Rewritten, p1: Path, p2: Path, inner: Rewritten): (r: Rewritten)
    requires OperandSlot(op, s.tree, p1)
    requires OnSpine(op, s.tree, p2) && HasSlot(s.tree, p2)
    requires !Rooted(op, inner.tree) && Size(inner.tree) <= Size(At(s.tree, p1))
    requires inner.count == 0 ==> inner.tree == At(s.tree, p1)
    ensures SameSpine(op, s.tree, r.tree) && Size(r.tree) <= Size(s.tree)
    ensures r.count >= s.count && (r.count == s.count ==> r == s)
  {
    var u := Rewritten(Put(s.tree, p1, inner.tree), s.count + inner.count);
    PutOperand(op, s.tree, p1, inner.tree);
    PutSame(s.tree, p1);
    SameSpineSlot(op, s.tree, u.tree, p1);
    SameSpineSlot(op, s.tree, u.tree, p2);
    var r := DropContradicted(op, u, p1, p2);
    SameSpineTransitive(op, s.tree, u.tree, r.tree);
    r
  }

  /** expr_eliminate_dups2 on the slots p1 and p2 of the tree t. After splitting e2 the
      source does not return, so e1 also meets every inner node of e2's spine. */
  function Dups2(op: Op, t: Expr, p1: Path, p2: Path): (r: Rewritten)
    requires OnSpine(op, t, p1) && OnSpine(op, t, p2)
    ensures Keeps(op, t, r)
    decreases Size(t), SpineSize(op, (SpineHasSlot(op, t, p1); At(t, p1))), SpineSize(op, (SpineHasSlot(op, t, p2); At(t, p2))), 1
  {
    SpineHasSlot(op, t, p1);
    SpineHasSlot(op, t, p2);
    SameSpineReflexive(op, t);
    if Rooted(op, At(t, p1)) then
      ChildSlots(op, t, p1);
      var a := Dups2(op, t, p1 + [L], p2);
      SameSpineSlot(op, t, a.tree, p1 + [R]);
      SameSpineSlot(op, t, a.tree, p2);
      var b := Dups2(op, a.tree, p1 + [R], p2);
      SameSpineTransitive(op, t, a.tree, b.tree);
      Rewritten(b.tree, a.count + b.count)
    else
      var s := SplitSecond(op, t, p1, p2);
      SameSpineSlot(op, t, s.tree, p1);
      SameSpineSlot(op, t, s.tree, p2);
      var e1 := At(s.tree, p1);
      if p1 == p2 || !e1.Bin? then s
      else
        SlotSmaller(s.tree, p1);
        var r := Meet(op, s, p1, p2, Dups2(e1.op, e1, [], []));
        SameSpineTransitive(op, t, s.tree, r.tree);
        r
  }

  /** The part of expr_eliminate_dups2 that recurses into e2 while e1 stays. */
  function SplitSecond(op: Op, t: Expr, p1: Path, p2: Path): (s: Rewritten)
    requires OnSpine(op, t, p1) && OnSpine(op, t, p2)
    requires HasSlot(t, p1) && !Rooted(op, At(t, p1))
    ensures Keeps(op, t, s)
    decreases Size(t), SpineSize(op, (SpineHasSlot(op, t, p1); At(t, p1))), SpineSize(op, (SpineHasSlot(op, t, p2); At(t, p2))), 0
  {
    SpineHasSlot(op, t, p2);
    SameSpineReflexive(op, t);
    if Rooted(op, At(t, p2)) then
      ChildSlots(op, t, p2);
      var a := Dups2(op, t, p1, p2 + [L]);
      SameSpineSlot(op, t, a.tree, p1);
      SameSpineSlot(op, t, a.tree, p2 + [R]);
      var b := Dups2(op, a.tree, p1, p2 + [R]);
      SameSpineTransitive(op, t, a.tree, b.tree);
      Rewritten(b.tree, a.count + b.count)
    else Rewritten(t, 0)
  }

  // expr_eliminate_dups

  /** One round of the loop in expr_eliminate_dups. */
  function Round(e: Expr): (r: Rewritten)
    ensures Size(r.tree) <= Size(e) && (r.count == 0 ==> r.tree == e)
  {
    if e.Bin? then
      var a := Dups1(e.op, e, [], []);
      var b := Dups2(e.op, a.tree, [], []);
      Rewritten(b.tree, a.count + b.count)
    else Rewritten(e, 0)
  }
}
