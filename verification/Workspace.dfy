/** The rewriting functions of expr.c in their own form: they overwrite what slots hold and
    count their rewrites in a global. Each is proved against its specification function. */
module Workspace {
  import opened Tristate
  import opened Expr
  import opened Slots
  import Equality
  import Join
  import Transform
  import Dups
  import DupsLaws
  import Nesting

  /** A struct expr **: a way into the tree that hangs from one pointer variable. */
  datatype Slot = Slot(cell: nat, path: Path) {
    function Below(d: Dir): Slot { Slot(cell, path + [d]) }
  }

  predicate InCells(cells: seq<Expr>, s: Slot) { s.cell < |cells| && HasSlot(cells[s.cell], s.path) }

  function Held(cells: seq<Expr>, s: Slot): Expr
    requires InCells(cells, s)
  {
    At(cells[s.cell], s.path)
  }

  function Stored(cells: seq<Expr>, s: Slot, x: Expr): seq<Expr>
    requires InCells(cells, s)
  {
    cells[s.cell := Put(cells[s.cell], s.path, x)]
  }

  lemma StoredHeld(cells: seq<Expr>, s: Slot, x: Expr)
    requires InCells(cells, s)
    ensures InCells(Stored(cells, s, x), s) && Held(Stored(cells, s, x), s) == x
    ensures Stored(cells, s, Held(cells, s)) == cells
    ensures forall y :: Stored(Stored(cells, s, x), s, y) == Stored(cells, s, y)
  {
    AtPut(cells[s.cell], s.path, x);
    PutSame(cells[s.cell], s.path);
    forall y ensures Stored(Stored(cells, s, x), s, y) == Stored(cells, s, y) {
      PutPut(cells[s.cell], s.path, x, y);
    }
  }

  /** The slot of a child, and what storing there does to its parent. */
  lemma StoredChild(cells: seq<Expr>, s: Slot, d: Dir)
    requires InCells(cells, s) && HasChild(Held(cells, s), d)
    ensures InCells(cells, s.Below(d)) && Held(cells, s.Below(d)) == Child(Held(cells, s), d)
    ensures forall x :: Stored(cells, s.Below(d), x) == Stored(cells, s, SetChild(Held(cells, s), d, x))
  {
    var e := Held(cells, s);
    assert [d][1..] == [] && HasSlot(Child(e, d), []);
    assert HasSlot(e, [d]) && At(e, [d]) == At(Child(e, d), []);
    AtPlus(cells[s.cell], s.path, [d]);
    forall x ensures Stored(cells, s.Below(d), x) == Stored(cells, s, SetChild(e, d, x)) {
      PutPlus(cells[s.cell], s.path, [d], x);
      assert Put(e, [d], x) == SetChild(e, d, x);
    }
  }

  /** Storing into slots of two different variables. */
  lemma StoredBoth(cells: seq<Expr>, s1: Slot, s2: Slot, x: Expr, y: Expr)
    requires InCells(cells, s1) && InCells(cells, s2) && s1.cell != s2.cell
    ensures InCells(Stored(cells, s1, x), s2)
    ensures var c := Stored(Stored(cells, s1, x), s2, y);
      && InCells(c, s1) && Held(c, s1) == x && InCells(c, s2) && Held(c, s2) == y
      && (forall x' :: Stored(c, s1, x') == Stored(Stored(cells, s1, x'), s2, y))
      && (forall y' :: Stored(c, s2, y') == Stored(Stored(cells, s1, x), s2, y'))
    ensures Stored(Stored(cells, s1, Held(cells, s1)), s2, Held(cells, s2)) == cells
  {
    StoredHeld(cells, s1, x);
    StoredHeld(cells, s2, y);
    var c1 := Stored(cells, s1, x);
    StoredHeld(c1, s2, y);
    var c := Stored(c1, s2, y);
    forall x' ensures Stored(c, s1, x') == Stored(Stored(cells, s1, x'), s2, y) {
      StoredHeld(cells, s1, x');
      assert Stored(c, s1, x')[s1.cell] == Stored(c1, s1, x')[s1.cell];
    }
  }

  lemma StoredBothTwice(cells: seq<Expr>, s1: Slot, s2: Slot, x: Expr, y: Expr, x': Expr, y': Expr)
    requires InCells(cells, s1) && InCells(cells, s2) && s1.cell != s2.cell
    ensures InCells(Stored(cells, s1, x), s2) && InCells(Stored(cells, s1, x'), s2)
    ensures var c := Stored(Stored(cells, s1, x), s2, y);
      && InCells(c, s1) && InCells(Stored(c, s1, x'), s2)
      && Stored(Stored(c, s1, x'), s2, y') == Stored(Stored(cells, s1, x'), s2, y')
  {
    StoredBoth(cells, s1, s2, x, y);
    StoredBoth(cells, s1, s2, x', y);
  }

  /** Slots below a given slot. */
  lemma StoredInside(cells: seq<Expr>, s: Slot, p: Path)
    requires InCells(cells, s) && HasSlot(Held(cells, s), p)
    ensures var s' := Slot(s.cell, s.path + p);
      && InCells(cells, s') && Held(cells, s') == At(Held(cells, s), p)
      && forall x :: Stored(cells, s', x) == Stored(cells, s, Put(Held(cells, s), p, x))
  {
    AtPlus(cells[s.cell], s.path, p);
    forall x ensures Stored(cells, Slot(s.cell, s.path + p), x) == Stored(cells, s, Put(Held(cells, s), p, x)) {
      PutPlus(cells[s.cell], s.path, p, x);
    }
  }

  lemma SlotBelow(base: Slot, p: Path)
    ensures forall d :: Slot(base.cell, base.path + p).Below(d) == Slot(base.cell, base.path + (p + [d]))
  {
    forall d ensures Slot(base.cell, base.path + p).Below(d) == Slot(base.cell, base.path + (p + [d])) {
      assert base.path + p + [d] == base.path + (p + [d]);
    }
  }

  class Workspace {
    /** The pointer variables in use. */
    var cells: seq<Expr>
    var transCount: nat

    constructor ()
      ensures cells == [] && transCount == 0
    {
      cells, transCount := [], 0;
    }

    function Load(s: Slot): Expr
      requires InCells(cells, s)
      reads this
    {
      Held(cells, s)
    }

    method Store(s: Slot, x: Expr)
      requires InCells(cells, s)
      modifies this`cells
      ensures cells == Stored(old(cells), s, x)
      ensures InCells(cells, s) && Load(s) == x
    {
      StoredHeld(cells, s, x);
      cells := cells[s.cell := Put(cells[s.cell], s.path, x)];
    }

    /** expr_eliminate_yn */
    method EliminateYn(s: Slot)
      requires InCells(cells, s)
      modifies this`cells
      ensures cells == Stored(old(cells), s, Equality.EliminateYn(old(Load(s))))
      decreases Load(s)
    {
      var e := Load(s);
      StoredHeld(cells, s, e);
      if e.Bin? {
        StoredChild(cells, s, L);
        EliminateYn(s.Below(L));
        StoredHeld(old(cells), s, Bin(e.op, Equality.EliminateYn(e.left), e.right));
        StoredChild(cells, s, R);
        EliminateYn(s.Below(R));
        StoredHeld(old(cells), s, Bin(e.op, Equality.EliminateYn(e.left), Equality.EliminateYn(e.right)));
        StoredChild(cells, s, L);
        StoredChild(cells, s, R);
        var l, r := Load(s.Below(L)), Load(s.Below(R));
        if l == Const(Zero(e.op)) {
          Store(s, Const(Zero(e.op)));
        } else if l == Const(Unit(e.op)) {
          Store(s, r);
        } else if r == Const(Zero(e.op)) {
          Store(s, Const(Zero(e.op)));
        } else if r == Const(Unit(e.op)) {
          Store(s, l);
        }
      }
    }

    /** expr_transform */
    method TransformExpr(s: Slot)
      requires InCells(cells, s)
      modifies this`cells
      ensures cells == Stored(old(cells), s, Transform.TransformExpr(old(Load(s))))
      decreases Transform.Weight(Load(s))
    {
      var e := Load(s);
      StoredHeld(cells, s, e);
      if e.Bin? {
        StoredChild(cells, s, L);
        TransformExpr(s.Below(L));
        StoredHeld(old(cells), s, Bin(e.op, Transform.TransformExpr(e.left), e.right));
        StoredChild(cells, s, R);
        TransformExpr(s.Below(R));
      } else if e.Cmp? {
        Store(s, Transform.ResolveCmp(e));
      } else if e.Not? {
        StoredChild(cells, s, L);
        TransformExpr(s.Below(L));
        var a := Transform.TransformExpr(e.arg);
        StoredHeld(old(cells), s, Not(a));
        StoredChild(cells, s, L);
        var arg := Load(s.Below(L));
        match arg
        case Not(x) =>
          StoredHeld(old(cells), s, x);
          Store(s, x);
          TransformExpr(s);
        case Cmp(rel, l, r) =>
          Store(s, Cmp(Flip(rel), l, r));
        case Bin(op, l, r) =>
          StoredHeld(old(cells), s, Transform.DeMorgan(op, l, r));
          Store(s, Transform.DeMorgan(op, l, r));
          TransformExpr(s);
        case Sym(x) =>
          if x.Constant? { Store(s, Const(Neg(x.val))); }
      }
    }

    /** expr_trans_bool */
    method TransBool(s: Slot)
      requires InCells(cells, s)
      modifies this`cells
      ensures cells == Stored(old(cells), s, Nesting.TransBool(old(Load(s))))
      decreases Load(s)
    {
      var e := Load(s);
      StoredHeld(cells, s, e);
      if e.Bin? || e.Not? {
        StoredChild(cells, s, L);
        TransBool(s.Below(L));
        StoredHeld(old(cells), s, SetChild(e, L, Nesting.TransBool(Child(e, L))));
      }
      if e.Bin? {
        StoredChild(cells, s, R);
        TransBool(s.Below(R));
      } else if e.Cmp? && e.rel == Ne && e.lsym.Type() == SymType.Tristate && e.rsym == Constant(NO) {
        Store(s, Sym(e.lsym));
      }
    }

    /** expr_eq: works on copies and restores trans_count. */
    method ExprEq(a: Expr, b: Expr) returns (equal: bool)
      modifies this
      ensures equal == Equality.ExprEq(a, b)
      ensures cells == old(cells) && transCount == old(transCount)
      decreases Size(a) + Size(b), 2
    {
      match (a, b)
      case (Cmp(ra, la, sa), Cmp(rb, lb, sb)) => equal := ra == rb && la == lb && sa == sb;
      case (Sym(x), Sym(y)) => equal := x == y;
      case (Not(x), Not(y)) => equal := ExprEq(x, y);
      case (Bin(opA, _, _), Bin(opB, _, _)) =>
        if opA != opB {
          equal := false;
        } else {
          var oldCount, n := transCount, |cells|;
          cells := cells + [a, b];
          EliminateEq(Slot(n, []), Slot(n + 1, []));
          equal := cells[n].Sym? && cells[n + 1].Sym? && cells[n].sym == cells[n + 1].sym;
          cells, transCount := cells[..n], oldCount;
        }
      case _ => equal := false;
    }

    /** expr_eliminate_eq on two slots of different variables */
    method EliminateEq(s1: Slot, s2: Slot)
      requires InCells(cells, s1) && InCells(cells, s2) && s1.cell != s2.cell
      modifies this
      ensures var p := Equality.EliminateEq(old(Load(s1)), old(Load(s2)));
        cells == Stored(Stored(old(cells), s1, p.fst), s2, p.snd) && transCount == old(transCount) + p.count
      decreases Size(Load(s1)) + Size(Load(s2)), 1
    {
      ghost var c0 := cells;
      var a, b := Load(s1), Load(s2);
      StoredBoth(c0, s1, s2, a, b);
      if a.Bin? {
        CancelEq(a.op, s1, s2);
        ghost var p := Equality.Cancel(a.op, a, b);
        StoredBoth(c0, s1, s2, p.fst, p.snd);
      }
      ghost var c1 := cells;
      var a', b' := Load(s1), Load(s2);
      if b'.Bin? && !(a'.Bin? && a'.op == b'.op) {
        CancelEq(b'.op, s1, s2);
        ghost var q := Equality.Cancel(b'.op, a', b');
        StoredBothTwice(c0, s1, s2, a', b', q.fst, q.snd);
        StoredBoth(c0, s1, s2, q.fst, q.snd);
      }
      var a'', b'' := Load(s1), Load(s2);
      EliminateYn(s1);
      StoredBoth(c0, s1, s2, Equality.EliminateYn(a''), b'');
      EliminateYn(s2);
      StoredBoth(c0, s1, s2, Equality.EliminateYn(a''), Equality.EliminateYn(b''));
    }

    /** __expr_eliminate_eq */
    method CancelEq(op: Op, s1: Slot, s2: Slot)
      requires InCells(cells, s1) && InCells(cells, s2) && s1.cell != s2.cell
      modifies this
      ensures var p := Equality.Cancel(op, old(Load(s1)), old(Load(s2)));
        cells == Stored(Stored(old(cells), s1, p.fst), s2, p.snd) && transCount == old(transCount) + p.count
      decreases Size(Load(s1)) + Size(Load(s2)), if Rooted(op, Load(s1)) || Rooted(op, Load(s2)) then 0 else 3
    {
      ghost var c0 := cells;
      var a, b := Load(s1), Load(s2);
      StoredBoth(c0, s1, s2, a, b);
      if Rooted(op, a) {
        StoredChild(cells, s1, L);
        CancelEq(op, s1.Below(L), s2);
        ghost var p := Equality.Cancel(op, a.left, b);
        StoredBoth(c0, s1, s2, Bin(op, p.fst, a.right), p.snd);
        StoredChild(cells, s1, R);
        CancelEq(op, s1.Below(R), s2);
        ghost var q := Equality.Cancel(op, a.right, p.snd);
        StoredBothTwice(c0, s1, s2, Bin(op, p.fst, a.right), p.snd, Bin(op, p.fst, q.fst), q.snd);
      } else if Rooted(op, b) {
        StoredChild(cells, s2, L);
        CancelEq(op, s1, s2.Below(L));
        ghost var p := Equality.Cancel(op, a, b.left);
        StoredBoth(c0, s1, s2, p.fst, b);
        StoredChild(Stored(c0, s1, p.fst), s2, L);
        StoredBoth(c0, s1, s2, p.fst, Bin(op, p.snd, b.right));
        StoredChild(cells, s2, R);
        ghost var c1 := cells;
        CancelEq(op, s1, s2.Below(R));
        ghost var q := Equality.Cancel(op, p.fst, b.right);
        StoredBoth(c0, s1, s2, q.fst, Bin(op, p.snd, b.right));
        StoredChild(Stored(c1, s1, q.fst), s2, R);
        StoredBothTwice(c0, s1, s2, p.fst, Bin(op, p.snd, b.right), q.fst, Bin(op, p.snd, q.snd));
      } else if a.Sym? && b.Sym? && a.sym == b.sym && a.sym.YesNoFlagged() {
      } else {
        var equal := ExprEq(a, b);
        if equal {
          transCount := transCount + 1;
          Store(s1, Const(Unit(op)));
          Store(s2, Const(Unit(op)));
        }
      }
    }

    /** expr_extract_eq; the collecting pointer *ep goes in and comes out by value. */
    method ExtractEq(op: Op, common: Option<Expr>, s1: Slot, s2: Slot) returns (common': Option<Expr>)
      requires InCells(cells, s1) && InCells(cells, s2) && s1.cell != s2.cell
      modifies this
      ensures var x := Dups.ExtractEq(op, common, old(Load(s1)), old(Load(s2)));
        common' == x.common && cells == Stored(Stored(old(cells), s1, x.fst), s2, x.snd)
      ensures transCount == old(transCount)
      decreases Size(Load(s1)) + Size(Load(s2))
    {
      ghost var c0 := cells;
      var a, b := Load(s1), Load(s2);
      StoredBoth(c0, s1, s2, a, b);
      if Rooted(op, a) {
        StoredChild(cells, s1, L);
        var mid := ExtractEq(op, common, s1.Below(L), s2);
        ghost var p := Dups.ExtractEq(op, common, a.left, b);
        StoredBoth(c0, s1, s2, Bin(op, p.fst, a.right), p.snd);
        StoredChild(cells, s1, R);
        common' := ExtractEq(op, mid, s1.Below(R), s2);
        ghost var q := Dups.ExtractEq(op, mid, a.right, p.snd);
        StoredBothTwice(c0, s1, s2, Bin(op, p.fst, a.right), p.snd, Bin(op, p.fst, q.fst), q.snd);
      } else if Rooted(op, b) {
        StoredChild(cells, s2, L);
        var mid := ExtractEq(op, common, s1, s2.Below(L));
        ghost var p := Dups.ExtractEq(op, common, a, b.left);
        StoredBoth(c0, s1, s2, p.fst, b);
        StoredChild(Stored(c0, s1, p.fst), s2, L);
        StoredBoth(c0, s1, s2, p.fst, Bin(op, p.snd, b.right));
        StoredChild(cells, s2, R);
        ghost var c1 := cells;
        common' := ExtractEq(op, mid, s1, s2.Below(R));
        ghost var q := Dups.ExtractEq(op, mid, p.fst, b.right);
        StoredBoth(c0, s1, s2, q.fst, Bin(op, p.snd, b.right));
        StoredChild(Stored(c1, s1, q.fst), s2, R);
        StoredBothTwice(c0, s1, s2, p.fst, Bin(op, p.snd, b.right), q.fst, Bin(op, p.snd, q.snd));
      } else {
        common' := common;
        var equal := ExprEq(a, b);
        if equal {
          common' := Some(if common.None? then a else Bin(op, common.value, a));
          Store(s1, Const(Unit(op)));
          Store(s2, Const(Unit(op)));
        }
      }
    }

    /** expr_eliminate_dups1 on two slots of one variable. They lie on the spine of the
        tree at base, at p1 and p2 from there; they may be equal or nested. */
    method Dups1(op: Op, s1: Slot, s2: Slot, ghost base: Slot, ghost p1: Path, ghost p2: Path)
      requires InCells(cells, base)
      requires Dups.OnSpine(op, Load(base), p1) && s1 == Slot(base.cell, base.path + p1)
      requires Dups.OnSpine(op, Load(base), p2) && s2 == Slot(base.cell, base.path + p2)
      modifies this
      ensures var r := Dups.Dups1(op, old(Load(base)), p1, p2);
        cells == Stored(old(cells), base, r.tree) && transCount == old(transCount) + r.count
      decreases Size(Load(base)),
        Dups.SpineSize(op, (Dups.SpineHasSlot(op, Load(base), p1); At(Load(base), p1))),
        Dups.SpineSize(op, (Dups.SpineHasSlot(op, Load(base), p2); At(Load(base), p2))), 1
    {
      ghost var c0, t := cells, Load(base);
      Dups.SpineHasSlot(op, t, p1);
      Dups.SpineHasSlot(op, t, p2);
      StoredInside(cells, base, p1);
      StoredInside(cells, base, p2);
      StoredHeld(cells, base, t);
      SlotBelow(base, p1);
      SlotBelow(base, p2);
      assert p1 == (base.path + p1)[|base.path|..] && p2 == (base.path + p2)[|base.path|..];
      var e1, e2 := Load(s1), Load(s2);
      if Rooted(op, e1) {
        Dups.ChildSlots(op, t, p1);
        Dups1(op, s1.Below(L), s2, base, p1 + [L], p2);
        ghost var a := Dups.Dups1(op, t, p1 + [L], p2);
        StoredHeld(c0, base, a.tree);
        Dups.SameSpineSlot(op, t, a.tree, p1 + [R]);
        Dups.SameSpineSlot(op, t, a.tree, p2);
        Dups1(op, s1.Below(R), s2, base, p1 + [R], p2);
      } else if Rooted(op, e2) {
        Dups.ChildSlots(op, t, p2);
        Dups1(op, s1, s2.Below(L), base, p1, p2 + [L]);
        ghost var a := Dups.Dups1(op, t, p1, p2 + [L]);
        StoredHeld(c0, base, a.tree);
        Dups.SameSpineSlot(op, t, a.tree, p1);
        Dups.SameSpineSlot(op, t, a.tree, p2 + [R]);
        Dups1(op, s1, s2.Below(R), base, p1, p2 + [R]);
      } else if s1 != s2 {
        JoinAfterInner(op, s1, s2, base, p1, p2);
      }
    }

    /** The last part of expr_eliminate_dups1, for two operands: first duplicates inside e1. */
    method JoinAfterInner(op: Op, s1: Slot, s2: Slot, ghost base: Slot, ghost p1: Path, ghost p2: Path)
      requires InCells(cells, base) && p1 != p2
      requires Dups.OperandSlot(op, Load(base), p1) && s1 == Slot(base.cell, base.path + p1)
      requires Dups.OperandSlot(op, Load(base), p2) && s2 == Slot(base.cell, base.path + p2)
      modifies this
      ensures var r := Dups.Dups1(op, old(Load(base)), p1, p2);
        cells == Stored(old(cells), base, r.tree) && transCount == old(transCount) + r.count
      decreases Size(Load(base)), 0, 0, 0
    {
      ghost var c0, t := cells, Load(base);
      StoredInside(cells, base, p1);
      StoredHeld(cells, base, t);
      Dups.SlotSmaller(t, p1);
      var e1 := Load(s1);
      if e1.Bin? {
        assert base.path + p1 + [] == base.path + p1;
        Dups1(e1.op, s1, s1, s1, [], []);
      }
      ghost var inner := if e1.Bin? then Dups.Dups1(e1.op, e1, [], []) else Dups.Rewritten(e1, 0);
      ghost var u := Put(t, p1, inner.tree);
      PutSame(t, p1);
      assert cells == Stored(c0, base, u);
      StoredHeld(c0, base, u);
      Dups.PutOperand(op, t, p1, inner.tree);
      Dups.PutOther(op, t, p1, inner.tree, p2);
      Dups.SameSpineSlot(op, t, u, p1);
      Dups.SameSpineSlot(op, t, u, p2);
      JoinOperands(op, s1, s2, base, p1, p2, inner.count);
      StoredHeld(c0, base, u);
    }

    /** The switch at the end of expr_eliminate_dups1; k has been counted before. */
    method JoinOperands(op: Op, s1: Slot, s2: Slot, ghost base: Slot, ghost p1: Path, ghost p2: Path, ghost k: nat)
      requires InCells(cells, base) && p1 != p2
      requires Dups.OperandSlot(op, Load(base), p1) && s1 == Slot(base.cell, base.path + p1)
      requires Dups.OperandSlot(op, Load(base), p2) && s2 == Slot(base.cell, base.path + p2)
      modifies this
      ensures var r := Dups.JoinSlots(op, Dups.Rewritten(old(Load(base)), k), p1, p2);
        cells == Stored(old(cells), base, r.tree) && k + transCount == old(transCount) + r.count
    {
      ghost var c0, u := cells, Load(base);
      StoredInside(cells, base, p1);
      StoredInside(cells, base, p2);
      StoredHeld(cells, base, u);
      var tmp := Join.JoinOp(op, Load(s1), Load(s2));
      if tmp.Some? {
        ghost var w := Put(u, p1, Const(Unit(op)));
        Store(s1, Const(Unit(op)));
        StoredHeld(c0, base, w);
        Dups.PutOperand(op, u, p1, Const(Unit(op)));
        Dups.SameSpineSlot(op, u, w, p2);
        StoredInside(cells, base, p2);
        Store(s2, tmp.value);
        transCount := transCount + 1;
      }
    }

    /** The test of expr_eliminate_dups2, on copies of e1 and e2: is nothing left of the
        negation of e1 once what it shares with e2 has been taken out? */
    method Contradicted(op: Op, e1: Expr, e2: Expr) returns (settled: bool)
      modifies this
      ensures settled == Dups.Contradicted(op, e1, e2)
      ensures cells == old(cells) && transCount == old(transCount)
    {
      var n := |cells|;
      cells := cells + [Not(e1), e2];
      ghost var c0 := cells;
      var tmp1, tmp2 := Slot(n, []), Slot(n + 1, []);
      TransformExpr(tmp1);
      ghost var a := Transform.TransformExpr(Not(e1));
      StoredBoth(c0, tmp1, tmp2, a, e2);
      var tmp := ExtractEq(op, None, tmp1, tmp2);
      ghost var x := Dups.ExtractEq(op, None, a, e2);
      StoredBothTwice(c0, tmp1, tmp2, a, e2, x.fst, x.snd);
      StoredBoth(c0, tmp1, tmp2, x.fst, x.snd);
      if tmp.Some? {
        EliminateYn(tmp1);
        EliminateYn(tmp2);
      }
      settled := cells[n] == Const(Unit(op));
      cells := cells[..n];
    }

    /** expr_eliminate_dups2, on slots as for Dups1. */
    method Dups2(op: Op, s1: Slot, s2: Slot, ghost base: Slot, ghost p1: Path, ghost p2: Path)
      requires InCells(cells, base)
      requires Dups.OnSpine(op, Load(base), p1) && s1 == Slot(base.cell, base.path + p1)
      requires Dups.OnSpine(op, Load(base), p2) && s2 == Slot(base.cell, base.path + p2)
      modifies this
      ensures var r := Dups.Dups2(op, old(Load(base)), p1, p2);
        cells == Stored(old(cells), base, r.tree) && transCount == old(transCount) + r.count
      decreases Size(Load(base)),
        Dups.SpineSize(op, (Dups.SpineHasSlot(op, Load(base), p1); At(Load(base), p1))),
        Dups.SpineSize(op, (Dups.SpineHasSlot(op, Load(base), p2); At(Load(base), p2))), 1
    {
      ghost var c0, t := cells, Load(base);
      Dups.SpineHasSlot(op, t, p1);
      Dups.SpineHasSlot(op, t, p2);
      StoredInside(cells, base, p1);
      StoredInside(cells, base, p2);
      StoredHeld(cells, base, t);
      SlotBelow(base, p1);
      SlotBelow(base, p2);
      if Rooted(op, Load(s1)) {
        Dups.ChildSlots(op, t, p1);
        Dups2(op, s1.Below(L), s2, base, p1 + [L], p2);
        ghost var a := Dups.Dups2(op, t, p1 + [L], p2);
        StoredHeld(c0, base, a.tree);
        Dups.SameSpineSlot(op, t, a.tree, p1 + [R]);
        Dups.SameSpineSlot(op, t, a.tree, p2);
        Dups2(op, s1.Below(R), s2, base, p1 + [R], p2);
        return;
      }
      SplitSecond(op, s1, s2, base, p1, p2);
      assert p1 == (base.path + p1)[|base.path|..] && p2 == (base.path + p2)[|base.path|..];
      ghost var s := Dups.SplitSecond(op, t, p1, p2);
      StoredHeld(c0, base, s.tree);
      Dups.SameSpineSlot(op, t, s.tree, p1);
      Dups.SameSpineSlot(op, t, s.tree, p2);
      StoredInside(cells, base, p1);
      if s1 != s2 && Load(s1).Bin? {
        MeetOperand(op, s1, s2, base, p1, p2, s.count);
      }
    }

    /** The cases of expr_eliminate_dups2: e1 meets e2 once duplicates inside it are gone;
        k has been counted before. */
    method MeetOperand(op: Op, s1: Slot, s2: Slot, ghost base: Slot, ghost p1: Path, ghost p2: Path, ghost k: nat)
      requires InCells(cells, base) && p1 != []
      requires Dups.OperandSlot(op, Load(base), p1) && s1 == Slot(base.cell, base.path + p1)
      requires Dups.OnSpine(op, Load(base), p2) && HasSlot(Load(base), p2) && s2 == Slot(base.cell, base.path + p2)
      requires At(Load(base), p1).Bin?
      modifies this
      ensures var t := old(Load(base));
        var r := Dups.Meet(op, Dups.Rewritten(t, k), p1, p2, Dups.Dups2(At(t, p1).op, At(t, p1), [], []));
        cells == Stored(old(cells), base, r.tree) && k + transCount == old(transCount) + r.count
      decreases Size(Load(base)), 0, 0, 0
    {
      ghost var c0, t := cells, Load(base);
      StoredInside(cells, base, p1);
      StoredHeld(cells, base, t);
      ghost var e1 := Load(s1);
      Dups.SlotSmaller(t, p1);
      assert base.path + p1 + [] == base.path + p1;
      Dups2(Load(s1).op, s1, s1, s1, [], []);
      ghost var inner := Dups.Dups2(e1.op, e1, [], []);
      ghost var u := Put(t, p1, inner.tree);
      StoredHeld(c0, base, u);
      Dups.PutOperand(op, t, p1, inner.tree);
      Dups.SameSpineSlot(op, t, u, p1);
      Dups.SameSpineSlot(op, t, u, p2);
      DropOperand(op, s1, s2, base, p1, p2, k + inner.count);
      StoredHeld(c0, base, u);
    }

    /** The branch of expr_eliminate_dups2 that recurses into e2 and, unlike the branch for
        e1, does not return. */
    method SplitSecond(op: Op, s1: Slot, s2: Slot, ghost base: Slot, ghost p1: Path, ghost p2: Path)
      requires InCells(cells, base)
      requires Dups.OperandSlot(op, Load(base), p1) && s1 == Slot(base.cell, base.path + p1)
      requires Dups.OnSpine(op, Load(base), p2) && s2 == Slot(base.cell, base.path + p2)
      modifies this
      ensures var r := Dups.SplitSecond(op, old(Load(base)), p1, p2);
        cells == Stored(old(cells), base, r.tree) && transCount == old(transCount) + r.count
      decreases Size(Load(base)),
        Dups.SpineSize(op, (Dups.SpineHasSlot(op, Load(base), p1); At(Load(base), p1))),
        Dups.SpineSize(op, (Dups.SpineHasSlot(op, Load(base), p2); At(Load(base), p2))), 0
    {
      ghost var c0, t := cells, Load(base);
      Dups.SpineHasSlot(op, t, p2);
      StoredInside(cells, base, p2);
      StoredHeld(cells, base, t);
      SlotBelow(base, p2);
      if Rooted(op, Load(s2)) {
        Dups.ChildSlots(op, t, p2);
        Dups2(op, s1, s2.Below(L), base, p1, p2 + [L]);
        ghost var a := Dups.Dups2(op, t, p1, p2 + [L]);
        StoredHeld(c0, base, a.tree);
        Dups.SameSpineSlot(op, t, a.tree, p1);
        Dups.SameSpineSlot(op, t, a.tree, p2 + [R]);
        Dups2(op, s1, s2.Below(R), base, p1, p2 + [R]);
      }
    }

    /** The rest of a case of expr_eliminate_dups2 once duplicates inside e1 are gone. */
    method DropOperand(op: Op, s1: Slot, s2: Slot, ghost base: Slot, ghost p1: Path, ghost p2: Path, ghost k: nat)
      requires InCells(cells, base)
      requires Dups.OperandSlot(op, Load(base), p1) && s1 == Slot(base.cell, base.path + p1)
      requires Dups.OnSpine(op, Load(base), p2) && HasSlot(Load(base), p2) && s2 == Slot(base.cell, base.path + p2)
      modifies this
      ensures var r := Dups.DropContradicted(op, Dups.Rewritten(old(Load(base)), k), p1, p2);
        cells == Stored(old(cells), base, r.tree) && k + transCount == old(transCount) + r.count
    {
      StoredInside(cells, base, p1);
      StoredInside(cells, base, p2);
      StoredHeld(cells, base, Load(base));
      var settled := Contradicted(op, Load(s1), Load(s2));
      if settled {
        Store(s1, Const(Zero(op)));
        transCount := transCount + 1;
      }
    }

    /** expr_eliminate_dups */
    method EliminateDups(e: Option<Expr>) returns (r: Option<Expr>)
      modifies this
      ensures r == Nesting.Map(DupsLaws.EliminateDups, e)
      ensures cells == old(cells) && transCount == old(transCount)
    {
      if e.None? {
        return None;
      }
      var oldCount, n := transCount, |cells|;
      var slot := Slot(n, []);
      cells := cells + [e.value];
      while true
        invariant |cells| == n + 1 && cells[..n] == old(cells)
        invariant DupsLaws.EliminateDups(cells[n]) == DupsLaws.EliminateDups(e.value)
        decreases Size(cells[n])
      {
        ghost var t := cells[n];
        transCount := 0;
        if cells[n].Bin? {
          Dups1(cells[n].op, slot, slot, slot, [], []);
          Dups2(cells[n].op, slot, slot, slot, [], []);
        }
        ghost var round := Dups.Round(t);
        assert cells[n] == round.tree && transCount == round.count;
        DupsLaws.RoundProgress(t);
        if transCount == 0 {
          break;
        }
        EliminateYn(slot);
      }
      r := Some(cells[n]);
      cells, transCount := cells[..n], oldCount;
    }
  }
}
