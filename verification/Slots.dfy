/** Slots: what a "struct expr **" points at, as a path into a tree. Two slots of one tree
    may coincide, and one may lie inside what the other holds. */
module Slots {
  import opened Expr

  datatype Dir = L | R

  /** The way from the root to the pointer the slot holds. */
  type Path = seq<Dir>

  predicate HasChild(t: Expr, d: Dir) { t.Bin? || (t.Not? && d == L) }

  function Child(t: Expr, d: Dir): Expr
    requires HasChild(t, d)
  {
    if t.Not? then t.arg else if d == L then t.left else t.right
  }

  function SetChild(t: Expr, d: Dir, x: Expr): Expr
    requires HasChild(t, d)
  {
    if t.Not? then Not(x) else if d == L then Bin(t.op, x, t.right) else Bin(t.op, t.left, x)
  }

  predicate HasSlot(t: Expr, p: Path) {
    p == [] || (HasChild(t, p[0]) && HasSlot(Child(t, p[0]), p[1..]))
  }

  /** *ep */
  function At(t: Expr, p: Path): Expr
    requires HasSlot(t, p)
  {
    if p == [] then t else At(Child(t, p[0]), p[1..])
  }

  /** *ep = x */
  function Put(t: Expr, p: Path, x: Expr): Expr
    requires HasSlot(t, p)
  {
    if p == [] then x else SetChild(t, p[0], Put(Child(t, p[0]), p[1..], x))
  }

  lemma PutSame(t: Expr, p: Path)
    requires HasSlot(t, p)
    ensures Put(t, p, At(t, p)) == t
  {}

  /** Slots inside a slot. */
  lemma {:induction false} AtPlus(t: Expr, p: Path, q: Path)
    requires HasSlot(t, p) && HasSlot(At(t, p), q)
    ensures HasSlot(t, p + q)
    ensures At(t, p + q) == At(At(t, p), q)
  {
    if p == [] {
      assert p + q == q;
    } else {
      AtPlus(Child(t, p[0]), p[1..], q);
      assert (p + q)[1..] == p[1..] + q && (p + q)[0] == p[0];
    }
  }

  lemma {:induction false} PutPlus(t: Expr, p: Path, q: Path, x: Expr)
    requires HasSlot(t, p) && HasSlot(At(t, p), q)
    ensures HasSlot(t, p + q)
    ensures Put(t, p + q, x) == Put(t, p, Put(At(t, p), q, x))
  {
    AtPlus(t, p, q);
    if p == [] {
      assert p + q == q;
    } else {
      PutPlus(Child(t, p[0]), p[1..], q, x);
      assert (p + q)[1..] == p[1..] + q && (p + q)[0] == p[0];
    }
  }

  lemma AtPut(t: Expr, p: Path, x: Expr)
    requires HasSlot(t, p)
    ensures HasSlot(Put(t, p, x), p) && At(Put(t, p, x), p) == x
  {}

  lemma {:induction false} PutPut(t: Expr, p: Path, x: Expr, y: Expr)
    requires HasSlot(t, p)
    ensures HasSlot(Put(t, p, x), p) && Put(Put(t, p, x), p, y) == Put(t, p, y)
  {
    AtPut(t, p, x);
    if p != [] { PutPut(Child(t, p[0]), p[1..], x, y); }
  }
}
