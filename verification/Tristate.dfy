/** The three values n < m < y of a dependency, the operators on them, and the
    information order in which m is the undetermined value. */
module Tristate {

  type Tri = x: int | 0 <= x <= 2

  const NO: Tri := 0
  const MOD: Tri := 1
  const YES: Tri := 2

  function Min(a: Tri, b: Tri): Tri { if a < b then a else b }

  function Max(a: Tri, b: Tri): Tri { if a > b then a else b }

  function Neg(a: Tri): Tri { 2 - a }

  /** The binary node types E_AND and E_OR. */
  datatype Op = And | Or

  function Apply(op: Op, a: Tri, b: Tri): Tri {
    match op
    case And => Min(a, b)
    case Or => Max(a, b)
  }

  /** The neutral constant of an operator: y for AND, n for OR. */
  function Unit(op: Op): Tri { if op == And then YES else NO }

  /** The absorbing constant of an operator: n for AND, y for OR. */
  function Zero(op: Op): Tri { Neg(Unit(op)) }

  function Dual(op: Op): Op { if op == And then Or else And }

  /** x' carries at least the information of x: only an m may change. */
  predicate Refines(x: Tri, x': Tri) { x == MOD || x == x' }

  /** Restriction of a value to an interval; every composition of "min with a
      constant" and "max with a constant" has this form. */
  function Clamp(lo: Tri, hi: Tri, x: Tri): Tri { Max(lo, Min(hi, x)) }

  /** A strip of an AND context (value c) around a clamp is again a clamp. */
  lemma ClampUnder(op: Op, c: Tri, lo: Tri, hi: Tri) returns (lo': Tri, hi': Tri)
    requires lo <= hi
    ensures lo' <= hi'
    ensures forall x: Tri :: Apply(op, c, Clamp(lo, hi, x)) == Clamp(lo', hi', x)
  {
    lo', hi' := Apply(op, c, lo), Apply(op, c, hi);
  }

  lemma RefinesUnder(op: Op, c: Tri, x: Tri, x': Tri)
    requires Refines(x, x')
    ensures Refines(Apply(op, c, x), Apply(op, c, x'))
  {}
}
