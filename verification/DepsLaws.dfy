/** What the recursion check takes for a dependency, told by where symbols occur, and what it
    ignores. */
module DepsLaws {
  import opened Expr
  import opened Configuration
  import opened CheckDeps

  predicate Names(s: Symbol, id: nat) { s.Config? && s.id == id }

  /** The symbol occurs in the expression. */
  predicate Occurs(e: Expr, id: nat) {
    match e
    case Sym(s) => Names(s, id)
    case Not(a) => Occurs(a, id)
    case Cmp(_, l, r) => Names(l, id) || Names(r, id)
    case Bin(_, l, r) => Occurs(l, id) || Occurs(r, id)
  }

  predicate OccursOpt(e: Option<Expr>, id: nat) { e.Some? && Occurs(e.value, id) }

  lemma {:induction false} OccursIff(e: Expr, id: nat)
    ensures id in ExprIds(e) <==> Occurs(e, id)
  {
    match e
    case Sym(_) =>
    case Cmp(_, _, _) =>
    case Not(a) => OccursIff(a, id);
    case Bin(_, l, r) =>
      OccursIff(l, id);
      OccursIff(r, id);
  }

  lemma OccursOptIff(e: Option<Expr>, id: nat)
    ensures id in OptIds(e) <==> OccursOpt(e, id)
  {
    if e.Some? { OccursIff(e.value, id); }
  }

  /** A prompt, default or range needs what its visibility is made of; a default, except that
      of a choice, also what its value is made of. Selects and choice lists need nothing. */
  predicate Needs(p: Property, isChoice: bool, id: nat) {
    (p.kind in {Prompt, Default, Range} && OccursOpt(p.visible, id)) ||
    (p.kind == Default && !isChoice && OccursOpt(p.expr, id))
  }

  lemma {:induction false} PropsNeed(props: seq<Property>, isChoice: bool, id: nat)
    ensures id in PropsIds(props, isChoice) <==> exists p :: p in props && Needs(p, isChoice, id)
  {
    if props != [] {
      OccursOptIff(props[0].visible, id);
      OccursOptIff(props[0].expr, id);
      PropsNeed(props[1..], isChoice, id);
      assert id in PropIds(props[0], isChoice) <==> Needs(props[0], isChoice, id);
      if p :| p in props && Needs(p, isChoice, id) {
        if p != props[0] { assert p in props[1..]; }
      }
    }
  }

  /** The dependency graph: b occurs in the reverse dependency of a, or a property needs it. */
  lemma EdgeIff(cfg: seq<Definition>, a: nat, b: nat)
    ensures Edge(cfg, a, b) <==>
      a < |cfg| && (OccursOpt(cfg[a].revDep, b) || exists p :: p in cfg[a].props && Needs(p, cfg[a].isChoice, b))
  {
    if a < |cfg| {
      OccursOptIff(cfg[a].revDep, b);
      PropsNeed(cfg[a].props, cfg[a].isChoice, b);
    }
  }

  // What does not matter.

  lemma SameCycles(cfg: seq<Definition>, cfg': seq<Definition>, a: nat)
    requires |cfg| == |cfg'| && forall i | 0 <= i < |cfg| :: Deps(cfg[i]) == Deps(cfg'[i])
    ensures OnCycle(cfg, a) <==> OnCycle(cfg', a)
  {
    forall i, j ensures Edge(cfg, i, j) <==> Edge(cfg', i, j) {}
    if OnCycle(cfg, a) {
      var p :| From(cfg, p, a, a) && |p| > 1;
      assert From(cfg', p, a, a);
    }
    if OnCycle(cfg', a) {
      var p :| From(cfg', p, a, a) && |p| > 1;
      assert From(cfg, p, a, a);
    }
  }

  /** The properties other than selects and choice lists */
  function Kept(props: seq<Property>): seq<Property> {
    if props == [] then []
    else (if props[0].kind == Select || props[0].kind == Choice then [] else [props[0]]) + Kept(props[1..])
  }

  function WithoutSelects(cfg: seq<Definition>): seq<Definition> {
    seq(|cfg|, i requires 0 <= i < |cfg| => cfg[i].(props := Kept(cfg[i].props)))
  }

  lemma {:induction false} KeptNeeds(props: seq<Property>, isChoice: bool, id: nat)
    ensures (exists p :: p in Kept(props) && Needs(p, isChoice, id)) <==> (exists p :: p in props && Needs(p, isChoice, id))
  {
    if props != [] {
      KeptNeeds(props[1..], isChoice, id);
      assert Kept(props) == (if props[0].kind == Select || props[0].kind == Choice then [] else [props[0]]) + Kept(props[1..]);
      assert forall p | p in props :: p == props[0] || p in props[1..];
      if p :| p in props && Needs(p, isChoice, id) {
        if p == props[0] { assert p in Kept(props); } else { assert p in props[1..]; }
      }
      if p :| p in Kept(props) && Needs(p, isChoice, id) {
        assert p == props[0] || p in Kept(props[1..]);
      }
    }
  }

  /** Selects and choice lists play no part: without them the same recursions are reported. */
  lemma SelectsIgnored(cfg: seq<Definition>, a: nat)
    ensures OnCycle(cfg, a) <==> OnCycle(WithoutSelects(cfg), a)
  {
    var cfg' := WithoutSelects(cfg);
    forall i | 0 <= i < |cfg| ensures Deps(cfg[i]) == Deps(cfg'[i]) {
      var d := cfg[i];
      forall id: nat ensures id in PropsIds(d.props, d.isChoice) <==> id in PropsIds(Kept(d.props), d.isChoice) {
        PropsNeed(d.props, d.isChoice, id);
        PropsNeed(Kept(d.props), d.isChoice, id);
        KeptNeeds(d.props, d.isChoice, id);
      }
    }
    SameCycles(cfg, cfg', a);
  }

  /** The symbols differ at most in the values that only select within a choice. */
  predicate SameButDefaults(d: Definition, d': Definition) {
    && d.revDep == d'.revDep && d.isChoice == d'.isChoice && |d.props| == |d'.props|
    && forall i | 0 <= i < |d.props| ::
      && d.props[i].kind == d'.props[i].kind && d.props[i].visible == d'.props[i].visible
      && (d.props[i].expr == d'.props[i].expr || d.isChoice || d.props[i].kind != Default)
  }

  lemma {:induction false} SameNeeds(props: seq<Property>, props': seq<Property>, isChoice: bool)
    requires |props| == |props'| && forall i | 0 <= i < |props| ::
      && props[i].kind == props'[i].kind && props[i].visible == props'[i].visible
      && (props[i].expr == props'[i].expr || isChoice || props[i].kind != Default)
    ensures PropsIds(props, isChoice) == PropsIds(props', isChoice)
    decreases |props|
  {
    if props != [] {
      assert forall i | 0 <= i < |props| - 1 :: props[1..][i] == props[i + 1] && props'[1..][i] == props'[i + 1];
      SameNeeds(props[1..], props'[1..], isChoice);
    }
  }

  /** Nor do the default values of a choice, or what a property other than a default has for a
      value. */
  lemma ChoiceDefaultsIgnored(cfg: seq<Definition>, cfg': seq<Definition>, a: nat)
    requires |cfg| == |cfg'| && forall i | 0 <= i < |cfg| :: SameButDefaults(cfg[i], cfg'[i])
    ensures OnCycle(cfg, a) <==> OnCycle(cfg', a)
  {
    forall i | 0 <= i < |cfg| ensures Deps(cfg[i]) == Deps(cfg'[i]) {
      assert SameButDefaults(cfg[i], cfg'[i]);
      SameNeeds(cfg[i].props, cfg'[i].props, cfg[i].isChoice);
    }
    SameCycles(cfg, cfg', a);
  }
}
