/** Config symbols with their properties, and the value each symbol has by definition. */
module Configuration {
  import opened Tristate
  import opened Expr

  datatype PropKind = Prompt | Default | Range | Select | Choice

  /** struct property; expr is the default value of a Default. */
  datatype Property = Property(kind: PropKind, visible: Option<Expr>, expr: Option<Expr>)

  /** The part of struct symbol that parsing fixes. A symbol's id is its index. */
  datatype Definition =
    Definition(name: string, kind: SymType, isChoice: bool, props: seq<Property>, revDep: Option<Expr>)

  /** What the user set: struct symbol's user value; isSet is the negation of SYMBOL_NEW. */
  datatype Setting = Setting(tri: Tri, text: string, isSet: bool)

  function ExprIds(e: Expr): set<nat> {
    match e
    case Sym(s) => SymbolIds(s)
    case Not(a) => ExprIds(a)
    case Cmp(_, l, r) => SymbolIds(l) + SymbolIds(r)
    case Bin(_, l, r) => ExprIds(l) + ExprIds(r)
  }

  function SymbolIds(s: Symbol): set<nat> { if s.Config? then {s.id} else {} }

  function OptIds(e: Option<Expr>): set<nat> { if e.None? then {} else ExprIds(e.value) }

  /** What sym_check_deps follows from one property; the default of a choice is a symbol to
      select, not a value. */
  function PropIds(p: Property, isChoice: bool): set<nat> {
    if p.kind == Choice || p.kind == Select then {}
    else OptIds(p.visible) + (if p.kind == Default && !isChoice then OptIds(p.expr) else {})
  }

  function PropsIds(props: seq<Property>, isChoice: bool): set<nat> {
    if props == [] then {} else PropIds(props[0], isChoice) + PropsIds(props[1..], isChoice)
  }

  /** The symbols a symbol depends on. */
  function Deps(d: Definition): set<nat> { OptIds(d.revDep) + PropsIds(d.props, d.isChoice) }

  lemma PropsIdsAt(props: seq<Property>, isChoice: bool, i: nat)
    requires i < |props|
    ensures PropIds(props[i], isChoice) <= PropsIds(props, isChoice)
  {
    if i > 0 { PropsIdsAt(props[1..], isChoice, i - 1); }
  }

  /** The expression names config symbols with the type they are defined with. */
  predicate Resolved(cfg: seq<Definition>, e: Expr) {
    match e
    case Sym(s) => ResolvedSymbol(cfg, s)
    case Not(a) => Resolved(cfg, a)
    case Cmp(_, l, r) => ResolvedSymbol(cfg, l) && ResolvedSymbol(cfg, r)
    case Bin(_, l, r) => Resolved(cfg, l) && Resolved(cfg, r)
  }

  predicate ResolvedSymbol(cfg: seq<Definition>, s: Symbol) {
    s.Config? ==> s.id < |cfg| && cfg[s.id].kind == s.kind
  }

  predicate ResolvedOpt(cfg: seq<Definition>, e: Option<Expr>) { e.Some? ==> Resolved(cfg, e.value) }

  predicate WellFormed(cfg: seq<Definition>) {
    forall i | 0 <= i < |cfg| ::
      ResolvedOpt(cfg, cfg[i].revDep) &&
      forall p | p in cfg[i].props ::
        ResolvedOpt(cfg, p.visible) && ResolvedOpt(cfg, p.expr) && (p.kind == Default ==> p.expr.Some?)
  }

  predicate NoChoice(cfg: seq<Definition>) { forall d | d in cfg :: !d.isChoice }

  predicate RankBelow(rank: seq<nat>, id: nat, bound: nat) { id < |rank| && rank[id] < bound }

  /** rank shows that no symbol depends on itself. */
  ghost predicate Ranked(cfg: seq<Definition>, rank: seq<nat>) {
    |rank| == |cfg| &&
    forall i, d | 0 <= i < |cfg| && d in Deps(cfg[i]) :: RankBelow(rank, d, rank[i])
  }

  predicate IsLogical(kind: SymType) { kind == Boolean || kind == SymType.Tristate }

  predicate IsTextual(kind: SymType) { kind == Int || kind == Hex || kind == Text }

  /** sym_get_type of a symbol that is no choice value */
  function TypeUnder(modules: Tri, kind: SymType): SymType {
    if kind == SymType.Tristate && modules == NO then Boolean else kind
  }

  /** curr.val of a calculated symbol: for boolean and tristate symbols it stays "n". */
  function RawText(s: Symbol, x: Value): string {
    if s.Config? && IsLogical(s.kind) then "n" else x.text
  }

  /** A configuration without choices, with the value of MODULES fixed. */
  datatype Setup = Setup(cfg: seq<Definition>, rank: seq<nat>, modules: Tri, user: seq<Setting>) {

    ghost predicate Valid() {
      WellFormed(cfg) && NoChoice(cfg) && Ranked(cfg, rank) && |user| == |cfg|
    }

    /** The valuation as far as symbols below a rank are concerned. */
    ghost function Below(bound: nat): Valuation
      requires Valid()
      decreases bound, 0
    {
      (s: Symbol) =>
        match s
        case Constant(c) => Value(c, Letter(c))
        case Quoted(text) => Value(NO, text)
        case Config(id, kind) =>
          if id < |cfg| && cfg[id].kind == kind && rank[id] < bound then ValueOf(id)
          else Value(NO, Letter(NO))
    }

    /** The largest visibility of a prompt among the first n properties. */
    ghost function PromptMax(props: seq<Property>, v: Valuation): Tri {
      if props == [] then NO
      else
        var rest := PromptMax(props[..|props| - 1], v);
        var p := props[|props| - 1];
        if p.kind == Prompt then Max(rest, EvalOpt(p.visible, v)) else rest
    }

    /** sym->visible */
    ghost function VisibleOf(id: nat): Tri
      requires Valid() && id < |cfg|
      decreases rank[id], 1
    {
      var tri := PromptMax(cfg[id].props, Below(rank[id]));
      if tri == MOD && (cfg[id].kind != SymType.Tristate || modules == NO) then YES else tri
    }

    /** sym->rev_dep.tri */
    ghost function RevDepOf(id: nat): Tri
      requires Valid() && id < |cfg|
      decreases rank[id], 1
    {
      var tri := if cfg[id].revDep.None? then NO else Eval(cfg[id].revDep.value, Below(rank[id]));
      if tri == MOD && TypeUnder(modules, cfg[id].kind) == Boolean then YES else tri
    }

    /** sym_get_default_prop: the value expression of the first default that is visible. */
    ghost function DefaultAmong(props: seq<Property>, v: Valuation): Option<Expr> {
      if props == [] then None
      else if props[0].kind == Default && EvalOpt(props[0].visible, v) != NO then props[0].expr
      else DefaultAmong(props[1..], v)
    }

    ghost function DefaultOf(id: nat): Option<Expr>
      requires Valid() && id < |cfg|
      decreases rank[id], 1
    {
      DefaultAmong(cfg[id].props, Below(rank[id]))
    }

    /** The tristate value of a boolean or tristate symbol. */
    ghost function TriOf(id: nat): Tri
      requires Valid() && id < |cfg|
      decreases rank[id], 2
    {
      var default := DefaultOf(id);
      var byDefault := if default.Some? then Eval(default.value, Below(rank[id])) else NO;
      var tri :=
        if Max(VisibleOf(id), RevDepOf(id)) != NO
        then Max(Min(if user[id].isSet then user[id].tri else byDefault, VisibleOf(id)), RevDepOf(id))
        else byDefault;
      if tri == MOD && TypeUnder(modules, cfg[id].kind) == Boolean then YES else tri
    }

    /** The string of a string, int or hex symbol. */
    ghost function TextOf(id: nat): string
      requires Valid() && id < |cfg|
      decreases rank[id], 2
    {
      var default := DefaultOf(id);
      if VisibleOf(id) != NO && user[id].isSet then user[id].text
      else if default.Some? && default.value.Sym? then RawText(default.value.sym, Below(rank[id])(default.value.sym))
      else ""
    }

    /** The value sym_calc_value has to find, with the string sym_get_string_value gives. */
    ghost function ValueOf(id: nat): Value
      requires Valid() && id < |cfg|
      decreases rank[id], 3
    {
      if IsLogical(cfg[id].kind) then Value(TriOf(id), Letter(TriOf(id)))
      else Value(NO, if IsTextual(cfg[id].kind) then TextOf(id) else cfg[id].name)
    }

    /** All values at once. */
    ghost function Final(): Valuation
      requires Valid()
    {
      (s: Symbol) =>
        match s
        case Constant(c) => Value(c, Letter(c))
        case Quoted(text) => Value(NO, text)
        case Config(id, kind) =>
          if id < |cfg| && cfg[id].kind == kind then ValueOf(id) else Value(NO, Letter(NO))
    }
  }

  ghost predicate AgreeOn(e: Expr, v: Valuation, w: Valuation) {
    match e
    case Sym(s) => v(s) == w(s)
    case Not(a) => AgreeOn(a, v, w)
    case Cmp(_, l, r) => v(l) == w(l) && v(r) == w(r)
    case Bin(_, l, r) => AgreeOn(l, v, w) && AgreeOn(r, v, w)
  }

  lemma {:induction false} EvalAgrees(e: Expr, v: Valuation, w: Valuation)
    requires AgreeOn(e, v, w)
    ensures Eval(e, v) == Eval(e, w)
  {
    match e
    case Sym(_) =>
    case Cmp(_, _, _) =>
    case Not(a) => EvalAgrees(a, v, w);
    case Bin(_, l, r) =>
      EvalAgrees(l, v, w);
      EvalAgrees(r, v, w);
  }
}
