/** sym_calc_value and its helpers: evaluation that caches values in the symbols. */
module Evaluator {
  import opened Tristate
  import opened Expr
  import opened Configuration

  /** The calculated part of struct symbol: SYMBOL_VALID, curr, visible and rev_dep.tri. */
  datatype Cached = Cached(valid: bool, tri: Tri, text: string, visible: Tri, revDep: Tri)

  /** All symbols of an expression rank below the bound. */
  predicate RanksBelow(s: Setup, e: Expr, bound: nat) {
    forall id | id in ExprIds(e) :: RankBelow(s.rank, id, bound)
  }

  lemma {:induction false} BelowAgrees(s: Setup, e: Expr, bound: nat)
    requires s.Valid() && Resolved(s.cfg, e) && RanksBelow(s, e, bound)
    ensures Eval(e, s.Below(bound)) == Eval(e, s.Final())
    decreases e
  {
    match e
    case Sym(x) => assert x.Config? ==> x.id in ExprIds(e);
    case Cmp(_, l, r) =>
      assert l.Config? ==> l.id in ExprIds(e);
      assert r.Config? ==> r.id in ExprIds(e);
    case Not(a) => BelowAgrees(s, a, bound);
    case Bin(_, l, r) =>
      BelowAgrees(s, l, bound);
      BelowAgrees(s, r, bound);
  }

  /** The evaluator only ever produces typed valuations, so every law about typed
      valuations speaks about calculated configurations. */
  lemma FinalTyped(s: Setup)
    requires s.Valid()
    ensures Typed(s.Final())
  {
    forall x: Symbol ensures TypedAt(x, s.Final()(x)) {
      if x.Config? && x.id < |s.cfg| && s.cfg[x.id].kind == x.kind {
        assert s.Final()(x) == s.ValueOf(x.id);
        assert x.kind == Boolean ==> s.TriOf(x.id) != MOD;
      }
    }
  }

  lemma DepsOfDefinition(s: Setup, id: nat)
    requires s.Valid() && id < |s.cfg|
    ensures s.cfg[id].revDep.Some? ==> RanksBelow(s, s.cfg[id].revDep.value, s.rank[id])
    ensures forall i | 0 <= i < |s.cfg[id].props| :: PropBelow(s, s.cfg[id].props[i], s.rank[id])
  {
    forall i | 0 <= i < |s.cfg[id].props| ensures PropBelow(s, s.cfg[id].props[i], s.rank[id]) {
      var p := s.cfg[id].props[i];
      PropsIdsAt(s.cfg[id].props, false, i);
      assert s.cfg[id] in s.cfg && !s.cfg[id].isChoice;
      assert p in s.cfg[id].props && PropIds(p, false) <= Deps(s.cfg[id]);
      var deps := Deps(s.cfg[id]);
      assert forall d | d in deps :: RankBelow(s.rank, d, s.rank[id]);
      if p.kind == Prompt || p.kind == Default {
        assert forall d | d in OptIds(p.visible) :: d in deps;
      }
      if p.kind == Default {
        assert forall d | d in OptIds(p.expr) :: d in deps;
      }
    }
  }

  predicate OptBelow(s: Setup, e: Option<Expr>, bound: nat) {
    e.Some? ==> Resolved(s.cfg, e.value) && RanksBelow(s, e.value, bound)
  }

  predicate PropBelow(s: Setup, p: Property, bound: nat) {
    (p.kind == Prompt || p.kind == Default ==> OptBelow(s, p.visible, bound)) &&
    (p.kind == Default ==> p.expr.Some? && OptBelow(s, p.expr, bound))
  }

  lemma DefaultAmongSuffix(s: Setup, props: seq<Property>, i: nat, v: Valuation)
    requires i < |props|
    ensures s.DefaultAmong(props[i..], v) ==
      if props[i].kind == Default && EvalOpt(props[i].visible, v) != NO then props[i].expr
      else s.DefaultAmong(props[i + 1..], v)
  {}

  /** The cached fields of a symbol are what they are by definition. */
  ghost predicate Holds(s: Setup, id: nat, c: Cached)
    requires s.Valid() && id < |s.cfg|
  {
    if IsLogical(s.cfg[id].kind) then
      c.text == "n" && c.tri == s.TriOf(id) && c.visible == s.VisibleOf(id) && c.revDep == s.RevDepOf(id)
    else if IsTextual(s.cfg[id].kind) then
      c.text == s.TextOf(id) && c.tri == NO && c.visible == s.VisibleOf(id) && c.revDep == s.RevDepOf(id)
    else c.text == s.cfg[id].name && c.tri == NO
  }

  // Changing a setting.

  /** The two setups define the same value for a symbol. */
  ghost predicate SameAt(s: Setup, s': Setup, id: nat)
    requires s.Valid() && s'.Valid() && s.cfg == s'.cfg && id < |s.cfg|
  {
    s.ValueOf(id) == s'.ValueOf(id)
  }

  ghost predicate SameBelow(s: Setup, s': Setup, bound: nat)
    requires s.Valid() && s'.Valid() && s.cfg == s'.cfg
  {
    forall id | 0 <= id < |s.cfg| && s.rank[id] < bound :: SameAt(s, s', id)
  }

  lemma PropsAgree(s: Setup, s': Setup, props: seq<Property>, v: Valuation, w: Valuation)
    requires forall x :: v(x) == w(x)
    ensures s.PromptMax(props, v) == s'.PromptMax(props, w)
    ensures s.DefaultAmong(props, v) == s'.DefaultAmong(props, w)
  {
    forall e: Expr ensures Eval(e, v) == Eval(e, w) {
      AgreeEverywhere(e, v, w);
      EvalAgrees(e, v, w);
    }
  }

  lemma AgreeEverywhere(e: Expr, v: Valuation, w: Valuation)
    requires forall x :: v(x) == w(x)
    ensures AgreeOn(e, v, w)
  {}

  /** A value is determined by the values of lower rank and the symbol's own setting. */
  lemma ValueDetermined(s: Setup, s': Setup, id: nat)
    requires s.Valid() && s'.Valid() && s.cfg == s'.cfg && s.rank == s'.rank && s.modules == s'.modules
    requires id < |s.cfg| && SameBelow(s, s', s.rank[id])
    ensures s.VisibleOf(id) == s'.VisibleOf(id) && s.RevDepOf(id) == s'.RevDepOf(id)
    ensures s.user[id] == s'.user[id] ==> SameAt(s, s', id)
    ensures Max(s.VisibleOf(id), s.RevDepOf(id)) == NO && IsLogical(s.cfg[id].kind) ==> SameAt(s, s', id)
  {
    var v, w := s.Below(s.rank[id]), s'.Below(s.rank[id]);
    forall x ensures v(x) == w(x) {
      if x.Config? && x.id < |s.cfg| && s.rank[x.id] < s.rank[id] { assert SameAt(s, s', x.id); }
    }
    PropsAgree(s, s', s.cfg[id].props, v, w);
    forall e: Expr ensures Eval(e, v) == Eval(e, w) {
      AgreeEverywhere(e, v, w);
      EvalAgrees(e, v, w);
    }
    assert s.DefaultOf(id) == s'.DefaultOf(id);
    if IsLogical(s.cfg[id].kind) {
      if s.user[id] == s'.user[id] || Max(s.VisibleOf(id), s.RevDepOf(id)) == NO {
        assert s.TriOf(id) == s'.TriOf(id);
      }
    } else if IsTextual(s.cfg[id].kind) && s.user[id] == s'.user[id] {
      assert s.TextOf(id) == s'.TextOf(id);
    }
  }

  /** s with another setting of one symbol */
  function WithSetting(s: Setup, id: nat, u: Setting): Setup
    requires id < |s.user|
  {
    s.(user := s.user[id := u])
  }

  /** A setting only reaches symbols of higher rank. */
  lemma {:induction false} SettingReachesUp(s: Setup, id: nat, u: Setting, bound: nat)
    requires s.Valid() && id < |s.cfg| && bound <= s.rank[id]
    ensures WithSetting(s, id, u).Valid() && SameBelow(s, WithSetting(s, id, u), bound)
    decreases bound
  {
    var s' := WithSetting(s, id, u);
    forall j | 0 <= j < |s.cfg| && s.rank[j] < bound ensures SameAt(s, s', j) {
      SettingReachesUp(s, id, u, s.rank[j]);
      ValueDetermined(s, s', j);
    }
  }

  /** A setting that leaves the symbol's own value alone changes nothing anywhere. */
  lemma {:induction false} SettingWithoutEffect(s: Setup, id: nat, u: Setting, bound: nat)
    requires s.Valid() && id < |s.cfg|
    requires WithSetting(s, id, u).Valid() && SameAt(s, WithSetting(s, id, u), id)
    ensures SameBelow(s, WithSetting(s, id, u), bound)
    decreases bound
  {
    var s' := WithSetting(s, id, u);
    forall j | 0 <= j < |s.cfg| && s.rank[j] < bound ensures SameAt(s, s', j) {
      SettingWithoutEffect(s, id, u, s.rank[j]);
      ValueDetermined(s, s', j);
    }
  }

  /** sym_tristate_within_range, with the fields of a calculated symbol */
  predicate WithinRange(kind: SymType, modules: Tri, visible: Tri, revDep: Tri, val: Tri) {
    visible != NO && IsLogical(TypeUnder(modules, kind)) &&
    !(TypeUnder(modules, kind) == Boolean && val == MOD) &&
    visible > revDep && revDep <= val <= visible
  }

  ghost predicate Allowed(s: Setup, id: nat, val: Tri)
    requires s.Valid() && id < |s.cfg|
  {
    WithinRange(s.cfg[id].kind, s.modules, s.VisibleOf(id), s.RevDepOf(id), val)
  }

  /** A symbol of boolean type has no m among its visibility and reverse dependency. */
  lemma BooleanBounds(s: Setup, id: nat)
    requires s.Valid() && id < |s.cfg| && TypeUnder(s.modules, s.cfg[id].kind) == Boolean
    ensures s.VisibleOf(id) != MOD && s.RevDepOf(id) != MOD
  {}

  /** The range test is exact: it admits a value only while the prompt can raise the symbol
      above its reverse dependency, and then those values that some setting brings about. */
  lemma RangeExact(s: Setup, id: nat, val: Tri)
    requires s.Valid() && id < |s.cfg| && IsLogical(s.cfg[id].kind)
    ensures Allowed(s, id, val) <==>
      s.VisibleOf(id) > s.RevDepOf(id) &&
      exists u: Setting :: u.isSet && WithSetting(s, id, u).Valid() && WithSetting(s, id, u).TriOf(id) == val
  {
    if TypeUnder(s.modules, s.cfg[id].kind) == Boolean { BooleanBounds(s, id); }
    forall u: Setting ensures WithSetting(s, id, u).Valid() &&
      WithSetting(s, id, u).VisibleOf(id) == s.VisibleOf(id) && WithSetting(s, id, u).RevDepOf(id) == s.RevDepOf(id)
    {
      SettingReachesUp(s, id, u, s.rank[id]);
      ValueDetermined(s, WithSetting(s, id, u), id);
    }
    if Allowed(s, id, val) {
      assert WithSetting(s, id, Setting(val, "", true)).TriOf(id) == val;
    }
  }

  /** What sym_set_tristate_value makes of a setting */
  function Chosen(u: Setting, val: Tri): Setting { Setting(val, u.text, true) }

  /** An admitted setting is the symbol's next value; so is a setting to the value it has. */
  lemma SettingTakesEffect(s: Setup, id: nat, val: Tri)
    requires s.Valid() && id < |s.cfg| && IsLogical(s.cfg[id].kind)
    requires Allowed(s, id, val) || s.TriOf(id) == val
    ensures var s' := WithSetting(s, id, Chosen(s.user[id], val));
      s'.Valid() && s'.TriOf(id) == val
  {
    var s' := WithSetting(s, id, Chosen(s.user[id], val));
    if TypeUnder(s.modules, s.cfg[id].kind) == Boolean { BooleanBounds(s, id); }
    SettingReachesUp(s, id, s'.user[id], s.rank[id]);
    ValueDetermined(s, s', id);
  }

  /** After a setting without effect everything cached is still right. */
  lemma StillMatches(s: Setup, id: nat, u: Setting)
    requires s.Valid() && id < |s.cfg| && IsLogical(s.cfg[id].kind)
    requires WithSetting(s, id, u).Valid() && WithSetting(s, id, u).TriOf(id) == s.TriOf(id)
    ensures forall j, c | 0 <= j < |s.cfg| && Holds(s, j, c) :: Holds(WithSetting(s, id, u), j, c)
  {
    var s' := WithSetting(s, id, u);
    forall j, c | 0 <= j < |s.cfg| && Holds(s, j, c) ensures Holds(s', j, c) {
      SettingWithoutEffect(s, id, u, s.rank[j]);
      ValueDetermined(s, s', j);
    }
  }

  class Evaluator {
    const cfg: seq<Definition>
    const modules: Tri
    ghost const rank: seq<nat>
    var user: seq<Setting>
    var cache: seq<Cached>

    /** Nothing is calculated yet, as after reading a configuration file. */
    constructor (cfg: seq<Definition>, ghost rank: seq<nat>, modules: Tri, user: seq<Setting>)
      requires Setup(cfg, rank, modules, user).Valid()
      ensures this.cfg == cfg && this.rank == rank && this.modules == modules && this.user == user
      ensures Coherent({})
    {
      this.cfg, this.rank, this.modules, this.user := cfg, rank, modules, user;
      cache := seq(|cfg|, _ => Cached(false, NO, "", NO, NO));
    }

    ghost function Now(): Setup
      reads this
    {
      Setup(cfg, rank, modules, user)
    }

    ghost predicate Matches(id: nat)
      requires Now().Valid() && id < |cache| == |cfg|
      reads this
    {
      Holds(Now(), id, cache[id])
    }

    /** Every symbol marked valid holds its value, apart from those still being calculated. */
    ghost predicate Coherent(busy: set<nat>)
      reads this
    {
      Now().Valid() && |cache| == |cfg| &&
      forall id | 0 <= id < |cfg| && cache[id].valid && id !in busy :: Matches(id)
    }

    /** What a calculation confined to ranks below a bound does to the cache. */
    twostate predicate Extends(bound: nat)
      reads this
    {
      && user == old(user) && |cache| == |old(cache)| == |rank|
      && (forall id | 0 <= id < |cache| && rank[id] >= bound :: cache[id] == old(cache)[id])
      && (forall id | 0 <= id < |cache| && old(cache)[id].valid :: cache[id].valid)
    }

    /** sym_get_string_value */
    function StringValue(x: Symbol): string
      requires x.Config? ==> x.id < |cache|
      reads this
    {
      match x
      case Constant(c) => Letter(c)
      case Quoted(text) => text
      case Config(id, kind) => if IsLogical(kind) then Letter(cache[id].tri) else cache[id].text
    }

    /** expr_calc_value */
    method ExprCalcValue(e: Expr, ghost bound: nat, ghost busy: set<nat>) returns (t: Tri)
      requires Coherent(busy) && Resolved(cfg, e) && RanksBelow(Now(), e, bound)
      requires forall id | id in busy && id < |rank| :: rank[id] >= bound
      modifies this`cache
      ensures t == Eval(e, Now().Final())
      ensures Coherent(busy) && Extends(bound)
      decreases 2 * bound, 2, e
    {
      match e
      case Sym(s) =>
        assert s.Config? ==> s.id in ExprIds(e);
        CalcBelow(s, bound, busy);
        t := match s case Constant(c) => c case Quoted(_) => NO case Config(id, _) => cache[id].tri;
      case Bin(op, l, r) =>
        var val1 := ExprCalcValue(l, bound, busy);
        var val2 := ExprCalcValue(r, bound, busy);
        t := Apply(op, val1, val2);
      case Not(a) =>
        assert ExprIds(e) == ExprIds(a);
        var val1 := ExprCalcValue(a, bound, busy);
        t := Neg(val1);
      case Cmp(rel, l, r) =>
        assert l.Config? ==> l.id in ExprIds(e);
        assert r.Config? ==> r.id in ExprIds(e);
        CalcBelow(l, bound, busy);
        CalcBelow(r, bound, busy);
        assert StringValue(l) == Now().Final()(l).text && StringValue(r) == Now().Final()(r).text;
        t := Compare(rel, StringValue(l), StringValue(r));
    }

    /** sym_calc_value on a symbol of rank below the bound */
    method CalcBelow(x: Symbol, ghost bound: nat, ghost busy: set<nat>)
      requires Coherent(busy) && ResolvedSymbol(cfg, x) && (x.Config? ==> rank[x.id] < bound)
      requires forall id | id in busy && id < |rank| :: rank[id] >= bound
      modifies this`cache
      ensures Coherent(busy) && Extends(bound)
      ensures x.Config? ==> cache[x.id].valid && x.id !in busy
      decreases 2 * bound, 1
    {
      SymCalcValue(x, busy);
    }

    /** expr_calc_value on an expression that may be null */
    method ExprCalcOpt(e: Option<Expr>, ghost bound: nat, ghost busy: set<nat>) returns (t: Tri)
      requires Coherent(busy) && OptBelow(Now(), e, bound)
      requires forall id | id in busy && id < |rank| :: rank[id] >= bound
      modifies this`cache
      ensures t == EvalOpt(e, Now().Final())
      ensures Coherent(busy) && Extends(bound)
      decreases 2 * bound, 3
    {
      if e.None? { return YES; }
      t := ExprCalcValue(e.value, bound, busy);
    }

    /** sym_get_default_prop: the value of the first visible default */
    method GetDefault(id: nat, ghost busy: set<nat>) returns (d: Option<Expr>)
      requires Coherent(busy) && id < |cfg|
      requires forall j | j in busy && j < |rank| :: rank[j] >= rank[id]
      modifies this`cache
      ensures d == Now().DefaultOf(id) && OptBelow(Now(), d, rank[id])
      ensures Coherent(busy) && Extends(rank[id])
      decreases 2 * rank[id], 4
    {
      var props := cfg[id].props;
      ghost var s := Now();
      ghost var v := s.Below(rank[id]);
      DepsOfDefinition(s, id);
      var i := 0;
      while i < |props|
        invariant 0 <= i <= |props|
        invariant s.DefaultAmong(props, v) == s.DefaultAmong(props[i..], v)
        invariant Coherent(busy) && Extends(rank[id])
      {
        DefaultAmongSuffix(s, props, i, v);
        if props[i].kind == Default {
          assert PropBelow(s, props[i], rank[id]);
          var visible := ExprCalcOpt(props[i].visible, rank[id], busy);
          if props[i].visible.Some? { BelowAgrees(s, props[i].visible.value, rank[id]); }
          if visible != NO {
            return props[i].expr;
          }
        }
        i := i + 1;
      }
      d := None;
    }

    /** The prompts' part of sym_calc_visibility */
    method PromptVisibility(id: nat, ghost busy: set<nat>) returns (tri: Tri)
      requires Coherent(busy) && id < |cfg|
      requires forall j | j in busy && j < |rank| :: rank[j] >= rank[id]
      modifies this`cache
      ensures tri == Now().VisibleOf(id)
      ensures Coherent(busy) && Extends(rank[id])
      decreases 2 * rank[id], 4
    {
      var props := cfg[id].props;
      ghost var s := Now();
      ghost var v := s.Below(rank[id]);
      DepsOfDefinition(s, id);
      tri := NO;
      var i := 0;
      while i < |props|
        invariant 0 <= i <= |props|
        invariant tri == s.PromptMax(props[..i], v)
        invariant Coherent(busy) && Extends(rank[id])
      {
        assert props[..i + 1][..i] == props[..i];
        if props[i].kind == Prompt {
          assert PropBelow(s, props[i], rank[id]);
          var visible := ExprCalcOpt(props[i].visible, rank[id], busy);
          if props[i].visible.Some? { BelowAgrees(s, props[i].visible.value, rank[id]); }
          tri := Max(tri, visible);
        }
        i := i + 1;
      }
      assert props[..i] == props;
      if tri == MOD && (cfg[id].kind != SymType.Tristate || modules == NO) {
        tri := YES;
      }
    }

    /** The reverse dependency's part of sym_calc_visibility */
    method RevDepValue(id: nat, ghost busy: set<nat>) returns (tri: Tri)
      requires Coherent(busy) && id < |cfg|
      requires forall j | j in busy && j < |rank| :: rank[j] >= rank[id]
      modifies this`cache
      ensures tri == Now().RevDepOf(id)
      ensures Coherent(busy) && Extends(rank[id])
      decreases 2 * rank[id], 4
    {
      tri := NO;
      if cfg[id].revDep.Some? {
        DepsOfDefinition(Now(), id);
        tri := ExprCalcValue(cfg[id].revDep.value, rank[id], busy);
        BelowAgrees(Now(), cfg[id].revDep.value, rank[id]);
      }
      if tri == MOD && TypeUnder(modules, cfg[id].kind) == Boolean {
        tri := YES;
      }
    }

    /** sym_calc_visibility */
    method SymCalcVisibility(id: nat, ghost busy: set<nat>)
      requires Coherent(busy) && id < |cfg| && id in busy
      requires forall j | j in busy && j < |rank| :: rank[j] >= rank[id]
      modifies this`cache
      ensures Coherent(busy) && ExtendsExcept(id)
      ensures cache[id] == old(cache)[id].(visible := Now().VisibleOf(id), revDep := Now().RevDepOf(id))
      decreases 2 * rank[id], 5
    {
      var visible := PromptVisibility(id, busy);
      cache := cache[id := cache[id].(visible := visible)];
      var revDep := RevDepValue(id, busy);
      cache := cache[id := cache[id].(revDep := revDep)];
    }

    /** As Extends, for a calculation of one symbol. */
    twostate predicate ExtendsExcept(id: nat)
      requires id < |rank|
      reads this
    {
      && user == old(user) && |cache| == |old(cache)| == |rank|
      && (forall j | 0 <= j < |cache| && rank[j] >= rank[id] && j != id :: cache[j] == old(cache)[j])
      && (forall j | 0 <= j < |cache| && old(cache)[j].valid :: cache[j].valid)
    }

    /** sym_calc_value: afterwards the symbol is valid and every valid symbol holds its value.
        A symbol still being calculated is never asked for: busy symbols rank higher. */
    method SymCalcValue(x: Symbol, ghost busy: set<nat>)
      requires Coherent(busy) && ResolvedSymbol(cfg, x)
      requires x.Config? ==> forall j | j in busy && j < |rank| :: rank[j] > rank[x.id]
      modifies this`cache
      ensures Coherent(busy)
      ensures if x.Config? then ExtendsExcept(x.id) && cache[x.id].valid && Matches(x.id) else cache == old(cache)
      decreases if x.Config? then 2 * rank[x.id] + 1 else 0, 0
    {
      if !x.Config? || cache[x.id].valid {
        return;
      }
      var id := x.id;
      var kind := cfg[id].kind;
      ghost var s := Now();
      ghost var working := busy + {id};
      cache := cache[id := cache[id].(valid := true)];
      if !IsLogical(kind) && !IsTextual(kind) {
        cache := cache[id := cache[id].(text := cfg[id].name, tri := NO)];
        return;
      }
      SymCalcVisibility(id, working);
      var text := if IsLogical(kind) then "n" else "";
      var tri: Tri := NO;
      cache := cache[id := cache[id].(tri := tri, text := text)];
      if IsLogical(kind) {
        tri := CalcTri(id, working);
      } else {
        text := CalcText(id, working);
      }
      cache := cache[id := cache[id].(tri := tri, text := text)];
    }

    /** The case of sym_calc_value for boolean and tristate symbols */
    method CalcTri(id: nat, ghost busy: set<nat>) returns (tri: Tri)
      requires Coherent(busy) && id < |cfg| && IsLogical(cfg[id].kind)
      requires forall j | j in busy && j < |rank| :: rank[j] >= rank[id]
      requires cache[id].visible == Now().VisibleOf(id) && cache[id].revDep == Now().RevDepOf(id)
      modifies this`cache
      ensures tri == Now().TriOf(id)
      ensures Coherent(busy) && Extends(rank[id])
      decreases 2 * rank[id], 5
    {
      ghost var s := Now();
      tri := NO;
      if Max(cache[id].visible, cache[id].revDep) != NO {
        if user[id].isSet {
          tri := user[id].tri;
        } else {
          var d := GetDefault(id, busy);
          if d.Some? {
            tri := ExprCalcValue(d.value, rank[id], busy);
            BelowAgrees(s, d.value, rank[id]);
          }
        }
        tri := Max(Min(tri, cache[id].visible), cache[id].revDep);
      } else {
        var d := GetDefault(id, busy);
        if d.Some? {
          tri := ExprCalcValue(d.value, rank[id], busy);
          BelowAgrees(s, d.value, rank[id]);
        }
      }
      if tri == MOD && TypeUnder(modules, cfg[id].kind) == Boolean {
        tri := YES;
      }
    }

    /** The case of sym_calc_value for string, int and hex symbols */
    method CalcText(id: nat, ghost busy: set<nat>) returns (text: string)
      requires Coherent(busy) && id < |cfg| && IsTextual(cfg[id].kind)
      requires forall j | j in busy && j < |rank| :: rank[j] >= rank[id]
      requires cache[id].visible == Now().VisibleOf(id)
      modifies this`cache
      ensures text == Now().TextOf(id)
      ensures Coherent(busy) && Extends(rank[id])
      decreases 2 * rank[id], 5
    {
      text := "";
      if cache[id].visible != NO && user[id].isSet {
        return user[id].text;
      }
      var d := GetDefault(id, busy);
      if d.Some? && d.value.Sym? {
        var ds := d.value.sym;
        assert ds.Config? ==> ds.id in ExprIds(d.value);
        ghost var x := Now().Below(rank[id])(ds);
        SymCalcValue(ds, busy);
        if ds.Config? { assert x == Now().ValueOf(ds.id); }
        text := match ds case Constant(c) => Letter(c) case Quoted(t) => t case Config(j, _) => cache[j].text;
      }
    }

    /** sym_clear_all_valid; modulesSym is the MODULES symbol, if there is one. */
    method SymClearAllValid(modulesSym: Option<nat>)
      requires Now().Valid() && |cache| == |cfg|
      requires modulesSym.Some? ==> modulesSym.value < |cfg|
      modifies this`cache
      ensures Coherent({})
    {
      var c := cache;
      cache := seq(|c|, i requires 0 <= i < |c| => c[i].(valid := false));
      assert Coherent({});
      if modulesSym.Some? {
        SymCalcValue(Config(modulesSym.value, cfg[modulesSym.value].kind), {});
      }
    }

    /** sym_set_tristate_value for a calculated symbol other than MODULES: it is accepted
        exactly when the value is allowed or already there; then the cache is coherent with
        the new setting and the symbol's value is the one asked for. */
    method SymSetTristateValue(id: nat, val: Tri, modulesSym: Option<nat>) returns (accepted: bool)
      requires Coherent({}) && id < |cfg| && IsLogical(cfg[id].kind) && cache[id].valid
      requires modulesSym.Some? ==> modulesSym.value < |cfg| && modulesSym.value != id
      modifies this`cache, this`user
      ensures accepted == (old(Now().TriOf(id)) == val || Allowed(old(Now()), id, val))
      ensures accepted ==> user == old(user)[id := Chosen(old(user)[id], val)]
      ensures !accepted ==> user == old(user)
      ensures !accepted || old(Now().TriOf(id)) == val ==> cache == old(cache)
      ensures Coherent({})
      ensures accepted ==> Now().TriOf(id) == val
    {
      ghost var s := Now();
      assert Matches(id);
      var oldval := cache[id].tri;
      accepted := oldval == val || WithinRange(cfg[id].kind, modules, cache[id].visible, cache[id].revDep, val);
      if accepted {
        SettingTakesEffect(s, id, val);
        user := user[id := Chosen(user[id], val)];
        if oldval != val {
          SymClearAllValid(modulesSym);
        } else {
          StillMatches(s, id, user[id]);
        }
      }
    }
  }
}
