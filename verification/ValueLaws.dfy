/** What value a symbol gets, told by its properties: prompts, defaults, the reverse dependency
    and the user's setting, all under the final values of the other symbols. */
module ValueLaws {
  import opened Tristate
  import opened Expr
  import opened Configuration
  import opened Evaluator

  /** An m counts as y where only y and n are to be had. */
  function Rounded(twoValued: bool, t: Tri): Tri { if twoValued && t == MOD then YES else t }

  /** The symbol can only be y or n: it is boolean, or there are no modules. */
  predicate IsBoolean(s: Setup, id: nat)
    requires id < |s.cfg|
  {
    s.cfg[id].kind == Boolean || (s.cfg[id].kind == SymType.Tristate && s.modules == NO)
  }

  /** How visible the i-th property is, as a prompt. */
  ghost function Shown(s: Setup, id: nat, i: nat): Tri
    requires s.Valid() && id < |s.cfg| && i < |s.cfg[id].props|
  {
    Rounded(s.cfg[id].kind != SymType.Tristate || s.modules == NO, EvalOpt(s.cfg[id].props[i].visible, s.Final()))
  }

  predicate IsPrompt(s: Setup, id: nat, i: nat)
    requires id < |s.cfg|
  {
    i < |s.cfg[id].props| && s.cfg[id].props[i].kind == Prompt
  }

  /** p is the visibility of the most visible prompt, n without one. */
  ghost predicate IsVisibility(s: Setup, id: nat, p: Tri)
    requires s.Valid() && id < |s.cfg|
  {
    && (forall i: nat | IsPrompt(s, id, i) :: Shown(s, id, i) <= p)
    && (p != NO ==> exists i: nat :: IsPrompt(s, id, i) && Shown(s, id, i) == p)
  }

  /** The i-th property is a default that is visible. */
  ghost predicate IsDefault(s: Setup, id: nat, i: nat)
    requires s.Valid() && id < |s.cfg|
  {
    i < |s.cfg[id].props| && s.cfg[id].props[i].kind == Default && EvalOpt(s.cfg[id].props[i].visible, s.Final()) != NO
  }

  ghost predicate IsFirstDefault(s: Setup, id: nat, i: nat)
    requires s.Valid() && id < |s.cfg|
  {
    IsDefault(s, id, i) && forall j: nat | j < i :: !IsDefault(s, id, j)
  }

  /** d is the value of the first default that is visible, n without one. */
  ghost predicate IsDefaultValue(s: Setup, id: nat, d: Tri)
    requires s.Valid() && id < |s.cfg|
  {
    if exists i: nat :: IsFirstDefault(s, id, i)
    then exists i: nat :: IsFirstDefault(s, id, i) && s.cfg[id].props[i].expr.Some? && d == Eval(s.cfg[id].props[i].expr.value, s.Final())
    else d == NO
  }

  /** The reverse dependency, n without one. */
  ghost function Selected(s: Setup, id: nat): Tri
    requires s.Valid() && id < |s.cfg|
  {
    Rounded(IsBoolean(s, id), if s.cfg[id].revDep.None? then NO else Eval(s.cfg[id].revDep.value, s.Final()))
  }

  // The definition agrees.

  lemma FinalBelow(s: Setup, e: Option<Expr>, bound: nat)
    requires s.Valid() && OptBelow(s, e, bound)
    ensures EvalOpt(e, s.Below(bound)) == EvalOpt(e, s.Final())
    ensures e.Some? ==> Eval(e.value, s.Below(bound)) == Eval(e.value, s.Final())
  {
    if e.Some? { BelowAgrees(s, e.value, bound); }
  }

  /** The largest visibility of a prompt is attained, and is none without a prompt. */
  lemma {:induction false} PromptMaxIs(s: Setup, props: seq<Property>, v: Valuation)
    ensures forall i | 0 <= i < |props| && props[i].kind == Prompt :: EvalOpt(props[i].visible, v) <= s.PromptMax(props, v)
    ensures s.PromptMax(props, v) != NO ==>
      exists i :: 0 <= i < |props| && props[i].kind == Prompt && EvalOpt(props[i].visible, v) == s.PromptMax(props, v)
    decreases |props|
  {
    if props != [] {
      var n := |props| - 1;
      var rest := props[..n];
      PromptMaxIs(s, rest, v);
      forall i | 0 <= i < n ensures rest[i] == props[i] {}
      if s.PromptMax(rest, v) != NO && s.PromptMax(props, v) == s.PromptMax(rest, v) {
        var i :| 0 <= i < n && rest[i].kind == Prompt && EvalOpt(rest[i].visible, v) == s.PromptMax(rest, v);
        assert props[i].kind == Prompt;
      }
    }
  }

  lemma VisibilityIs(s: Setup, id: nat)
    requires s.Valid() && id < |s.cfg|
    ensures IsVisibility(s, id, s.VisibleOf(id))
  {
    var props, v := s.cfg[id].props, s.Below(s.rank[id]);
    DepsOfDefinition(s, id);
    PromptMaxIs(s, props, v);
    forall i: nat | IsPrompt(s, id, i) ensures EvalOpt(props[i].visible, v) == EvalOpt(props[i].visible, s.Final()) {
      assert PropBelow(s, props[i], s.rank[id]);
      FinalBelow(s, props[i].visible, s.rank[id]);
    }
    if s.PromptMax(props, v) != NO {
      var i :| 0 <= i < |props| && props[i].kind == Prompt && EvalOpt(props[i].visible, v) == s.PromptMax(props, v);
      assert IsPrompt(s, id, i) && Shown(s, id, i) == s.VisibleOf(id);
    }
  }

  /** There is only one such visibility. */
  lemma VisibilityUnique(s: Setup, id: nat, p: Tri, q: Tri)
    requires s.Valid() && id < |s.cfg| && IsVisibility(s, id, p) && IsVisibility(s, id, q)
    ensures p == q
  {}

  lemma {:induction false} FirstAmong(s: Setup, props: seq<Property>, v: Valuation, i: nat)
    requires i < |props| && props[i].kind == Default && EvalOpt(props[i].visible, v) != NO
    requires forall j | 0 <= j < i && props[j].kind == Default :: EvalOpt(props[j].visible, v) == NO
    ensures s.DefaultAmong(props, v) == props[i].expr
    decreases i
  {
    if i > 0 {
      assert forall j | 0 <= j < i - 1 :: props[1..][j] == props[j + 1];
      FirstAmong(s, props[1..], v, i - 1);
    }
  }

  lemma {:induction false} NoneAmong(s: Setup, props: seq<Property>, v: Valuation)
    requires forall j | 0 <= j < |props| && props[j].kind == Default :: EvalOpt(props[j].visible, v) == NO
    ensures s.DefaultAmong(props, v) == None
    decreases |props|
  {
    if props != [] {
      assert forall j | 0 <= j < |props| - 1 :: props[1..][j] == props[j + 1];
      NoneAmong(s, props[1..], v);
    }
  }

  lemma DefaultsAgree(s: Setup, id: nat)
    requires s.Valid() && id < |s.cfg|
    ensures forall i | 0 <= i < |s.cfg[id].props| && s.cfg[id].props[i].kind == Default ::
      EvalOpt(s.cfg[id].props[i].visible, s.Below(s.rank[id])) == EvalOpt(s.cfg[id].props[i].visible, s.Final())
  {
    DepsOfDefinition(s, id);
    forall i | 0 <= i < |s.cfg[id].props| && s.cfg[id].props[i].kind == Default
      ensures EvalOpt(s.cfg[id].props[i].visible, s.Below(s.rank[id])) == EvalOpt(s.cfg[id].props[i].visible, s.Final())
    {
      assert PropBelow(s, s.cfg[id].props[i], s.rank[id]);
      FinalBelow(s, s.cfg[id].props[i].visible, s.rank[id]);
    }
  }

  /** sym_get_default_prop finds the first visible default, if there is one. */
  lemma DefaultIs(s: Setup, id: nat)
    requires s.Valid() && id < |s.cfg|
    ensures forall i: nat | IsFirstDefault(s, id, i) :: s.DefaultOf(id) == s.cfg[id].props[i].expr
    ensures (forall i: nat :: !IsDefault(s, id, i)) ==> s.DefaultOf(id) == None
  {
    var props, v := s.cfg[id].props, s.Below(s.rank[id]);
    DefaultsAgree(s, id);
    forall i: nat | IsFirstDefault(s, id, i) ensures s.DefaultOf(id) == props[i].expr {
      forall j | 0 <= j < i && props[j].kind == Default ensures EvalOpt(props[j].visible, v) == NO {
        assert !IsDefault(s, id, j);
      }
      FirstAmong(s, props, v, i);
    }
    if forall i: nat :: !IsDefault(s, id, i) {
      forall j | 0 <= j < |props| && props[j].kind == Default ensures EvalOpt(props[j].visible, v) == NO {
        assert !IsDefault(s, id, j);
      }
      NoneAmong(s, props, v);
    }
  }

  /** Where a default is visible there is a first one. */
  lemma {:induction false} SomeFirst(s: Setup, id: nat, i: nat) returns (first: nat)
    requires s.Valid() && id < |s.cfg| && IsDefault(s, id, i)
    ensures IsFirstDefault(s, id, first) && first <= i
    decreases i
  {
    first := i;
    if j: nat :| j < i && IsDefault(s, id, j) { first := SomeFirst(s, id, j); }
  }

  ghost function ByDefault(s: Setup, id: nat): Tri
    requires s.Valid() && id < |s.cfg|
  {
    if s.DefaultOf(id).Some? then Eval(s.DefaultOf(id).value, s.Below(s.rank[id])) else NO
  }

  lemma DefaultValueIs(s: Setup, id: nat, d: Tri)
    requires s.Valid() && id < |s.cfg| && IsDefaultValue(s, id, d)
    ensures ByDefault(s, id) == d
  {
    DefaultIs(s, id);
    DepsOfDefinition(s, id);
    if exists i: nat :: IsFirstDefault(s, id, i) {
      var i: nat :| IsFirstDefault(s, id, i) && s.cfg[id].props[i].expr.Some? && d == Eval(s.cfg[id].props[i].expr.value, s.Final());
      assert PropBelow(s, s.cfg[id].props[i], s.rank[id]);
      FinalBelow(s, s.cfg[id].props[i].expr, s.rank[id]);
    } else {
      forall i: nat ensures !IsDefault(s, id, i) {
        if IsDefault(s, id, i) { var first := SomeFirst(s, id, i); }
      }
    }
  }

  lemma SelectedIs(s: Setup, id: nat)
    requires s.Valid() && id < |s.cfg| && IsLogical(s.cfg[id].kind)
    ensures s.RevDepOf(id) == Selected(s, id)
  {
    DepsOfDefinition(s, id);
    assert s.cfg[id] in s.cfg;
    if s.cfg[id].revDep.Some? { BelowAgrees(s, s.cfg[id].revDep.value, s.rank[id]); }
  }

  // The value.

  /** Main result: with prompt visibility p, default value d and reverse dependency r, a boolean
      or tristate symbol gets its setting, or else d, bounded by p and raised to r; where p and
      r are n it gets d whatever is set. An m becomes y for a boolean. */
  lemma ValueByProperties(s: Setup, id: nat, p: Tri, d: Tri)
    requires s.Valid() && id < |s.cfg| && IsLogical(s.cfg[id].kind)
    requires IsVisibility(s, id, p) && IsDefaultValue(s, id, d)
    ensures var r, wish := Selected(s, id), if s.user[id].isSet then s.user[id].tri else d;
      s.ValueOf(id).tri == Rounded(IsBoolean(s, id), if p == NO && r == NO then d else Max(Min(wish, p), r))
  {
    VisibilityIs(s, id);
    VisibilityUnique(s, id, p, s.VisibleOf(id));
    DefaultValueIs(s, id, d);
    SelectedIs(s, id);
    assert s.TriOf(id) == s.ValueOf(id).tri;
  }

  /** No symbol is below its reverse dependency. */
  lemma SelectRaises(s: Setup, id: nat)
    requires s.Valid() && id < |s.cfg| && IsLogical(s.cfg[id].kind)
    ensures s.ValueOf(id).tri >= Selected(s, id)
  {
    SelectedIs(s, id);
    assert s.TriOf(id) == s.ValueOf(id).tri;
  }

  /** What menu_finalize makes of a reverse dependency when the symbol x selects it under dep. */
  function AddSelect(rev: Option<Expr>, x: Symbol, dep: Option<Expr>): Expr {
    var term := if dep.None? then Sym(x) else Bin(And, Sym(x), dep.value);
    if rev.None? then term else Bin(Or, rev.value, term)
  }

  /** So whatever selects a symbol raises it to its own value, as far as the select's
      dependency goes. */
  lemma SelectedBy(s: Setup, id: nat, rev: Option<Expr>, x: Symbol, dep: Option<Expr>)
    requires s.Valid() && id < |s.cfg| && IsLogical(s.cfg[id].kind)
    requires s.cfg[id].revDep == Some(AddSelect(rev, x, dep))
    ensures s.ValueOf(id).tri >= Min(s.Final()(x).tri, EvalOpt(dep, s.Final()))
  {
    var v := s.Final();
    var term := AddSelect(None, x, dep);
    SelectRaises(s, id);
    assert Eval(term, v) == Min(v(x).tri, EvalOpt(dep, v)) by {
      assert Eval(Sym(x), v) == v(x).tri;
    }
    assert rev.Some? ==> AddSelect(rev, x, dep) == Bin(Or, rev.value, term);
    assert Eval(AddSelect(rev, x, dep), v) >= Eval(term, v);
  }

  /** A string, int or hex symbol has its setting if it is visible and set; otherwise the string
      of the symbol its first visible default names, which for a boolean or tristate is "n"
      whatever its value, or none. */
  lemma TextByProperties(s: Setup, id: nat, p: Tri)
    requires s.Valid() && id < |s.cfg| && IsTextual(s.cfg[id].kind) && IsVisibility(s, id, p)
    ensures p != NO && s.user[id].isSet ==> s.ValueOf(id).text == s.user[id].text
    ensures !(p != NO && s.user[id].isSet) ==>
      && (forall i: nat | IsFirstDefault(s, id, i) && s.cfg[id].props[i].expr.Some? && s.cfg[id].props[i].expr.value.Sym? ::
            var x := s.cfg[id].props[i].expr.value.sym; s.ValueOf(id).text == if x.Config? && IsLogical(x.kind) then "n" else s.Final()(x).text)
      && ((forall i: nat :: !IsDefault(s, id, i)) ==> s.ValueOf(id).text == "")
  {
    VisibilityIs(s, id);
    VisibilityUnique(s, id, p, s.VisibleOf(id));
    DefaultIs(s, id);
    assert s.ValueOf(id).text == s.TextOf(id);
    forall i: nat | IsFirstDefault(s, id, i) && s.cfg[id].props[i].expr.Some? && s.cfg[id].props[i].expr.value.Sym?
      ensures var x := s.cfg[id].props[i].expr.value.sym; RawText(x, s.Below(s.rank[id])(x)) == RawText(x, s.Final()(x))
    {
      NamedText(s, id, i);
    }
  }

  lemma NamedText(s: Setup, id: nat, i: nat)
    requires s.Valid() && id < |s.cfg| && IsDefault(s, id, i)
    requires s.cfg[id].props[i].expr.Some? && s.cfg[id].props[i].expr.value.Sym?
    ensures var x := s.cfg[id].props[i].expr.value.sym; s.Below(s.rank[id])(x) == s.Final()(x)
  {
    var e := s.cfg[id].props[i].expr.value;
    DepsOfDefinition(s, id);
    assert PropBelow(s, s.cfg[id].props[i], s.rank[id]);
    assert e.sym.Config? ==> e.sym.id in ExprIds(e);
  }

  /** A symbol that is neither boolean, tristate, string, int nor hex has its name as string. */
  lemma UndefinedValue(s: Setup, id: nat)
    requires s.Valid() && id < |s.cfg| && s.cfg[id].kind in {Unknown, Other}
    ensures s.ValueOf(id) == Value(NO, s.cfg[id].name)
  {}
}
