/** sym_check_deps and the loop of conf_parse around it: finding recursive dependencies. */
module CheckDeps {
  import opened Tristate
  import opened Expr
  import opened Configuration

  // Dependency cycles.

  /** Symbol b occurs in what symbol a depends on. */
  predicate Edge(cfg: seq<Definition>, a: nat, b: nat) { a < |cfg| && b in Deps(cfg[a]) }

  predicate Walk(cfg: seq<Definition>, p: seq<nat>) {
    p != [] && forall i | 0 <= i < |p| - 1 :: Edge(cfg, p[i], p[i + 1])
  }

  predicate From(cfg: seq<Definition>, p: seq<nat>, a: nat, b: nat) {
    Walk(cfg, p) && p[0] == a && p[|p| - 1] == b
  }

  ghost predicate Reaches(cfg: seq<Definition>, a: nat, b: nat) {
    exists p :: From(cfg, p, a, b)
  }

  /** The symbol depends on itself, directly or through others. */
  ghost predicate OnCycle(cfg: seq<Definition>, a: nat) {
    exists p :: From(cfg, p, a, a) && |p| > 1
  }

  /** The symbol does not depend on a symbol that depends on itself. */
  ghost predicate Clean(cfg: seq<Definition>, a: nat) {
    forall b | Reaches(cfg, a, b) :: !OnCycle(cfg, b)
  }

  lemma Joined(cfg: seq<Definition>, p: seq<nat>, q: seq<nat>, a: nat, b: nat, c: nat)
    requires From(cfg, p, a, b) && From(cfg, q, b, c)
    ensures From(cfg, p + q[1..], a, c)
  {
    var r := p + q[1..];
    forall i | 0 <= i < |r| - 1 ensures Edge(cfg, r[i], r[i + 1]) {
      if i >= |p| - 1 { assert r[i] == q[i - (|p| - 1)] && r[i + 1] == q[i - (|p| - 1) + 1]; }
    }
  }

  lemma ReachesSelf(cfg: seq<Definition>, a: nat)
    ensures Reaches(cfg, a, a)
  {
    assert From(cfg, [a], a, a);
  }

  lemma ReachesThrough(cfg: seq<Definition>, a: nat, b: nat, c: nat)
    requires Edge(cfg, a, b) && Reaches(cfg, b, c)
    ensures Reaches(cfg, a, c)
    ensures a == c ==> OnCycle(cfg, a)
  {
    var q :| From(cfg, q, b, c);
    assert From(cfg, [a, b], a, b);
    Joined(cfg, [a, b], q, a, b, c);
    assert |[a, b] + q[1..]| > 1;
  }

  lemma ReachesTransitive(cfg: seq<Definition>, a: nat, b: nat, c: nat)
    requires Reaches(cfg, a, b) && Reaches(cfg, b, c)
    ensures Reaches(cfg, a, c)
  {
    var p :| From(cfg, p, a, b);
    var q :| From(cfg, q, b, c);
    Joined(cfg, p, q, a, b, c);
  }

  /** What a successful search from a has looked at: no way from a, outside the symbols
      already done, comes back to the stack or to itself. */
  ghost predicate Ok(cfg: seq<Definition>, done: set<nat>, a: nat, stack: set<nat>)
    decreases Ids(cfg) - stack
  {
    a in done || (a < |cfg| && a !in stack && forall b | b in Deps(cfg[a]) :: Ok(cfg, done, b, stack + {a}))
  }

  predicate IsId(cfg: seq<Definition>, i: nat) { i < |cfg| }

  function Ids(cfg: seq<Definition>): set<nat> { set i: nat | i < |cfg| && IsId(cfg, i) }

  lemma {:induction false} OkNeverReturns(cfg: seq<Definition>, done: set<nat>, a: nat, stack: set<nat>, p: seq<nat>)
    requires Ok(cfg, done, a, stack) && Walk(cfg, p) && p[0] == a
    requires forall x | x in p :: x !in done
    ensures forall x | x in p :: x !in stack
    ensures forall i, j | 0 <= i < j < |p| :: p[i] != p[j]
    decreases |p|
  {
    assert a in p;
    if |p| > 1 {
      assert Edge(cfg, p[0], p[1]);
      var q := p[1..];
      forall i | 0 <= i < |q| - 1 ensures Edge(cfg, q[i], q[i + 1]) {
        assert Edge(cfg, p[i + 1], p[i + 2]);
      }
      OkNeverReturns(cfg, done, p[1], stack + {a}, q);
      forall i, j | 0 <= i < j < |p| ensures p[i] != p[j] {
        assert p[j] == q[j - 1] && q[j - 1] in q;
        if i > 0 { assert p[i] == q[i - 1]; }
      }
    }
  }

  /** Part of a walk from one of its symbols on. */
  lemma WalkSuffix(cfg: seq<Definition>, p: seq<nat>, i: nat, b: nat)
    requires Walk(cfg, p) && i < |p| && p[|p| - 1] == b
    ensures Reaches(cfg, p[i], b)
  {
    var q := p[i..];
    forall k | 0 <= k < |q| - 1 ensures Edge(cfg, q[k], q[k + 1]) {
      assert Edge(cfg, p[i + k], p[i + k + 1]);
    }
    assert From(cfg, q, p[i], b);
  }

  /** A successful search from the empty stack means what it should. */
  lemma OkClean(cfg: seq<Definition>, done: set<nat>, a: nat)
    requires Ok(cfg, done, a, {})
    requires forall d | d in done :: Clean(cfg, d)
    ensures Clean(cfg, a)
  {
    forall b | Reaches(cfg, a, b) && OnCycle(cfg, b) ensures false {
      var p :| From(cfg, p, a, b);
      var q :| From(cfg, q, b, b) && |q| > 1;
      Joined(cfg, p, q, a, b, b);
      var r := p + q[1..];
      assert r[|p| - 1] == b && r[|r| - 1] == b && |p| - 1 < |r| - 1;
      if i :| 0 <= i < |r| && r[i] in done {
        WalkSuffix(cfg, r, i, b);
      } else {
        OkNeverReturns(cfg, done, a, {}, r);
      }
    }
  }

  /** The symbols that occur in dependencies exist. */
  predicate Closed(cfg: seq<Definition>) {
    forall i | 0 <= i < |cfg| :: Deps(cfg[i]) <= Ids(cfg)
  }

  lemma {:induction false} ResolvedIds(cfg: seq<Definition>, e: Expr)
    requires Resolved(cfg, e)
    ensures ExprIds(e) <= Ids(cfg)
  {
    match e
    case Sym(_) =>
    case Cmp(_, _, _) =>
    case Not(a) => ResolvedIds(cfg, a);
    case Bin(_, l, r) =>
      ResolvedIds(cfg, l);
      ResolvedIds(cfg, r);
  }

  lemma {:induction false} ResolvedProps(cfg: seq<Definition>, props: seq<Property>, isChoice: bool)
    requires forall p | p in props :: ResolvedOpt(cfg, p.visible) && ResolvedOpt(cfg, p.expr)
    ensures PropsIds(props, isChoice) <= Ids(cfg)
  {
    if props != [] {
      assert props[0] in props;
      if props[0].visible.Some? { ResolvedIds(cfg, props[0].visible.value); }
      if props[0].expr.Some? { ResolvedIds(cfg, props[0].expr.value); }
      ResolvedProps(cfg, props[1..], isChoice);
    }
  }

  /** A configuration whose expressions are resolved is closed. */
  lemma WellFormedClosed(cfg: seq<Definition>)
    requires WellFormed(cfg)
    ensures Closed(cfg)
  {
    forall i | 0 <= i < |cfg| ensures Deps(cfg[i]) <= Ids(cfg) {
      if cfg[i].revDep.Some? { ResolvedIds(cfg, cfg[i].revDep.value); }
      ResolvedProps(cfg, cfg[i].props, cfg[i].isChoice);
    }
  }

  class Checker {
    const cfg: seq<Definition>
    /** The symbols with SYMBOL_CHECK, SYMBOL_CHECKED and SYMBOL_CHECK_DONE. */
    var check: set<nat>
    var checked: set<nat>
    var done: set<nat>

    constructor (cfg: seq<Definition>)
      ensures this.cfg == cfg && check == {} && checked == {} && done == {}
    {
      this.cfg := cfg;
      check, checked, done := {}, {}, {};
    }

    /** x closes a cycle: over the stack, or by itself. */
    ghost predicate Closes(a: nat, x: nat)
      reads this
    {
      Reaches(cfg, a, x) && (x in check || OnCycle(cfg, x))
    }

    /** What a search leaves of the flags: every CHECK bit as it was, and CHECKED only added
        to symbols the starting points reach. */
    twostate predicate Searched(starts: set<nat>)
      reads this
    {
      && check == old(check) && done == old(done) && old(checked) <= checked
      && forall x | x in checked && x !in old(checked) :: exists a :: a in starts && Reaches(cfg, a, x)
    }

    /** sym_check_expr_deps */
    method SymCheckExprDeps(e: Expr) returns (found: Option<nat>)
      requires Closed(cfg) && check <= Ids(cfg) && ExprIds(e) <= Ids(cfg)
      modifies this`check, this`checked
      ensures Searched(ExprIds(e))
      ensures found.None? ==> forall a | a in ExprIds(e) :: Ok(cfg, done, a, check)
      ensures found.Some? ==> exists a :: a in ExprIds(e) && Closes(a, found.value)
      decreases Ids(cfg) - check, 2, e
    {
      match e
      case Bin(_, l, r) =>
        found := SymCheckExprDeps(l);
        if found.None? { found := SymCheckExprDeps(r); }
      case Not(a) => found := SymCheckExprDeps(a);
      case Cmp(_, l, r) =>
        found := SymCheckSymbol(l);
        if found.None? { found := SymCheckSymbol(r); }
      case Sym(s) => found := SymCheckSymbol(s);
    }

    /** sym_check_expr_deps on an expression that may be null */
    method SymCheckOptDeps(e: Option<Expr>) returns (found: Option<nat>)
      requires Closed(cfg) && check <= Ids(cfg) && OptIds(e) <= Ids(cfg)
      modifies this`check, this`checked
      ensures Searched(OptIds(e))
      ensures found.None? ==> forall a | a in OptIds(e) :: Ok(cfg, done, a, check)
      ensures found.Some? ==> exists a :: a in OptIds(e) && Closes(a, found.value)
      decreases Ids(cfg) - check, 3
    {
      found := None;
      if e.Some? { found := SymCheckExprDeps(e.value); }
    }

    /** sym_check_deps on any symbol: constants have no properties and no dependencies. */
    method SymCheckSymbol(s: Symbol) returns (found: Option<nat>)
      requires Closed(cfg) && check <= Ids(cfg) && SymbolIds(s) <= Ids(cfg)
      modifies this`check, this`checked
      ensures Searched(SymbolIds(s))
      ensures found.None? ==> forall a | a in SymbolIds(s) :: Ok(cfg, done, a, check)
      ensures found.Some? ==> exists a :: a in SymbolIds(s) && Closes(a, found.value)
      decreases Ids(cfg) - check, 1
    {
      found := None;
      if s.Config? {
        found := SymCheckDeps(s.id);
        assert s.id in SymbolIds(s);
      }
    }

    /** sym_check_deps */
    method SymCheckDeps(id: nat) returns (found: Option<nat>)
      requires Closed(cfg) && check <= Ids(cfg) && id in Ids(cfg)
      modifies this`check, this`checked
      ensures Searched({id})
      ensures found.None? ==> Ok(cfg, done, id, check)
      ensures found.None? && id !in done ==> id in checked
      ensures found.Some? ==> Closes(id, found.value)
      decreases Ids(cfg) - check, 0
    {
      if id in done {
        return None;
      }
      ReachesSelf(cfg, id);
      if id in check {
        return Some(id);
      }
      ghost var stack, before := check, checked;
      check, checked := check + {id}, checked + {id};
      found := SearchProperties(id);
      if found.Some? {
        ghost var a :| a in Deps(cfg[id]) && Closes(a, found.value);
        assert Edge(cfg, id, a);
        ReachesThrough(cfg, id, a, found.value);
      }
      forall x | x in checked && x !in before ensures Reaches(cfg, id, x) {
        if x != id {
          var a :| a in Deps(cfg[id]) && Reaches(cfg, a, x);
          assert Edge(cfg, id, a);
          ReachesThrough(cfg, id, a, x);
        }
      }
      check := check - {id};
      assert check == stack;
    }

    /** The body of sym_check_deps: the reverse dependency, then every property in turn. */
    method SearchProperties(id: nat) returns (found: Option<nat>)
      requires Closed(cfg) && check <= Ids(cfg) && id in check
      modifies this`check, this`checked
      ensures Searched(Deps(cfg[id]))
      ensures found.None? ==> forall a | a in Deps(cfg[id]) :: Ok(cfg, done, a, check)
      ensures found.Some? ==> exists a :: a in Deps(cfg[id]) && Closes(a, found.value)
      decreases Ids(cfg) - check, 5
    {
      var d := cfg[id];
      found := SymCheckOptDeps(d.revDep);
      var i := 0;
      while found.None? && i < |d.props|
        invariant 0 <= i <= |d.props|
        invariant Searched(Deps(d))
        invariant found.None? ==> forall a | a in OptIds(d.revDep) + PropsIds(d.props[..i], d.isChoice) :: Ok(cfg, done, a, check)
        invariant found.Some? ==> exists a :: a in Deps(d) && Closes(a, found.value)
      {
        PropsIdsAt(d.props, d.isChoice, i);
        PropsIdsPrefix(d.props, d.isChoice, i);
        found := SearchProperty(d.props[i], d.isChoice);
        i := i + 1;
      }
      assert d.props[..|d.props|] == d.props;
    }

    /** One property: its visibility, and for a default also its value, unless the symbol is
        a choice. */
    method SearchProperty(p: Property, isChoice: bool) returns (found: Option<nat>)
      requires Closed(cfg) && check <= Ids(cfg) && PropIds(p, isChoice) <= Ids(cfg)
      modifies this`check, this`checked
      ensures Searched(PropIds(p, isChoice))
      ensures found.None? ==> forall a | a in PropIds(p, isChoice) :: Ok(cfg, done, a, check)
      ensures found.Some? ==> exists a :: a in PropIds(p, isChoice) && Closes(a, found.value)
      decreases Ids(cfg) - check, 4
    {
      found := None;
      if p.kind != Choice && p.kind != Select {
        found := SymCheckOptDeps(p.visible);
        if found.None? && p.kind == Default && !isChoice {
          found := SymCheckOptDeps(p.expr);
        }
      }
    }

    /** The loop of conf_parse: it reports a recursive dependency if and only if there is
        one, whatever the order of the symbols. */
    method ReportRecursion(order: seq<nat>) returns (reported: bool)
      requires Closed(cfg) && check == {} && checked == {} && done == {}
      requires forall i :: i in order <==> i in Ids(cfg)
      modifies this
      ensures reported <==> exists a :: OnCycle(cfg, a)
      ensures check == {}
    {
      reported := false;
      for i := 0 to |order|
        invariant check == {}
        invariant reported ==> exists a :: OnCycle(cfg, a)
        invariant !reported ==> forall a | a in checked + done :: Clean(cfg, a)
        invariant !reported ==> forall k | 0 <= k < i :: order[k] in done
      {
        assert order[i] in order;
        var found: Option<nat> := None;
        if order[i] !in checked {
          ghost var before := checked;
          found := SymCheckDeps(order[i]);
          if !reported && found.None? {
            OkClean(cfg, done, order[i]);
            forall x | x in checked && x !in before ensures Clean(cfg, x) {
              CleanBelow(cfg, order[i], x);
            }
          }
        }
        if found.Some? {
          reported := true;
        } else {
          done := done + {order[i]};
        }
      }
      if !reported {
        forall a | a in order ensures Clean(cfg, a) {
          var k :| 0 <= k < |order| && order[k] == a;
          assert a in checked + done;
        }
        forall a ensures !OnCycle(cfg, a) {
          OnCycleIsId(cfg, a);
          ReachesSelf(cfg, a);
        }
      }
    }
  }

  lemma PropsIdsPrefix(props: seq<Property>, isChoice: bool, i: nat)
    requires i < |props|
    ensures PropsIds(props[..i + 1], isChoice) == PropsIds(props[..i], isChoice) + PropIds(props[i], isChoice)
  {
    if i == 0 {
      assert props[..1][1..] == [] && PropsIds([], isChoice) == {};
    } else {
      PropsIdsPrefix(props[1..], isChoice, i - 1);
      assert props[..i + 1][1..] == props[1..][..i] && props[..i][1..] == props[1..][..i - 1];
      assert props[..i + 1][0] == props[0] && props[..i][0] == props[0];
    }
  }

  lemma CleanBelow(cfg: seq<Definition>, a: nat, x: nat)
    requires Clean(cfg, a) && Reaches(cfg, a, x)
    ensures Clean(cfg, x)
  {
    forall b | Reaches(cfg, x, b) ensures !OnCycle(cfg, b) {
      ReachesTransitive(cfg, a, x, b);
    }
  }

  lemma OnCycleIsId(cfg: seq<Definition>, a: nat)
    ensures OnCycle(cfg, a) ==> a in Ids(cfg)
  {
    if OnCycle(cfg, a) {
      var p :| From(cfg, p, a, a) && |p| > 1;
      assert Edge(cfg, p[0], p[1]);
    }
  }

  // No cycle means that the symbols can be ranked, which is what the evaluator needs.

  ghost function Below(cfg: seq<Definition>, a: nat): set<nat> {
    set b | b in Ids(cfg) && Reaches(cfg, a, b)
  }

  lemma {:induction false} WalkDescends(cfg: seq<Definition>, rank: seq<nat>, p: seq<nat>)
    requires Ranked(cfg, rank) && Walk(cfg, p) && |p| > 1
    ensures p[0] < |rank| && p[|p| - 1] < |rank| && rank[p[|p| - 1]] < rank[p[0]]
    decreases |p|
  {
    assert Edge(cfg, p[0], p[1]);
    assert RankBelow(rank, p[1], rank[p[0]]);
    if |p| > 2 {
      var q := p[1..];
      forall i | 0 <= i < |q| - 1 ensures Edge(cfg, q[i], q[i + 1]) {
        assert Edge(cfg, p[i + 1], p[i + 2]);
      }
      WalkDescends(cfg, rank, q);
    }
  }

  /** The evaluator's condition, that the symbols can be ranked, holds exactly when the
      check finds nothing to report. */
  lemma RankedIffNoCycle(cfg: seq<Definition>)
    requires Closed(cfg)
    ensures (exists rank :: Ranked(cfg, rank)) <==> !exists a :: OnCycle(cfg, a)
  {
    if rank :| Ranked(cfg, rank) {
      forall a | OnCycle(cfg, a) ensures false {
        var p :| From(cfg, p, a, a) && |p| > 1;
        WalkDescends(cfg, rank, p);
      }
    }
    if !exists a :: OnCycle(cfg, a) {
      var rank := seq(|cfg|, i requires 0 <= i < |cfg| => |Below(cfg, i)|);
      forall i, d | 0 <= i < |cfg| && d in Deps(cfg[i]) ensures RankBelow(rank, d, rank[i]) {
        assert Edge(cfg, i, d) && d in Ids(cfg);
        forall b | b in Below(cfg, d) ensures b in Below(cfg, i) {
          ReachesThrough(cfg, i, d, b);
        }
        ReachesSelf(cfg, i);
        if i in Below(cfg, d) { ReachesThrough(cfg, i, d, i); }
        assert Below(cfg, d) < Below(cfg, i);
        StrictlyFewer(Below(cfg, d), Below(cfg, i));
      }
      assert Ranked(cfg, rank);
    }
  }

  lemma StrictlyFewer(A: set<nat>, B: set<nat>)
    requires A < B
    ensures |A| < |B|
  {
    var x :| x in B && x !in A;
    var C := B - A;
    assert B == A + C && A !! C && x in C;
    assert |B| == |A| + |C|;
    assert |C| > 0;
  }

  /** What the check is for: without choices, the evaluator can be set up exactly when the
      check reports nothing. */
  lemma ValidIffNoCycle(cfg: seq<Definition>, modules: Tri, user: seq<Setting>)
    requires WellFormed(cfg) && NoChoice(cfg) && |user| == |cfg|
    ensures (exists rank :: Setup(cfg, rank, modules, user).Valid()) <==> !exists a :: OnCycle(cfg, a)
  {
    WellFormedClosed(cfg);
    RankedIffNoCycle(cfg);
    if rank :| Ranked(cfg, rank) {
      assert Setup(cfg, rank, modules, user).Valid();
    }
  }
}
