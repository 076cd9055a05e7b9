/** The end of conf_parse and what follows it: once nothing is reported, symbols can be
    calculated. */
module ConfParse {
  import opened Tristate
  import opened Expr
  import opened Configuration
  import CheckDeps
  import Evaluator

  /** The symbol is marked valid and holds its value. */
  ghost predicate Calculated(e: Evaluator.Evaluator, id: nat)
    reads e
  {
    e.Now().Valid() && id < |e.cache| == |e.cfg| && e.cache[id].valid && e.Matches(id)
  }

  /** The check of conf_parse, then sym_calc_value on one symbol after another. A recursive
      dependency is reported if there is one; otherwise every symbol asked for gets its value. */
  method CheckAndCalculate(cfg: seq<Definition>, order: seq<nat>, modules: Tri, user: seq<Setting>, asked: seq<Symbol>)
      returns (reported: bool, evaluator: Option<Evaluator.Evaluator>)
    requires WellFormed(cfg) && NoChoice(cfg) && |user| == |cfg|
    requires forall i :: i in order <==> i in CheckDeps.Ids(cfg)
    requires forall x | x in asked :: ResolvedSymbol(cfg, x)
    ensures reported <==> exists a :: CheckDeps.OnCycle(cfg, a)
    ensures evaluator.Some? == !reported
    ensures evaluator.Some? ==>
      && evaluator.value.cfg == cfg && evaluator.value.modules == modules && evaluator.value.user == user
      && evaluator.value.Coherent({})
      && forall x | x in asked && x.Config? :: Calculated(evaluator.value, x.id)
  {
    CheckDeps.WellFormedClosed(cfg);
    var checker := new CheckDeps.Checker(cfg);
    reported := checker.ReportRecursion(order);
    evaluator := None;
    if reported {
      return;
    }
    CheckDeps.ValidIffNoCycle(cfg, modules, user);
    ghost var rank :| Setup(cfg, rank, modules, user).Valid();
    var e := new Evaluator.Evaluator(cfg, rank, modules, user);
    for i := 0 to |asked|
      invariant e.cfg == cfg && e.modules == modules && e.user == user && e.rank == rank && e.Coherent({})
      invariant forall x | x in asked[..i] && x.Config? :: Calculated(e, x.id)
    {
      assert asked[i] in asked && asked[..i + 1] == asked[..i] + [asked[i]];
      e.SymCalcValue(asked[i], {});
    }
    assert asked[..|asked|] == asked;
    evaluator := Some(e);
  }
}
