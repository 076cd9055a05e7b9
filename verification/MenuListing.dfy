/** From parsing to writing: the menu tree is built, finalised and walked. */
module MenuListing {
  import opened Expr
  import opened Menu
  import opened MenuFinalize
  import MenuBuild
  import MenuStore
  import MenuWalk

  /** conf_write lists the entries in the order in which the source has them, whatever
      menu_finalize found to nest or to flatten. */
  method FinalizeAndList(b: MenuBuild.MenuBuilder, facts: Facts) returns (visited: seq<nat>)
    requires b.Valid()
    ensures visited == MenuBuild.CountUp(|b.nodes|)
  {
    ghost var f := Entry(0, MenuBuild.Whole(b.zip), Nil);
    b.Built(facts);
    var store := new MenuStore.MenuStore(facts, b.nodes);
    store.MenuFinalize(0, None, f);
    ghost var g := FinalizeEntry(facts, f);
    RootAlone(facts, f);
    visited := MenuWalk.Walk(store.nodes, 0, g.kids);
    assert PreOrder(g) == [0] + PreOrder(g.kids);
    assert PreOrder(g)[1..] == visited;
  }

  /** The root menu has nothing behind it. */
  lemma RootAlone(k: Facts, f: Forest)
    requires f.Entry? && f.rest.Nil?
    ensures FinalizeEntry(k, f).id == f.id && FinalizeEntry(k, f).rest.Nil?
  {}
}
