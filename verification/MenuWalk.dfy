/** The walk over the menu tree in conf_write, which follows list, next and parent instead
    of recursing. */
module MenuWalk {
  import opened Expr
  import opened Menu

  /** Where a walk stands: inside the menu id, whose later siblings are rest, and so on
      outwards up to the root menu. */
  datatype Context = Top(root: nat) | Inside(id: nat, rest: Forest, outer: Context)

  function Innermost(c: Context): nat { if c.Top? then c.root else c.id }

  /** The store agrees: next and parent lead out of each menu as the context says. */
  predicate Leads(nodes: seq<Node>, c: Context) {
    match c
    case Top(root) => root < |nodes| && nodes[root].next == None && nodes[root].parent == None
    case Inside(id, rest, outer) =>
      id < |nodes| && nodes[id].parent == Some(Innermost(outer)) &&
      Seg(nodes, nodes[id].next, Some(Innermost(outer)), rest, None) && Leads(nodes, outer)
  }

  function Later(c: Context): seq<nat> { if c.Top? then [] else PreOrder(c.rest) + Later(c.outer) }

  function LaterCount(c: Context): nat { if c.Top? then 0 else Count(c.rest) + LaterCount(c.outer) }

  /** conf_write visits every entry below the root, in the order of the recursive traversal. */
  method Walk(nodes: seq<Node>, root: nat, ghost f: Forest) returns (visited: seq<nat>)
    requires root < |nodes| && nodes[root].next == None && nodes[root].parent == None
    requires Seg(nodes, nodes[root].list, Some(root), f, None)
    ensures visited == PreOrder(f)
  {
    visited := [];
    ghost var cur, ctx := f, Context.Top(root);
    var menu := nodes[root].list;
    while menu.Some?
      invariant Seg(nodes, menu, Some(Innermost(ctx)), cur, None) && Leads(nodes, ctx)
      invariant cur.Nil? ==> Remaining(cur, ctx) == []
      invariant visited + Remaining(cur, ctx) == PreOrder(f)
      decreases Count(cur) + LaterCount(ctx)
    {
      var m := menu.value;
      ghost var before := visited;
      visited := visited + [m];
      Visit(before, cur, ctx);
      ghost var inner := Inside(m, cur.rest, ctx);
      if nodes[m].list.Some? {
        menu := nodes[m].list;
        ctx, cur := inner, cur.kids;
      } else if nodes[m].next.Some? {
        assert cur.kids.Nil?;
        menu := nodes[m].next;
        cur := cur.rest;
      } else {
        assert cur.kids.Nil? && cur.rest.Nil?;
        menu, cur, ctx := Climb(nodes, m, inner);
      }
    }
  }

  /** What is still to be visited. */
  function Remaining(cur: Forest, ctx: Context): seq<nat> { PreOrder(cur) + Later(ctx) }

  lemma Visit(before: seq<nat>, cur: Forest, ctx: Context)
    requires cur.Entry?
    ensures before + Remaining(cur, ctx) == before + [cur.id] + Remaining(cur.kids, Inside(cur.id, cur.rest, ctx))
    ensures cur.kids.Nil? ==>
      Remaining(cur.kids, Inside(cur.id, cur.rest, ctx)) == Remaining(cur.rest, ctx)
      == Later(Inside(cur.id, cur.rest, ctx))
  {
    Regroup(before, [cur.id], PreOrder(cur.kids), PreOrder(cur.rest), Later(ctx));
  }

  lemma Regroup(b: seq<nat>, i: seq<nat>, k: seq<nat>, r: seq<nat>, l: seq<nat>)
    ensures b + (i + k + r + l) == b + i + (k + (r + l))
  {}

  /** The inner loop: up through the parents to the first menu that has a next one. */
  method Climb(nodes: seq<Node>, m: nat, ghost inner: Context) returns (menu: Ptr, ghost cur: Forest, ghost ctx: Context)
    requires inner.Inside? && inner.id == m && inner.rest.Nil? && Leads(nodes, inner)
    ensures Leads(nodes, ctx) && Seg(nodes, menu, Some(Innermost(ctx)), cur, None)
    ensures menu.Some? <==> cur.Entry?
    ensures cur.Nil? ==> Remaining(cur, ctx) == []
    ensures Remaining(cur, ctx) == Later(inner)
    ensures Count(cur) + LaterCount(ctx) == LaterCount(inner)
  {
    ctx, cur := inner.outer, Nil;
    menu := nodes[m].parent;
    while menu.Some?
      invariant Leads(nodes, ctx) && Later(ctx) == Later(inner) && LaterCount(ctx) == LaterCount(inner)
      invariant if menu.Some? then menu.value == Innermost(ctx) else ctx.Top?
      decreases ctx, if menu.Some? then 1 else 0
    {
      if nodes[menu.value].next.Some? {
        menu := nodes[menu.value].next;
        cur, ctx := ctx.rest, ctx.outer;
        return;
      }
      menu := nodes[menu.value].parent;
      if ctx.Inside? {
        assert ctx.rest.Nil?;
        ctx := ctx.outer;
      }
    }
  }
}
