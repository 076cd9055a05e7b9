/** menu_finalize on the pointers themselves. */
module MenuStore {
  import opened Expr
  import opened Menu
  import opened MenuFinalize

  /** A chain in two parts: done, up to the pointer mid, and cur from there on. The parents
      of the two parts may differ. */
  ghost predicate Parts(nodes: seq<Node>, head: Ptr, par: Ptr, done: Forest, mid: Ptr, par': Ptr, cur: Forest) {
    Seg(nodes, head, par, done, mid) && Seg(nodes, mid, par', cur, None) && Distinct(Append(done, cur))
  }

  /** The next entry joins the first part. */
  lemma Advance(nodes: seq<Node>, head: Ptr, par: Ptr, done: Forest, mid: Ptr, par': Ptr, cur: Forest)
    requires Seg(nodes, head, par, done, mid) && Distinct(Append(done, cur))
    requires cur.Entry? && mid == Some(cur.id) && Seg(nodes, mid, par, Single(cur), NextOf(nodes, cur.id))
    requires Seg(nodes, NextOf(nodes, cur.id), par', cur.rest, None)
    ensures Parts(nodes, head, par, Append(done, Single(cur)), NextOf(nodes, cur.id), par', cur.rest)
    ensures Append(Append(done, Single(cur)), cur.rest) == Append(done, cur)
    ensures LastId(Append(done, Single(cur))) == cur.id
    ensures PreOrder(Append(done, Single(cur))) == PreOrder(done) + PreOrder(Single(cur))
  {
    SegAppend(nodes, head, par, done, mid, Single(cur), NextOf(nodes, cur.id));
    AppendAssoc(done, Single(cur), cur.rest);
    AppendLaws(done, Single(cur));
    LastOfAppend(done, Single(cur));
  }

  function HeadPtr(f: Forest): Ptr { if f.Nil? then None else Some(f.id) }

  function NextOf(nodes: seq<Node>, id: nat): Ptr { if id < |nodes| then nodes[id].next else None }

  /** The second part is replaced by a chain of the same entries. */
  lemma Replace(n0: seq<Node>, n1: seq<Node>, head: Ptr, par: Ptr, done: Forest, mid: Ptr, par': Ptr, cur: Forest, g: Forest)
    requires Parts(n0, head, par, done, mid, par', cur)
    requires SameBut(n0, n1, Ids(cur)) && Ids(g) == Ids(cur) && Distinct(g)
    ensures Seg(n1, head, par, done, mid) && Distinct(Append(done, g))
    ensures Ids(Append(done, g)) == Ids(Append(done, cur))
  {
    AppendLaws(done, cur);
    AppendLaws(done, g);
    SegFrame(n0, n1, Ids(cur), head, par, done, mid);
  }

  /** Changing one entry outside a chain. */
  lemma SetOutside(nodes: seq<Node>, i: nat, x: Node, ptr: Ptr, par: Ptr, f: Forest, end: Ptr)
    requires Seg(nodes, ptr, par, f, end) && i < |nodes| && i !in Ids(f)
    ensures Seg(nodes[i := x], ptr, par, f, end)
  {
    SegFrame(nodes, nodes[i := x], {i}, ptr, par, f, end);
  }

  lemma SameButTransitive(a: seq<Node>, b: seq<Node>, c: seq<Node>, ids: set<nat>, ids': set<nat>)
    requires SameBut(a, b, ids) && SameBut(b, c, ids') && ids' <= ids
    ensures SameBut(a, c, ids)
  {}

  lemma HasKids(nodes: seq<Node>, ptr: Ptr, par: Ptr, f: Forest, end: Ptr)
    requires Seg(nodes, ptr, par, f, end) && f.Entry?
    ensures f.id < |nodes| && (nodes[f.id].list.Some? <==> f.kids.Entry?)
  {
    assert Seg(nodes, nodes[f.id].list, Some(f.id), f.kids, None);
  }

  /** The first entry of a chain gets another parent. */
  lemma TakeOver(nodes: seq<Node>, p: nat, par: Ptr, g: Forest)
    requires g.Entry? && Distinct(g) && Seg(nodes, Some(g.id), par, g, None)
    ensures var n := nodes[g.id := nodes[g.id].(parent := Some(p))];
      && SameBut(nodes, n, {g.id})
      && Seg(n, Some(g.id), Some(p), Single(g), NextOf(n, g.id))
      && Seg(n, NextOf(n, g.id), par, g.rest, None)
  {
    SetOutside(nodes, g.id, nodes[g.id].(parent := Some(p)), nodes[g.id].list, Some(g.id), g.kids, None);
    SetOutside(nodes, g.id, nodes[g.id].(parent := Some(p)), nodes[g.id].next, par, g.rest, None);
  }

  /** What Adopt comes to when the run taken has been taken and cur is left. */
  function Resumed(k: Facts, p: nat, taken: Forest, cur: Forest): Split {
    Split(Append(taken, Adopt(k, p, cur).taken), Adopt(k, p, cur).left)
  }

  lemma AdoptStep(k: Facts, p: nat, taken: Forest, cur: Forest, calls: seq<nat>)
    requires cur.Entry? && k.test(p, cur.id)
    ensures var g := FinalizeEntry(k, cur);
      && Resumed(k, p, taken, cur) == Resumed(k, p, Append(taken, Single(g)), g.rest)
      && calls + PreOrder(taken) + PreOrder(Single(g)) == calls + PreOrder(Append(taken, Single(g)))
      && Append(taken, Single(g)).Entry? && Count(g.rest) < Count(cur)
  {
    var g := FinalizeEntry(k, cur);
    AppendAssoc(taken, Single(g), Adopt(k, p, g.rest).taken);
    AppendLaws(taken, Single(g));
    Assoc(calls, PreOrder(taken), PreOrder(Single(g)));
  }

  /** One round of the last loop: c has become cur, which may have lost its children. */
  lemma FlattenStep(k: Facts, n0: seq<Node>, n1: seq<Node>, head: Ptr, p: nat, done: Forest, mid: Ptr, c: Forest, cur: Forest)
    requires Parts(n0, head, Some(p), done, mid, Some(p), c) && c.Entry? && cur.Entry? && cur.id == c.id
    requires Seg(n1, mid, Some(p), cur, None) && SameBut(n0, n1, Ids(c)) && Ids(cur) == Ids(c) && Distinct(cur)
    requires Flatten(k, c) == Entry(cur.id, cur.kids, Flatten(k, cur.rest))
    ensures Parts(n1, head, Some(p), Append(done, Single(cur)), NextOf(n1, cur.id), Some(p), cur.rest)
    ensures Ids(Append(Append(done, Single(cur)), cur.rest)) == Ids(Append(done, c))
    ensures Append(Append(done, Single(cur)), Flatten(k, cur.rest)) == Append(done, Flatten(k, c))
  {
    Replace(n0, n1, head, Some(p), done, mid, Some(p), c, cur);
    Advance(n1, head, Some(p), done, mid, Some(p), cur);
    AppendAssoc(done, Single(cur), Flatten(k, cur.rest));
  }

  lemma Assoc(a: seq<nat>, b: seq<nat>, c: seq<nat>)
    ensures a + b + c == a + (b + c)
  {}

  class MenuStore {
    const facts: Facts
    var nodes: seq<Node>
    /** The menus on which menu_finalize has been called, in this order. */
    ghost var calls: seq<nat>

    constructor (facts: Facts, nodes: seq<Node>)
      ensures this.facts == facts && this.nodes == nodes && calls == []
    {
      this.facts, this.nodes := facts, nodes;
      calls := [];
    }

    /** menu_finalize(p), where f is p with everything below it and its later siblings.
        The pointers become those of the finalised tree, no other menu is touched, and
        every menu at or below p has been finalised exactly once, in the order of entries. */
    method MenuFinalize(p: nat, ghost par: Ptr, ghost f: Forest)
      requires Seg(nodes, Some(p), par, f, None) && f.Entry? && Distinct(f)
      modifies this
      ensures Seg(nodes, Some(p), par, FinalizeEntry(facts, f), None)
      ensures Distinct(FinalizeEntry(facts, f)) && Ids(FinalizeEntry(facts, f)) == Ids(f)
      ensures SameBut(old(nodes), nodes, Ids(f))
      ensures calls == old(calls) + PreOrder(Single(FinalizeEntry(facts, f)))
      decreases Count(f), 3
    {
      ghost var g := Gather(facts, f);
      Assoc(calls, [p], PreOrder(g.kids));
      calls := calls + [p];
      GatherOrder(facts, f);
      SameOrder(f, g);
      Collect(p, par, f);
      FlattenOrder(facts, g.kids);
      FinalizeOrder(facts, f);
      SameOrder(f, FinalizeEntry(facts, f));
      FlattenChildren(p, par, g);
    }

    /** The first part of menu_finalize. */
    method Collect(p: nat, ghost par: Ptr, ghost f: Forest)
      requires Seg(nodes, Some(p), par, f, None) && f.Entry? && Distinct(f)
      modifies this
      ensures Seg(nodes, Some(p), par, Gather(facts, f), None)
      ensures SameBut(old(nodes), nodes, Ids(f))
      ensures calls == old(calls) + PreOrder(Gather(facts, f).kids)
      decreases Count(f), 2
    {
      if nodes[p].list.Some? {
        ghost var n0 := nodes;
        FinalizeChildren(p, f.kids);
        SegFrame(n0, nodes, Ids(f.kids), n0[p].next, par, f.rest, None);
      } else if facts.hasSym(p) {
        AdoptFollowers(p, par, f.rest);
      }
    }

    /** The loop that finalises the children of p. */
    method FinalizeChildren(p: nat, ghost kids: Forest)
      requires p < |nodes| && Seg(nodes, nodes[p].list, Some(p), kids, None)
      requires Distinct(kids) && p !in Ids(kids)
      modifies this
      ensures |nodes| == |old(nodes)| && Seg(nodes, nodes[p].list, Some(p), FinalizeAll(facts, kids), None)
      ensures SameBut(old(nodes), nodes, Ids(kids))
      ensures calls == old(calls) + PreOrder(FinalizeAll(facts, kids))
      decreases Count(kids), 4
    {
      ghost var n0, head, done, cur := nodes, nodes[p].list, Nil, kids;
      var menu := nodes[p].list;
      while menu.Some?
        invariant SameBut(n0, nodes, Ids(kids))
        invariant Parts(nodes, head, Some(p), done, menu, Some(p), cur) && Ids(Append(done, cur)) == Ids(kids)
        invariant Append(done, FinalizeAll(facts, cur)) == FinalizeAll(facts, kids)
        invariant calls == old(calls) + PreOrder(done) && Count(cur) <= Count(kids)
        decreases Count(cur)
      {
        ghost var n1, g := nodes, FinalizeEntry(facts, cur);
        AppendLaws(done, cur);
        MenuFinalize(menu.value, Some(p), cur);
        SameButTransitive(n0, n1, nodes, Ids(kids), Ids(cur));
        Replace(n1, nodes, head, Some(p), done, menu, Some(p), cur, g);
        Advance(nodes, head, Some(p), done, menu, Some(p), g);
        Assoc(old(calls), PreOrder(done), PreOrder(Single(g)));
        AppendAssoc(done, Single(g), FinalizeAll(facts, g.rest));
        menu := nodes[menu.value].next;
        done, cur := Append(done, Single(g)), g.rest;
      }
      AppendNil(done);
    }

    /** The entries after p up to the first that fails a test become its children. */
    method AdoptFollowers(p: nat, ghost par: Ptr, ghost rest: Forest)
      requires Seg(nodes, Some(p), par, Entry(p, Nil, rest), None) && Distinct(Entry(p, Nil, rest))
      modifies this
      ensures Seg(nodes, Some(p), par, Entry(p, Adopt(facts, p, rest).taken, Adopt(facts, p, rest).left), None)
      ensures SameBut(old(nodes), nodes, {p} + Ids(rest))
      ensures calls == old(calls) + PreOrder(Adopt(facts, p, rest).taken)
      decreases Count(rest), 6
    {
      ghost var n0, s := nodes, Adopt(facts, p, rest);
      var lastMenu := TakeRun(p, par, rest);
      AppendLaws(s.taken, s.left);
      if lastMenu.Some? {
        ghost var n1 := nodes;
        Relink(p, lastMenu.value, par, s.taken, s.left, HeadPtr(s.left));
        assert forall i | 0 <= i < |n0| && i !in {p} + Ids(rest) :: n0[i] == n1[i] && n1[i] == nodes[i];
      }
    }

    /** The loop over the entries after p: each one that passes is finalised and gets the
        parent p; the last of them is returned. */
    method TakeRun(p: nat, ghost par: Ptr, ghost rest: Forest) returns (lastMenu: Ptr)
      requires p < |nodes| && Seg(nodes, nodes[p].next, par, rest, None) && Distinct(rest) && p !in Ids(rest)
      modifies this
      ensures var s := Adopt(facts, p, rest);
        && |nodes| == |old(nodes)|
        && Parts(nodes, nodes[p].next, Some(p), s.taken, HeadPtr(s.left), par, s.left)
        && Ids(Append(s.taken, s.left)) == Ids(rest)
        && lastMenu == (if s.taken.Nil? then None else Some(LastId(s.taken)))
        && calls == old(calls) + PreOrder(s.taken)
      ensures SameBut(old(nodes), nodes, Ids(rest))
      decreases Count(rest), 5
    {
      ghost var n0, head, taken, cur := nodes, nodes[p].next, Nil, rest;
      var menu := nodes[p].next;
      lastMenu := None;
      while menu.Some? && facts.test(p, menu.value)
        invariant SameBut(n0, nodes, Ids(rest))
        invariant Parts(nodes, head, Some(p), taken, menu, par, cur) && Ids(Append(taken, cur)) == Ids(rest)
        invariant Adopt(facts, p, rest) == Resumed(facts, p, taken, cur)
        invariant lastMenu == if taken.Nil? then None else Some(LastId(taken))
        invariant calls == old(calls) + PreOrder(taken) && Count(cur) <= Count(rest)
        decreases Count(cur)
      {
        ghost var n1, g := nodes, FinalizeEntry(facts, cur);
        AppendLaws(taken, cur);
        TakeOne(p, menu.value, par, head, taken, cur);
        SameButTransitive(n0, n1, nodes, Ids(rest), Ids(cur));
        AdoptStep(facts, p, taken, cur, old(calls));
        lastMenu := menu;
        menu := nodes[menu.value].next;
        taken, cur := Append(taken, Single(g)), g.rest;
      }
      AppendNil(taken);
    }

    /** The body of that loop: m is finalised and gets the parent p. */
    method TakeOne(p: nat, m: nat, ghost par: Ptr, ghost head: Ptr, ghost taken: Forest, ghost cur: Forest)
      requires Parts(nodes, head, Some(p), taken, Some(m), par, cur) && cur.Entry?
      modifies this
      ensures var g := FinalizeEntry(facts, cur);
        && Parts(nodes, head, Some(p), Append(taken, Single(g)), NextOf(nodes, m), par, g.rest)
        && Ids(Append(Append(taken, Single(g)), g.rest)) == Ids(Append(taken, cur))
        && LastId(Append(taken, Single(g))) == m
        && PreOrder(Append(taken, Single(g))) == PreOrder(taken) + PreOrder(Single(g))
        && calls == old(calls) + PreOrder(Single(g))
      ensures SameBut(old(nodes), nodes, Ids(cur))
      decreases Count(cur), 4
    {
      ghost var n1, g := nodes, FinalizeEntry(facts, cur);
      AppendLaws(taken, cur);
      MenuFinalize(m, par, cur);
      ghost var n2 := nodes;
      TakeOver(n2, p, par, g);
      nodes := nodes[m := nodes[m].(parent := Some(p))];
      SameButTransitive(n1, n2, nodes, Ids(cur), {g.id});
      Replace(n1, nodes, head, Some(p), taken, Some(m), par, cur, g);
      Advance(nodes, head, Some(p), taken, Some(m), par, g);
    }

    /** The chain after p is cut behind last; what was cut off becomes the children of p. */
    method Relink(p: nat, last: nat, ghost par: Ptr, ghost taken: Forest, ghost left: Forest, ghost mid: Ptr)
      requires p < |nodes| && nodes[p].parent == par && taken.Entry? && last == LastId(taken)
      requires Parts(nodes, nodes[p].next, Some(p), taken, mid, par, left) && p !in Ids(Append(taken, left))
      modifies this`nodes
      ensures Seg(nodes, Some(p), par, Entry(p, taken, left), None)
      ensures SameBut(old(nodes), nodes, {p} + Ids(taken))
    {
      ghost var n0, head := nodes, nodes[p].next;
      AppendLaws(taken, left);
      LastInIds(taken);
      SegRetarget(n0, head, Some(p), taken, mid, None);
      nodes := nodes[p := nodes[p].(list := nodes[p].next)];
      nodes := nodes[p := nodes[p].(next := nodes[last].next)];
      nodes := nodes[last := nodes[last].(next := None)];
      SegFrame(n0[last := n0[last].(next := None)], nodes, {p}, head, Some(p), taken, None);
      SegFrame(n0, nodes, {p} + Ids(taken), mid, par, left, None);
    }

    /** The last loop of menu_finalize, over the children of p. */
    method FlattenChildren(p: nat, ghost par: Ptr, ghost g: Forest)
      requires Seg(nodes, Some(p), par, g, None) && g.Entry? && Distinct(g)
      modifies this`nodes
      ensures Seg(nodes, Some(p), par, Entry(p, Flatten(facts, g.kids), g.rest), None)
      ensures SameBut(old(nodes), nodes, Ids(g.kids))
    {
      ghost var n0, head, kids, done, cur := nodes, nodes[p].list, g.kids, Nil, g.kids;
      var menu := nodes[p].list;
      while menu.Some?
        invariant SameBut(n0, nodes, Ids(kids))
        invariant Parts(nodes, head, Some(p), done, menu, Some(p), cur) && Ids(Append(done, cur)) == Ids(kids)
        invariant Append(done, Flatten(facts, cur)) == Flatten(facts, kids)
        decreases Count(cur)
      {
        ghost var n1, c := nodes, cur;
        AppendLaws(done, c);
        AppendLaws(c.kids, c.rest);
        HasKids(nodes, menu, Some(p), c, None);
        if nodes[menu.value].list.Some? && !facts.prompted(menu.value) {
          LiftChildren(p, menu.value, c);
          cur := Entry(c.id, Nil, Append(c.kids, c.rest));
        }
        SameButTransitive(n0, n1, nodes, Ids(kids), Ids(c));
        FlattenStep(facts, n1, nodes, head, p, done, menu, c, cur);
        menu := nodes[menu.value].next;
        done, cur := Append(done, Single(cur)), cur.rest;
      }
      AppendNil(done);
      SegFrame(n0, nodes, Ids(kids), nodes[p].next, par, g.rest, None);
    }

    /** The children of m, a child of p, move up behind it. */
    method LiftChildren(p: nat, m: nat, ghost f: Forest)
      requires Seg(nodes, Some(m), Some(p), f, None) && f.Entry? && f.kids.Entry? && Distinct(f)
      modifies this`nodes
      ensures Seg(nodes, Some(m), Some(p), Entry(m, Nil, Append(f.kids, f.rest)), None)
      ensures SameBut(old(nodes), nodes, Ids(f))
    {
      ghost var n0, head, after := nodes, nodes[m].list, nodes[m].next;
      var lastMenu := Reparent(p, m, f.kids);
      ghost var n1 := nodes;
      SegFrame(n0, n1, Ids(f.kids), after, Some(p), f.rest, None);
      LastInIds(f.kids);
      SegRetarget(n1, head, Some(p), f.kids, None, after);
      nodes := nodes[lastMenu := nodes[lastMenu].(next := nodes[m].next)];
      SegFrame(n1, nodes, Ids(f.kids), after, Some(p), f.rest, None);
      SegAppend(nodes, head, Some(p), f.kids, after, f.rest, None);
      ghost var n2 := nodes;
      nodes := nodes[m := nodes[m].(next := nodes[m].list)];
      nodes := nodes[m := nodes[m].(list := None)];
      AppendLaws(f.kids, f.rest);
      SegFrame(n2, nodes, {m}, head, Some(p), Append(f.kids, f.rest), None);
    }

    /** Every child of m gets the parent p; the last one is returned. */
    method Reparent(p: nat, m: nat, ghost kids: Forest) returns (lastMenu: nat)
      requires m < |nodes| && Seg(nodes, nodes[m].list, Some(m), kids, None)
      requires kids.Entry? && Distinct(kids) && m !in Ids(kids)
      modifies this`nodes
      ensures |nodes| == |old(nodes)| && Seg(nodes, old(nodes)[m].list, Some(p), kids, None)
      ensures SameBut(old(nodes), nodes, Ids(kids))
      ensures lastMenu == LastId(kids)
    {
      ghost var n0, head, done, cur := nodes, nodes[m].list, Nil, kids;
      lastMenu := nodes[m].list.value;
      while true
        invariant SameBut(n0, nodes, Ids(kids)) && cur.Entry? && lastMenu == cur.id
        invariant Parts(nodes, head, Some(p), done, Some(lastMenu), Some(m), cur)
        invariant Append(done, cur) == kids
        decreases Count(cur)
      {
        ghost var n1 := nodes;
        AppendLaws(done, cur);
        SetOutside(nodes, cur.id, nodes[cur.id].(parent := Some(p)), head, Some(p), done, Some(cur.id));
        TakeOver(nodes, p, Some(m), cur);
        nodes := nodes[lastMenu := nodes[lastMenu].(parent := Some(p))];
        Advance(nodes, head, Some(p), done, Some(lastMenu), Some(m), cur);
        if nodes[lastMenu].next.None? {
          break;
        }
        done, cur := Append(done, Single(cur)), cur.rest;
        lastMenu := nodes[lastMenu].next.value;
      }
      AppendNil(Append(done, Single(cur)));
    }
  }
}
