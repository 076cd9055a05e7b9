/** Where menu_finalize puts each entry, told by the tests and the tree it starts from: the
    following siblings that are taken over, and the menus that keep their children. */
module MenuNesting {
  import opened Expr
  import opened Menu
  import opened MenuFinalize

  // Chains of siblings.

  function Length(f: Forest): nat { if f.Nil? then 0 else 1 + Length(f.rest) }

  function Take(f: Forest, n: nat): (g: Forest)
    ensures Count(g) <= Count(f) && (n <= Length(f) ==> Length(g) == n)
  {
    if n == 0 || f.Nil? then Nil else Entry(f.id, f.kids, Take(f.rest, n - 1))
  }

  function Drop(f: Forest, n: nat): (g: Forest)
    ensures Count(g) <= Count(f) && (n <= Length(f) ==> Length(g) == Length(f) - n)
  {
    if n == 0 || f.Nil? then f else Drop(f.rest, n - 1)
  }

  /** How many siblings behind the first entry of f end up below it. */
  function Span(k: Facts, f: Forest): (n: nat)
    requires f.Entry?
    ensures n <= Length(f.rest)
    decreases Length(f), 0
  {
    if f.kids.Nil? && k.hasSym(f.id) then Follows(k, f.id, f.rest) else 0
  }

  /** How many entries at the head of f the entry p takes over: one that passes brings those
      that end up below it, and then the next is tested. */
  function Follows(k: Facts, p: nat, f: Forest): (n: nat)
    ensures n <= Length(f)
    decreases Length(f), 1
  {
    if f.Nil? || !k.test(p, f.id) then 0
    else
      var n := 1 + Span(k, f);
      n + Follows(k, p, Drop(f, n))
  }

  /** What ends up below the first entry of f, with every menu still holding its own. */
  function Nested(k: Facts, f: Forest): Forest
    requires f.Entry?
    decreases Count(f), 0
  {
    if f.kids.Entry? then Levels(k, f.kids) else Levels(k, Take(f.rest, Span(k, f)))
  }

  function Levels(k: Facts, f: Forest): Forest
    decreases Count(f), 1
  {
    if f.Nil? then Nil else Entry(f.id, Nested(k, f), Levels(k, Drop(f.rest, Span(k, f))))
  }

  /** Menus without a prompt text hand their children on. */
  function Lift(k: Facts, f: Forest): Forest {
    if f.Nil? then Nil
    else if k.prompted(f.id) then Entry(f.id, Lift(k, f.kids), Lift(k, f.rest))
    else Entry(f.id, Nil, Append(Lift(k, f.kids), Lift(k, f.rest)))
  }

  /** As Lift, but the entries of the chain itself still hold their children. */
  function LiftBelow(k: Facts, f: Forest): Forest {
    if f.Nil? then Nil else Entry(f.id, Lift(k, f.kids), LiftBelow(k, f.rest))
  }

  // What is taken does not depend on what comes after it.

  lemma {:induction false} DropTake(f: Forest, m: nat, n: nat)
    ensures Drop(Take(f, m + n), m) == Take(Drop(f, m), n)
    ensures Take(Take(f, m + n), m) == Take(f, m)
    decreases m
  {
    if m > 0 && f.Entry? { DropTake(f.rest, m - 1, n); }
  }

  lemma {:induction false} FollowsTake(k: Facts, p: nat, f: Forest, m: nat, t: Forest)
    requires m >= Follows(k, p, f) && t == Take(f, m)
    ensures Follows(k, p, t) == Follows(k, p, f)
    decreases Length(f), 1
  {
    if f.Entry? && k.test(p, f.id) {
      var n := 1 + Span(k, f);
      var d := Drop(f, n);
      SpanTake(k, f, m, t);
      FollowsTake(k, p, d, m - n, Take(d, m - n));
      DropTake(f, n, m - n);
      FollowsAlike(k, p, f, t, n, d, Take(d, m - n));
    }
  }

  lemma FollowsAlike(k: Facts, p: nat, f: Forest, t: Forest, n: nat, d: Forest, e: Forest)
    requires f.Entry? && t.Entry? && t.id == f.id && k.test(p, f.id) && 1 + Span(k, t) == 1 + Span(k, f) == n
    requires d == Drop(f, n) && e == Drop(t, n) && Follows(k, p, e) == Follows(k, p, d)
    ensures Follows(k, p, t) == Follows(k, p, f)
  {
    FollowsNext(k, p, f, n, d);
    FollowsNext(k, p, t, n, e);
  }

  lemma FollowsNext(k: Facts, p: nat, f: Forest, n: nat, d: Forest)
    requires f.Entry? && k.test(p, f.id) && 1 + Span(k, f) == n && d == Drop(f, n)
    ensures Follows(k, p, f) == n + Follows(k, p, d)
  {}

  lemma {:induction false} SpanTake(k: Facts, f: Forest, m: nat, t: Forest)
    requires f.Entry? && m >= 1 + Span(k, f) && t == Take(f, m)
    ensures t.Entry? && t.id == f.id && t.kids == f.kids && Span(k, t) == Span(k, f)
    decreases Length(f), 0
  {
    if f.kids.Nil? && k.hasSym(f.id) { FollowsTake(k, f.id, f.rest, m - 1, t.rest); }
  }

  lemma NestedTake(k: Facts, f: Forest, m: nat)
    requires f.Entry? && m >= 1 + Span(k, f)
    ensures Nested(k, Take(f, m)) == Nested(k, f)
  {
    SpanTake(k, f, m, Take(f, m));
    DropTake(f.rest, Span(k, f), m - 1 - Span(k, f));
  }

  // Flattening.

  lemma {:induction false} LiftSettles(k: Facts, f: Forest)
    ensures Settled(k, Lift(k, f)) && (Lift(k, f).Nil? <==> f.Nil?)
  {
    if f.Entry? {
      LiftSettles(k, f.kids);
      LiftSettles(k, f.rest);
      SettledAppend(k, Lift(k, f.kids), Lift(k, f.rest));
    }
  }

  lemma {:induction a} SettledAppend(k: Facts, a: Forest, b: Forest)
    requires Settled(k, a) && Settled(k, b)
    ensures Settled(k, Append(a, b))
  {}

  lemma {:induction false} FlattenBehind(k: Facts, a: Forest, b: Forest)
    requires Settled(k, a)
    ensures Flatten(k, Append(a, b)) == Append(a, Flatten(k, b))
    decreases a
  {
    if a.Entry? { FlattenBehind(k, a.rest, b); }
  }

  /** The last loop of menu_finalize, where everything below is lifted already. */
  lemma {:induction false} FlattenLifts(k: Facts, f: Forest)
    ensures Flatten(k, LiftBelow(k, f)) == Lift(k, f)
    decreases f
  {
    if f.Entry? {
      FlattenLifts(k, f.rest);
      LiftSettles(k, f.kids);
      FlattenBehind(k, Lift(k, f.kids), LiftBelow(k, f.rest));
    }
  }

  // The whole of menu_finalize.

  /** Main result: below an entry ends up what the tests nest there, handed on past menus
      without a prompt text, and exactly the siblings it spans are gone from behind it. */
  lemma {:induction false} FinalizeIs(k: Facts, f: Forest)
    requires f.Entry?
    ensures FinalizeEntry(k, f) == Entry(f.id, Lift(k, Nested(k, f)), Drop(f.rest, Span(k, f)))
    decreases Count(f), 3
  {
    if f.kids.Entry? {
      FinalizeAllIs(k, f.kids);
      FlattenLifts(k, Levels(k, f.kids));
    } else if k.hasSym(f.id) {
      AdoptIs(k, f.id, f.rest);
      FlattenLifts(k, Levels(k, Take(f.rest, Span(k, f))));
    }
  }

  lemma {:induction false} FinalizeAllIs(k: Facts, f: Forest)
    ensures FinalizeAll(k, f) == LiftBelow(k, Levels(k, f))
    decreases Count(f), 4
  {
    if f.Entry? {
      FinalizeIs(k, f);
      FinalizeAllIs(k, Drop(f.rest, Span(k, f)));
    }
  }

  /** The first n siblings are taken over, each with what it spans below it. */
  predicate AdoptsRun(k: Facts, p: nat, f: Forest, n: nat) {
    Adopt(k, p, f).taken == LiftBelow(k, Levels(k, Take(f, n))) && Adopt(k, p, f).left == Drop(f, n)
  }

  lemma {:induction false} AdoptIs(k: Facts, p: nat, f: Forest)
    ensures AdoptsRun(k, p, f, Follows(k, p, f))
    decreases Count(f), 4
  {
    if f.Entry? && k.test(p, f.id) {
      var rest := Drop(f.rest, Span(k, f));
      FinalizeIs(k, f);
      AdoptIs(k, p, rest);
      AdoptNext(k, p, f, rest, Span(k, f), Follows(k, p, rest));
    } else {
      assert Follows(k, p, f) == 0;
    }
  }

  lemma AdoptNext(k: Facts, p: nat, f: Forest, rest: Forest, m: nat, n: nat)
    requires f.Entry? && k.test(p, f.id) && m == Span(k, f) && rest == Drop(f.rest, m) && n == Follows(k, p, rest)
    requires FinalizeEntry(k, f) == Entry(f.id, Lift(k, Nested(k, f)), rest)
    requires AdoptsRun(k, p, rest, n)
    ensures Follows(k, p, f) == 1 + m + n && AdoptsRun(k, p, f, 1 + m + n)
  {
    AdoptHead(k, p, f, Nested(k, f), rest, Levels(k, Take(rest, n)), Drop(rest, n));
    FollowsHead(k, p, f, m, n);
    LevelsTake(k, f, m, n);
    DropBoth(f, m, n);
  }

  lemma AdoptHead(k: Facts, p: nat, f: Forest, nested: Forest, rest: Forest, levels: Forest, left: Forest)
    requires f.Entry? && k.test(p, f.id) && FinalizeEntry(k, f) == Entry(f.id, Lift(k, nested), rest)
    requires Adopt(k, p, rest) == Split(LiftBelow(k, levels), left)
    ensures Adopt(k, p, f) == Split(LiftBelow(k, Entry(f.id, nested, levels)), left)
  {}

  lemma DropBoth(f: Forest, m: nat, n: nat)
    requires f.Entry?
    ensures Drop(f, 1 + m + n) == Drop(Drop(f.rest, m), n)
  {
    DropDrop(f.rest, m, n);
    assert Drop(f, 1 + m + n) == Drop(f.rest, m + n);
  }

  lemma FollowsHead(k: Facts, p: nat, f: Forest, m: nat, n: nat)
    requires f.Entry? && k.test(p, f.id) && m == Span(k, f) && n == Follows(k, p, Drop(f.rest, m))
    ensures Follows(k, p, f) == 1 + m + n
  {
    assert Drop(f, 1 + m) == Drop(f.rest, m);
  }

  /** The first entry of a run with what it spans, and then n more siblings. */
  lemma LevelsTake(k: Facts, f: Forest, m: nat, n: nat)
    requires f.Entry? && m == Span(k, f)
    ensures Levels(k, Take(f, 1 + m + n)) == Entry(f.id, Nested(k, f), Levels(k, Take(Drop(f.rest, m), n)))
  {
    TakeHead(f, m, n);
    SpanTake(k, f, 1 + m + n, Take(f, 1 + m + n));
    NestedTake(k, f, 1 + m + n);
    LevelsHead(k, Take(f, 1 + m + n), m, Take(Drop(f.rest, m), n));
  }

  lemma TakeHead(f: Forest, m: nat, n: nat)
    requires f.Entry?
    ensures var t := Take(f, 1 + m + n);
      t.Entry? && t.id == f.id && Drop(t.rest, m) == Take(Drop(f.rest, m), n)
  {
    DropTake(f.rest, m, n);
    assert Take(f, 1 + m + n).rest == Take(f.rest, m + n);
  }

  lemma LevelsHead(k: Facts, t: Forest, m: nat, rest: Forest)
    requires t.Entry? && Span(k, t) == m && Drop(t.rest, m) == rest
    ensures Levels(k, t) == Entry(t.id, Nested(k, t), Levels(k, rest))
  {}

  lemma {:induction false} DropDrop(f: Forest, m: nat, n: nat)
    ensures Drop(Drop(f, m), n) == Drop(f, m + n)
    decreases m
  {
    if m > 0 && f.Entry? { DropDrop(f.rest, m - 1, n); }
  }

  // Consequences.

  lemma {:induction false} TakeDropIds(f: Forest, n: nat)
    ensures Ids(f) == Ids(Take(f, n)) + Ids(Drop(f, n))
    ensures Distinct(f) ==> Ids(Take(f, n)) !! Ids(Drop(f, n))
    ensures PreOrder(f) == PreOrder(Take(f, n)) + PreOrder(Drop(f, n))
  {
    if n > 0 && f.Entry? { TakeDropIds(f.rest, n - 1); }
  }

  lemma {:induction false} FollowsStops(k: Facts, p: nat, f: Forest)
    ensures Drop(f, Follows(k, p, f)).Entry? ==> !k.test(p, Drop(f, Follows(k, p, f)).id)
    decreases Length(f)
  {
    if f.Entry? && k.test(p, f.id) {
      var n := 1 + Span(k, f);
      FollowsStops(k, p, Drop(f, n));
      DropDrop(f, n, Follows(k, p, Drop(f, n)));
    }
  }

  /** An entry with a symbol and no children takes over the sibling behind it exactly if that
      passes; what ends up below it are the siblings it spans with all below them; and the
      first one left behind it does not pass. */
  lemma FollowerNested(k: Facts, f: Forest)
    requires f.Entry? && f.kids.Nil? && k.hasSym(f.id) && Distinct(f)
    ensures var g := FinalizeEntry(k, f);
      && (f.rest.Entry? ==> (k.test(f.id, f.rest.id) <==> f.rest.id in Ids(g.kids)))
      && Ids(g.kids) == Ids(Take(f.rest, Span(k, f))) && g.rest == Drop(f.rest, Span(k, f))
      && (g.rest.Entry? ==> !k.test(f.id, g.rest.id))
  {
    var g, n := FinalizeEntry(k, f), Span(k, f);
    FinalizeIs(k, f);
    FinalizeOrder(k, f);
    FollowsStops(k, f.id, f.rest);
    TakeDropIds(f.rest, n);
    assert PreOrder(g.kids) == PreOrder(Take(f.rest, n)) by {
      SamePrefix([f.id], PreOrder(g.kids), PreOrder(Take(f.rest, n)), PreOrder(g.rest));
    }
    PreOrderIds(g.kids);
    PreOrderIds(Take(f.rest, n));
    forall i ensures i in Ids(g.kids) <==> i in Ids(Take(f.rest, n)) {
      assert i in PreOrder(g.kids) <==> i in PreOrder(Take(f.rest, n));
    }
  }

  lemma SamePrefix(a: seq<nat>, b: seq<nat>, c: seq<nat>, d: seq<nat>)
    requires a + b + d == a + c + d || a + b + d == a + (c + d)
    ensures b == c
  {
    assert |b| == |c|;
    forall i | 0 <= i < |b| ensures b[i] == c[i] {
      assert (a + b + d)[|a| + i] == b[i] && (a + c + d)[|a| + i] == c[i] && (a + (c + d))[|a| + i] == c[i];
    }
  }

  /** Whatever the entry p takes over directly passes the tests for it. */
  lemma {:induction false} TakenPass(k: Facts, p: nat, f: Forest, taken: Forest)
    requires taken == Levels(k, Take(f, Follows(k, p, f)))
    ensures AllPass(k, p, taken)
    decreases Length(f)
  {
    if f.Entry? && k.test(p, f.id) {
      var rest := Drop(f.rest, Span(k, f));
      var m := Follows(k, p, rest);
      TakenPass(k, p, rest, Levels(k, Take(rest, m)));
      FollowsHead(k, p, f, Span(k, f), m);
      LevelsTake(k, f, Span(k, f), m);
    } else {
      NothingFollows(k, p, f);
    }
  }

  lemma NothingFollows(k: Facts, p: nat, f: Forest)
    requires f.Entry? ==> !k.test(p, f.id)
    ensures Levels(k, Take(f, Follows(k, p, f))).Nil?
  {}

  /** An entry with children, or without a symbol, leaves all its siblings where they are. */
  lemma NothingTaken(k: Facts, f: Forest)
    requires f.Entry? && (f.kids.Entry? || !k.hasSym(f.id))
    ensures FinalizeEntry(k, f).rest == f.rest && (f.kids.Nil? ==> FinalizeEntry(k, f).kids.Nil?)
  {
    FinalizeIs(k, f);
  }

  // Parents.

  /** The menu x is directly below, in the forest below the menu top. */
  function ParentIn(f: Forest, top: nat, x: nat): nat
    requires x in Ids(f)
  {
    if x == f.id then top else if x in Ids(f.kids) then ParentIn(f.kids, f.id, x) else ParentIn(f.rest, top, x)
  }

  /** The last menu with a prompt text on the way from the menu top down to x. */
  function Anchor(k: Facts, f: Forest, top: nat, x: nat): nat
    requires x in Ids(f)
  {
    if x == f.id then top
    else if x in Ids(f.kids) then Anchor(k, f.kids, if k.prompted(f.id) then f.id else top, x)
    else Anchor(k, f.rest, top, x)
  }

  lemma {:induction false} LiftIds(k: Facts, f: Forest)
    ensures Ids(Lift(k, f)) == Ids(f)
  {
    if f.Entry? {
      LiftIds(k, f.kids);
      LiftIds(k, f.rest);
      AppendLaws(Lift(k, f.kids), Lift(k, f.rest));
    }
  }

  lemma {:induction false} ParentAppend(a: Forest, b: Forest, top: nat, x: nat)
    requires x in Ids(a) + Ids(b) && Ids(a) !! Ids(b)
    ensures Ids(Append(a, b)) == Ids(a) + Ids(b)
    ensures ParentIn(Append(a, b), top, x) == if x in Ids(a) then ParentIn(a, top, x) else ParentIn(b, top, x)
    decreases a
  {
    AppendLaws(a, b);
    if a.Entry? {
      AppendLaws(a.rest, b);
      if x in Ids(a.rest) + Ids(b) && x != a.id && x !in Ids(a.kids) { ParentAppend(a.rest, b, top, x); }
    }
  }

  /** After flattening, each entry is directly below the nearest menu around it that has a
      prompt text: children move only past menus without one. */
  lemma {:induction false} LiftParents(k: Facts, f: Forest, top: nat, x: nat)
    requires Distinct(f) && x in Ids(f)
    ensures Ids(Lift(k, f)) == Ids(f) && ParentIn(Lift(k, f), top, x) == Anchor(k, f, top, x)
    decreases f
  {
    LiftIds(k, f);
    LiftIds(k, f.kids);
    LiftIds(k, f.rest);
    if x in Ids(f.kids) {
      LiftParents(k, f.kids, if k.prompted(f.id) then f.id else top, x);
    } else if x != f.id {
      LiftParents(k, f.rest, top, x);
    }
    if x != f.id { ParentAppend(Lift(k, f.kids), Lift(k, f.rest), top, x); }
  }

  /** The parent pointers of a chain are those of the forest. */
  lemma {:induction false} ParentPointer(nodes: seq<Node>, ptr: Ptr, top: nat, f: Forest, end: Ptr, x: nat)
    requires Seg(nodes, ptr, Some(top), f, end) && x in Ids(f)
    ensures x < |nodes| && nodes[x].parent == Some(ParentIn(f, top, x))
    decreases f
  {
    if x == f.id {
    } else if x in Ids(f.kids) {
      ParentPointer(nodes, nodes[f.id].list, f.id, f.kids, None, x);
    } else {
      ParentPointer(nodes, nodes[f.id].next, top, f.rest, end, x);
    }
  }

  lemma {:induction false} NestedOrder(k: Facts, f: Forest)
    requires f.Entry?
    ensures PreOrder(Nested(k, f)) + PreOrder(Drop(f.rest, Span(k, f))) == PreOrder(f.kids) + PreOrder(f.rest)
    decreases Count(f), 0
  {
    TakeDropIds(f.rest, Span(k, f));
    if f.kids.Entry? { LevelsOrder(k, f.kids); } else { LevelsOrder(k, Take(f.rest, Span(k, f))); }
  }

  lemma {:induction false} LevelsOrder(k: Facts, f: Forest)
    ensures PreOrder(Levels(k, f)) == PreOrder(f)
    decreases Count(f), 1
  {
    if f.Entry? {
      NestedOrder(k, f);
      LevelsOrder(k, Drop(f.rest, Span(k, f)));
      var a, b := PreOrder(Nested(k, f)), PreOrder(Drop(f.rest, Span(k, f)));
      assert [f.id] + a + b == [f.id] + (a + b);
      assert [f.id] + PreOrder(f.kids) + PreOrder(f.rest) == [f.id] + (PreOrder(f.kids) + PreOrder(f.rest));
    }
  }

  /** Main result on pointers: once menu_finalize is through with the entry p, the parent of
      everything below it is the nearest menu with a prompt text that it is nested in. */
  lemma FinalizedParent(k: Facts, nodes: seq<Node>, par: Ptr, f: Forest, x: nat)
    requires f.Entry? && Distinct(f) && Seg(nodes, Some(f.id), par, FinalizeEntry(k, f), None)
    requires x in Ids(Nested(k, f))
    ensures x < |nodes| && nodes[x].parent == Some(Anchor(k, Nested(k, f), f.id, x))
  {
    var n := Nested(k, f);
    FinalizeIs(k, f);
    NestedOrder(k, f);
    NestedDistinct(k, f);
    LiftParents(k, n, f.id, x);
    ParentPointer(nodes, nodes[f.id].list, f.id, Lift(k, n), None, x);
  }

  lemma NestedDistinct(k: Facts, f: Forest)
    requires f.Entry? && Distinct(f)
    ensures Distinct(Nested(k, f))
  {
    var n, r := Nested(k, f), Drop(f.rest, Span(k, f));
    NestedOrder(k, f);
    var g := Entry(f.id, n, r);
    assert [f.id] + PreOrder(n) + PreOrder(r) == [f.id] + (PreOrder(n) + PreOrder(r));
    assert [f.id] + PreOrder(f.kids) + PreOrder(f.rest) == [f.id] + (PreOrder(f.kids) + PreOrder(f.rest));
    SameOrder(f, g);
  }
}
