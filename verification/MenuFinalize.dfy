/** menu_finalize: what it does to the tree. Which following entries pass the dependency
    tests, which menus have a symbol and which have a prompt text are parameters. */
module MenuFinalize {
  import opened Menu

  /** test(p, m): the entry m passes the tests for becoming a submenu entry of p. */
  datatype Facts = Facts(test: (nat, nat) -> bool, hasSym: nat -> bool, prompted: nat -> bool)

  datatype Split = Split(taken: Forest, left: Forest)

  /** menu_finalize on the first entry of f. The entry may take over some of those after it. */
  function FinalizeEntry(k: Facts, f: Forest): (g: Forest)
    requires f.Entry?
    ensures g.Entry? && g.id == f.id && Count(g) == Count(f) && Count(g.rest) <= Count(f.rest)
    decreases Count(f), 3
  {
    var g := Gather(k, f);
    FlattenCount(k, g.kids);
    Entry(g.id, Flatten(k, g.kids), g.rest)
  }

  /** The first part of menu_finalize: finalise the children, or else collect some. */
  function Gather(k: Facts, f: Forest): (g: Forest)
    requires f.Entry?
    ensures g.Entry? && g.id == f.id && Count(g) == Count(f) && Count(g.rest) <= Count(f.rest)
    decreases Count(f), 2
  {
    if f.kids.Entry? then Entry(f.id, FinalizeAll(k, f.kids), f.rest)
    else if k.hasSym(f.id) then
      var s := Adopt(k, f.id, f.rest);
      Entry(f.id, s.taken, s.left)
    else f
  }

  /** The loop that finalises every child, each after what the previous one took over. */
  function FinalizeAll(k: Facts, f: Forest): (g: Forest)
    ensures Count(g) == Count(f)
    decreases Count(f), 4
  {
    if f.Nil? then Nil
    else
      var e := FinalizeEntry(k, f);
      Entry(e.id, e.kids, FinalizeAll(k, e.rest))
  }

  /** The loop over the entries after p: finalise and take over until a test fails. */
  function Adopt(k: Facts, p: nat, f: Forest): (s: Split)
    ensures Count(s.taken) + Count(s.left) == Count(f)
    decreases Count(f), 4
  {
    if f.Nil? || !k.test(p, f.id) then Split(Nil, f)
    else
      var e := FinalizeEntry(k, f);
      var s := Adopt(k, p, e.rest);
      Split(Entry(e.id, e.kids, s.taken), s.left)
  }

  /** The last loop: children of an entry without a prompt text move up behind it. */
  function Flatten(k: Facts, f: Forest): Forest
    decreases Count(f)
  {
    if f.Nil? then Nil
    else if f.kids.Entry? && !k.prompted(f.id) then
      AppendLaws(f.kids, f.rest);
      Entry(f.id, Nil, Flatten(k, Append(f.kids, f.rest)))
    else Entry(f.id, f.kids, Flatten(k, f.rest))
  }

  lemma {:induction false} FlattenCount(k: Facts, f: Forest)
    ensures Count(Flatten(k, f)) == Count(f)
    decreases Count(f)
  {
    if f.Entry? {
      AppendLaws(f.kids, f.rest);
      FlattenCount(k, if f.kids.Entry? && !k.prompted(f.id) then Append(f.kids, f.rest) else f.rest);
    }
  }

  predicate AllPass(k: Facts, p: nat, f: Forest) { f.Entry? ==> k.test(p, f.id) && AllPass(k, p, f.rest) }

  /** Exactly a maximal run of passing entries is taken over. */
  lemma {:induction false} AdoptMaximal(k: Facts, p: nat, f: Forest)
    ensures AllPass(k, p, Adopt(k, p, f).taken)
    ensures Adopt(k, p, f).left.Entry? ==> !k.test(p, Adopt(k, p, f).left.id)
    decreases Count(f)
  {
    if f.Entry? && k.test(p, f.id) { AdoptMaximal(k, p, FinalizeEntry(k, f).rest); }
  }

  // The order of entries.

  lemma {:induction false} FlattenOrder(k: Facts, f: Forest)
    ensures PreOrder(Flatten(k, f)) == PreOrder(f)
    decreases Count(f)
  {
    if f.Entry? {
      AppendLaws(f.kids, f.rest);
      FlattenOrder(k, if f.kids.Entry? && !k.prompted(f.id) then Append(f.kids, f.rest) else f.rest);
    }
  }

  /** Main result: whatever the tests say, the sequence of entries stays as it was. */
  lemma {:induction false} FinalizeOrder(k: Facts, f: Forest)
    requires f.Entry?
    ensures PreOrder(FinalizeEntry(k, f)) == PreOrder(f)
    decreases Count(f), 3
  {
    GatherOrder(k, f);
    FlattenOrder(k, Gather(k, f).kids);
  }

  lemma {:induction false} GatherOrder(k: Facts, f: Forest)
    requires f.Entry?
    ensures PreOrder(Gather(k, f)) == PreOrder(f)
    decreases Count(f), 2
  {
    if f.kids.Entry? {
      FinalizeAllOrder(k, f.kids);
    } else if k.hasSym(f.id) {
      AdoptOrder(k, f.id, f.rest);
    }
  }

  lemma {:induction false} FinalizeAllOrder(k: Facts, f: Forest)
    ensures PreOrder(FinalizeAll(k, f)) == PreOrder(f)
    decreases Count(f), 4
  {
    if f.Entry? {
      FinalizeOrder(k, f);
      FinalizeAllOrder(k, FinalizeEntry(k, f).rest);
    }
  }

  lemma {:induction false} AdoptOrder(k: Facts, p: nat, f: Forest)
    ensures PreOrder(Adopt(k, p, f).taken) + PreOrder(Adopt(k, p, f).left) == PreOrder(f)
    decreases Count(f), 4
  {
    if f.Entry? && k.test(p, f.id) {
      FinalizeOrder(k, f);
      AdoptOrder(k, p, FinalizeEntry(k, f).rest);
    }
  }

  // Menus with children have a prompt.

  /** Below every entry of the chain, children only hang from entries with a prompt text. */
  predicate Settled(k: Facts, f: Forest) {
    f.Entry? ==> (f.kids.Entry? ==> k.prompted(f.id)) && Settled(k, f.kids) && Settled(k, f.rest)
  }

  /** As Settled, but the entries of the chain itself may still lack a prompt. */
  predicate SettledBelow(k: Facts, f: Forest) {
    f.Entry? ==> Settled(k, f.kids) && SettledBelow(k, f.rest)
  }

  lemma SettledIsSettledBelow(k: Facts, f: Forest)
    requires Settled(k, f)
    ensures SettledBelow(k, f)
  {}

  lemma {:induction a} SettledBelowAppend(k: Facts, a: Forest, b: Forest)
    requires SettledBelow(k, a) && SettledBelow(k, b)
    ensures SettledBelow(k, Append(a, b))
  {}

  lemma {:induction false} FlattenSettles(k: Facts, f: Forest)
    requires SettledBelow(k, f)
    ensures Settled(k, Flatten(k, f))
    decreases Count(f)
  {
    if f.Entry? {
      if f.kids.Entry? && !k.prompted(f.id) {
        AppendLaws(f.kids, f.rest);
        SettledIsSettledBelow(k, f.kids);
        SettledBelowAppend(k, f.kids, f.rest);
        FlattenSettles(k, Append(f.kids, f.rest));
      } else {
        FlattenSettles(k, f.rest);
      }
    }
  }

  /** After menu_finalize, below the entry only menus with a prompt text have children. */
  lemma {:induction false} FinalizeSettles(k: Facts, f: Forest)
    requires f.Entry?
    ensures Settled(k, FinalizeEntry(k, f).kids)
    decreases Count(f), 2
  {
    if f.kids.Entry? {
      FinalizeAllSettles(k, f.kids);
      FlattenSettles(k, FinalizeAll(k, f.kids));
    } else if k.hasSym(f.id) {
      AdoptSettles(k, f.id, f.rest);
      FlattenSettles(k, Adopt(k, f.id, f.rest).taken);
    }
  }

  lemma {:induction false} FinalizeAllSettles(k: Facts, f: Forest)
    ensures SettledBelow(k, FinalizeAll(k, f))
    decreases Count(f), 3
  {
    if f.Entry? {
      FinalizeSettles(k, f);
      FinalizeAllSettles(k, FinalizeEntry(k, f).rest);
    }
  }

  lemma {:induction false} AdoptSettles(k: Facts, p: nat, f: Forest)
    ensures SettledBelow(k, Adopt(k, p, f).taken)
    decreases Count(f), 3
  {
    if f.Entry? && k.test(p, f.id) {
      FinalizeSettles(k, f);
      AdoptSettles(k, p, FinalizeEntry(k, f).rest);
    }
  }
}
