/** The menu tree: struct menu with its next, parent and list pointers, and the ordered
    forest such pointers stand for. */
module Menu {
  import opened Expr

  /** A pointer to a menu: an index into the store, or null. */
  type Ptr = Option<nat>

  datatype Node = Node(next: Ptr, parent: Ptr, list: Ptr)

  /** A chain of sibling entries: the first one, what hangs below it, and those after it. */
  datatype Forest = Nil | Entry(id: nat, kids: Forest, rest: Forest)

  function Count(f: Forest): nat { if f.Nil? then 0 else 1 + Count(f.kids) + Count(f.rest) }

  /** Entries in the order in which the source lists them. */
  function PreOrder(f: Forest): seq<nat> {
    if f.Nil? then [] else [f.id] + PreOrder(f.kids) + PreOrder(f.rest)
  }

  function Ids(f: Forest): set<nat> { if f.Nil? then {} else {f.id} + Ids(f.kids) + Ids(f.rest) }

  /** No entry occurs twice. */
  predicate Distinct(f: Forest) {
    f.Entry? ==>
      Distinct(f.kids) && Distinct(f.rest) &&
      f.id !in Ids(f.kids) && f.id !in Ids(f.rest) && Ids(f.kids) !! Ids(f.rest)
  }

  function Append(a: Forest, b: Forest): Forest {
    if a.Nil? then b else Entry(a.id, a.kids, Append(a.rest, b))
  }

  /** An entry without the ones after it */
  function Single(f: Forest): Forest
    requires f.Entry?
  {
    Entry(f.id, f.kids, Nil)
  }

  /** From ptr, following next, the store holds the chain f below the menu par, and then
      comes the pointer end. */
  predicate Seg(nodes: seq<Node>, ptr: Ptr, par: Ptr, f: Forest, end: Ptr)
    decreases f
  {
    match f
    case Nil => ptr == end
    case Entry(id, kids, rest) =>
      ptr == Some(id) && id < |nodes| && nodes[id].parent == par &&
      Seg(nodes, nodes[id].list, Some(id), kids, None) &&
      Seg(nodes, nodes[id].next, par, rest, end)
  }

  /** The stores differ at most at the given menus. */
  predicate SameBut(nodes: seq<Node>, nodes': seq<Node>, ids: set<nat>) {
    |nodes| == |nodes'| && forall i | 0 <= i < |nodes| && i !in ids :: nodes[i] == nodes'[i]
  }

  lemma {:induction false} SegFrame(nodes: seq<Node>, nodes': seq<Node>, ids: set<nat>, ptr: Ptr, par: Ptr, f: Forest, end: Ptr)
    requires Seg(nodes, ptr, par, f, end)
    requires |nodes| <= |nodes'| && forall i | 0 <= i < |nodes| && i !in ids :: nodes[i] == nodes'[i]
    requires Ids(f) !! ids
    ensures Seg(nodes', ptr, par, f, end)
    decreases f
  {
    if f.Entry? {
      SegFrame(nodes, nodes', ids, nodes[f.id].list, Some(f.id), f.kids, None);
      SegFrame(nodes, nodes', ids, nodes[f.id].next, par, f.rest, end);
    }
  }

  lemma {:induction false} SegAppend(nodes: seq<Node>, ptr: Ptr, par: Ptr, a: Forest, mid: Ptr, b: Forest, end: Ptr)
    requires Seg(nodes, ptr, par, a, mid) && Seg(nodes, mid, par, b, end)
    ensures Seg(nodes, ptr, par, Append(a, b), end)
    decreases a
  {
    if a.Entry? { SegAppend(nodes, nodes[a.id].next, par, a.rest, mid, b, end); }
  }

  lemma {:induction a} AppendLaws(a: Forest, b: Forest)
    ensures Ids(Append(a, b)) == Ids(a) + Ids(b)
    ensures Count(Append(a, b)) == Count(a) + Count(b)
    ensures PreOrder(Append(a, b)) == PreOrder(a) + PreOrder(b)
    ensures Distinct(Append(a, b)) <==> Distinct(a) && Distinct(b) && Ids(a) !! Ids(b)
  {}

  lemma {:induction a} AppendAssoc(a: Forest, b: Forest, c: Forest)
    ensures Append(Append(a, b), c) == Append(a, Append(b, c))
  {}

  lemma AppendNil(a: Forest)
    ensures Append(a, Nil) == a
  {}

  lemma {:induction false} SegIds(nodes: seq<Node>, ptr: Ptr, par: Ptr, f: Forest, end: Ptr)
    requires Seg(nodes, ptr, par, f, end)
    ensures forall i | i in Ids(f) :: i < |nodes|
    decreases f
  {
    if f.Entry? {
      SegIds(nodes, nodes[f.id].list, Some(f.id), f.kids, None);
      SegIds(nodes, nodes[f.id].next, par, f.rest, end);
    }
  }

  /** The last entry of a chain. */
  function LastId(f: Forest): nat
    requires f.Entry?
  {
    if f.rest.Nil? then f.id else LastId(f.rest)
  }

  lemma {:induction a} LastOfAppend(a: Forest, e: Forest)
    requires e.Entry?
    ensures Append(a, e).Entry? && LastId(Append(a, e)) == LastId(e)
  {}

  lemma {:induction f} LastInIds(f: Forest)
    requires f.Entry?
    ensures LastId(f) in Ids(f)
  {}

  /** Redirecting the last next pointer redirects the whole chain. */
  lemma {:induction false} SegRetarget(nodes: seq<Node>, ptr: Ptr, par: Ptr, f: Forest, end: Ptr, end': Ptr)
    requires Seg(nodes, ptr, par, f, end) && f.Entry? && Distinct(f)
    ensures LastId(f) < |nodes| && nodes[LastId(f)].next == end
    ensures Seg(nodes[LastId(f) := nodes[LastId(f)].(next := end')], ptr, par, f, end')
    decreases f
  {
    LastInIds(f);
    var l := LastId(f);
    if f.rest.Entry? {
      SegRetarget(nodes, nodes[f.id].next, par, f.rest, end, end');
      LastInIds(f.rest);
    }
    SegFrame(nodes, nodes[l := nodes[l].(next := end')], {l}, nodes[f.id].list, Some(f.id), f.kids, None);
  }

  /** With distinct entries the pre-order mentions each exactly once. */
  lemma {:induction false} PreOrderOnce(f: Forest)
    requires Distinct(f)
    ensures |PreOrder(f)| == Count(f)
    ensures forall i :: i in PreOrder(f) <==> i in Ids(f)
    ensures forall i, j | 0 <= i < j < |PreOrder(f)| :: PreOrder(f)[i] != PreOrder(f)[j]
  {
    if f.Entry? {
      PreOrderOnce(f.kids);
      PreOrderOnce(f.rest);
      ConcatOnce([f.id], PreOrder(f.kids));
      ConcatOnce([f.id] + PreOrder(f.kids), PreOrder(f.rest));
    }
  }

  lemma ConcatOnce(a: seq<nat>, b: seq<nat>)
    requires forall i, j | 0 <= i < j < |a| :: a[i] != a[j]
    requires forall i, j | 0 <= i < j < |b| :: b[i] != b[j]
    requires forall x | x in a :: x !in b
    ensures forall i, j | 0 <= i < j < |a + b| :: (a + b)[i] != (a + b)[j]
  {
    forall i, j | 0 <= i < j < |a + b| ensures (a + b)[i] != (a + b)[j] {
      if i < |a| <= j { assert a[i] in a && b[j - |a|] in b; }
    }
  }

  /** The pre-order of a chain decides which entries it has and whether they are distinct. */
  lemma SameOrder(f: Forest, g: Forest)
    requires PreOrder(f) == PreOrder(g) && Distinct(f)
    ensures Ids(f) == Ids(g) && Distinct(g)
  {
    PreOrderOnce(f);
    PreOrderIds(g);
    DistinctByOrder(g);
    forall i ensures i in Ids(f) <==> i in Ids(g) {
      assert i in PreOrder(f) <==> i in PreOrder(g);
    }
  }

  lemma {:induction f} PreOrderIds(f: Forest)
    ensures forall i :: i in PreOrder(f) <==> i in Ids(f)
  {}

  lemma {:induction false} DistinctByOrder(f: Forest)
    requires forall i, j | 0 <= i < j < |PreOrder(f)| :: PreOrder(f)[i] != PreOrder(f)[j]
    ensures Distinct(f)
  {
    if f.Entry? {
      var p, k, r := PreOrder(f), PreOrder(f.kids), PreOrder(f.rest);
      PreOrderIds(f.kids);
      PreOrderIds(f.rest);
      assert forall x | 0 <= x < |k| :: k[x] == p[x + 1];
      assert forall x | 0 <= x < |r| :: r[x] == p[x + 1 + |k|];
      DistinctByOrder(f.kids);
      DistinctByOrder(f.rest);
      assert p[0] == f.id;
    }
  }
}
