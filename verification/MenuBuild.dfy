/** menu_init, menu_add_entry, menu_add_menu and menu_end_menu: building the menu tree
    through the pointer last_entry_ptr to where the next entry belongs. */
module MenuBuild {
  import opened Expr
  import opened Menu
  import opened MenuFinalize

  /** What last_entry_ptr points at. */
  datatype Slot = ListOf(id: nat) | NextOf(id: nat)

  /** A tree under construction: at each open menu, the entries before it, outermost first. */
  datatype Zip = Last(closed: Forest) | Under(closed: Forest, id: nat, below: Zip)

  function Whole(z: Zip): Forest {
    match z
    case Last(c) => c
    case Under(c, id, below) => Append(c, Entry(id, Whole(below), Nil))
  }

  /** The innermost open menu. */
  function Open(z: Zip, root: nat): nat { if z.Last? then root else Open(z.below, z.id) }

  /** The place behind the last entry of the innermost open menu. */
  function Place(z: Zip, root: nat): Slot {
    match z
    case Last(c) => if c.Nil? then ListOf(root) else NextOf(LastId(c))
    case Under(_, id, below) => Place(below, id)
  }

  function Insert(z: Zip, e: nat): Zip {
    match z
    case Last(c) => Last(Append(c, Entry(e, Nil, Nil)))
    case Under(c, id, below) => Under(c, id, Insert(below, e))
  }

  function Leave(z: Zip): Zip
    requires z.Under?
  {
    if z.below.Last? then Last(Append(z.closed, Entry(z.id, z.below.closed, Nil)))
    else Under(z.closed, z.id, Leave(z.below))
  }

  /** The last entry, which has no children yet, becomes an open menu. */
  function Enter(z: Zip): Zip
    requires Bare(z)
  {
    match z
    case Last(c) => Under(DropLast(c), LastId(c), Last(Nil))
    case Under(c, id, below) => Under(c, id, Enter(below))
  }

  predicate Bare(z: Zip) {
    match z
    case Last(c) => c.Entry? && LastBare(c)
    case Under(_, _, below) => Bare(below)
  }

  predicate LastBare(f: Forest)
    requires f.Entry?
  {
    if f.rest.Nil? then f.kids.Nil? else LastBare(f.rest)
  }

  function DropLast(f: Forest): Forest
    requires f.Entry?
  {
    if f.rest.Nil? then Nil else Entry(f.id, f.kids, DropLast(f.rest))
  }

  function Write(nodes: seq<Node>, s: Slot, x: Ptr): seq<Node>
    requires s.id < |nodes|
  {
    nodes[s.id := if s.ListOf? then nodes[s.id].(list := x) else nodes[s.id].(next := x)]
  }

  lemma {:induction false} SegSplit(nodes: seq<Node>, ptr: Ptr, par: Ptr, a: Forest, b: Forest, end: Ptr)
    requires Seg(nodes, ptr, par, Append(a, b), end) && b.Entry?
    ensures Seg(nodes, ptr, par, a, Some(b.id)) && Seg(nodes, Some(b.id), par, b, end)
    decreases a
  {
    if a.Entry? { SegSplit(nodes, nodes[a.id].next, par, a.rest, b, end); }
  }

  /** Writing a new entry at the place of a zip inserts it there and moves nothing else. */
  lemma {:induction false} InsertSeg(nodes: seq<Node>, root: nat, z: Zip)
    requires root < |nodes| && Seg(nodes, nodes[root].list, Some(root), Whole(z), None)
    requires Distinct(Whole(z)) && root !in Ids(Whole(z))
    ensures var e, s := |nodes|, Place(z, root);
      && s.id < |nodes| && s.id in {root} + Ids(Whole(z)) && (s.id == root ==> s.ListOf?)
      && var n := Write(nodes + [Node(None, Some(Open(z, root)), None)], s, Some(e));
         Seg(n, n[root].list, Some(root), Whole(Insert(z, e)), None)
    decreases z
  {
    var e, s := |nodes|, Place(z, root);
    var n0 := nodes + [Node(None, Some(Open(z, root)), None)];
    match z
    case Last(c) =>
      if c.Entry? {
        SegFrame(nodes, n0, {}, nodes[root].list, Some(root), c, None);
        SegRetarget(n0, nodes[root].list, Some(root), c, None, Some(e));
        SegIds(nodes, nodes[root].list, Some(root), c, None);
        LastInIds(c);
        SegAppend(Write(n0, s, Some(e)), nodes[root].list, Some(root), c, Some(e), Entry(e, Nil, Nil), None);
      }
    case Under(c, id, below) =>
      var entry := Entry(id, Whole(below), Nil);
      AppendLaws(c, entry);
      SegSplit(nodes, nodes[root].list, Some(root), c, entry, None);
      InsertSeg(nodes, id, below);
      var n := Write(n0, s, Some(e));
      SegFrame(nodes, n, {s.id}, nodes[root].list, Some(root), c, Some(id));
      SegAppend(n, nodes[root].list, Some(root), c, Some(id), Entry(id, Whole(Insert(below, e)), Nil), None);
  }

  lemma {:induction false} InsertOrder(z: Zip, e: nat)
    ensures PreOrder(Whole(Insert(z, e))) == PreOrder(Whole(z)) + [e]
  {
    match z
    case Last(c) => AppendLaws(c, Entry(e, Nil, Nil));
    case Under(c, id, below) =>
      InsertOrder(below, e);
      AppendLaws(c, Entry(id, Whole(below), Nil));
      AppendLaws(c, Entry(id, Whole(Insert(below, e)), Nil));
      assert PreOrder(c) + ([id] + (PreOrder(Whole(below)) + [e])) == PreOrder(c) + ([id] + PreOrder(Whole(below))) + [e];
  }

  lemma InsertPlace(z: Zip, root: nat, e: nat)
    ensures Open(Insert(z, e), root) == Open(z, root) && Place(Insert(z, e), root) == NextOf(e)
    ensures Bare(Insert(z, e))
  {
    match z
    case Last(c) =>
      LastOfAppend(c, Entry(e, Nil, Nil));
      AppendBare(c, e);
    case Under(_, id, below) => InsertPlace(below, id, e);
  }

  lemma {:induction c} AppendBare(c: Forest, e: nat)
    ensures Append(c, Entry(e, Nil, Nil)).Entry? && LastBare(Append(c, Entry(e, Nil, Nil)))
  {}

  lemma {:induction false} EnterWhole(z: Zip, root: nat)
    requires Bare(z)
    ensures Whole(Enter(z)) == Whole(z)
    ensures Place(z, root) == NextOf(Open(Enter(z), root)) && Place(Enter(z), root) == ListOf(Open(Enter(z), root))
  {
    match z
    case Last(c) => DropLastAppend(c);
    case Under(_, id, below) => EnterWhole(below, id);
  }

  lemma {:induction f} DropLastAppend(f: Forest)
    requires f.Entry? && LastBare(f)
    ensures Append(DropLast(f), Entry(LastId(f), Nil, Nil)) == f
  {}

  lemma {:induction false} LeaveWhole(nodes: seq<Node>, z: Zip, root: nat)
    requires z.Under?
    requires root < |nodes| && Seg(nodes, nodes[root].list, Some(root), Whole(z), None)
    ensures Whole(Leave(z)) == Whole(z) && Place(Leave(z), root) == NextOf(Open(z, root))
    ensures Open(z, root) < |nodes| && nodes[Open(z, root)].parent == Some(Open(Leave(z), root))
    decreases z
  {
    var entry := Entry(z.id, Whole(z.below), Nil);
    SegSplit(nodes, nodes[root].list, Some(root), z.closed, entry, None);
    if z.below.Last? {
      LastOfAppend(z.closed, entry);
    } else {
      LeaveWhole(nodes, z.below, z.id);
    }
  }

  /** 1, 2, ... , n - 1 */
  function CountUp(n: nat): seq<nat> { if n <= 1 then [] else CountUp(n - 1) + [n - 1] }

  lemma {:induction false} CountUpAt(n: nat)
    ensures |CountUp(n)| == if n == 0 then 0 else n - 1
    ensures forall i | 0 <= i < |CountUp(n)| :: CountUp(n)[i] == i + 1
  {
    if n > 1 { CountUpAt(n - 1); }
  }

  lemma CountedDistinct(f: Forest, n: nat)
    requires PreOrder(f) == CountUp(n)
    ensures Distinct(f) && 0 !in Ids(f)
  {
    CountUpAt(n);
    DistinctByOrder(f);
    PreOrderIds(f);
  }

  class MenuBuilder {
    /** Menu 0 is rootmenu; the others are numbered as they are added. */
    var nodes: seq<Node>
    var currentMenu: nat
    var currentEntry: nat
    var lastEntryPtr: Slot
    ghost var zip: Zip

    /** The pointers always form a tree, with the entries in source order. */
    ghost predicate Valid()
      reads this
    {
      && |nodes| > 0 && nodes[0].next == None && nodes[0].parent == None
      && Seg(nodes, nodes[0].list, Some(0), Whole(zip), None)
      && PreOrder(Whole(zip)) == CountUp(|nodes|)
      && currentMenu == Open(zip, 0) && lastEntryPtr == Place(zip, 0)
    }

    /** menu_init */
    constructor ()
      ensures Valid() && nodes == [Node(None, None, None)] && currentMenu == 0
    {
      nodes := [Node(None, None, None)];
      currentMenu, currentEntry := 0, 0;
      lastEntryPtr := ListOf(0);
      zip := Last(Nil);
    }

    /** menu_add_entry */
    method MenuAddEntry()
      requires Valid()
      modifies this
      ensures Valid() && |nodes| == |old(nodes)| + 1 && currentMenu == old(currentMenu)
      ensures currentEntry == |old(nodes)| && nodes[currentEntry] == Node(None, Some(currentMenu), None)
      ensures Whole(zip) == Whole(Insert(old(zip), currentEntry))
      ensures lastEntryPtr == NextOf(currentEntry) && Bare(zip)
    {
      CountedDistinct(Whole(zip), |nodes|);
      InsertSeg(nodes, 0, zip);
      InsertOrder(zip, |nodes|);
      InsertPlace(zip, 0, |nodes|);
      var menu := |nodes|;
      nodes := nodes + [Node(None, Some(currentMenu), None)];
      nodes := Write(nodes, lastEntryPtr, Some(menu));
      lastEntryPtr := NextOf(menu);
      currentEntry := menu;
      zip := Insert(zip, menu);
    }

    /** menu_add_menu, which the grammar calls right after adding an entry */
    method MenuAddMenu()
      requires Valid() && Bare(zip) && lastEntryPtr == NextOf(currentEntry)
      modifies this`currentMenu, this`lastEntryPtr, this`zip
      ensures Valid() && Whole(zip) == old(Whole(zip)) && currentMenu == currentEntry
    {
      EnterWhole(zip, 0);
      currentMenu := currentEntry;
      lastEntryPtr := ListOf(currentEntry);
      zip := Enter(zip);
    }

    /** menu_end_menu, when a menu other than the root is open */
    method MenuEndMenu()
      requires Valid() && currentMenu != 0
      modifies this`currentMenu, this`lastEntryPtr, this`zip
      ensures Valid() && Whole(zip) == old(Whole(zip))
      ensures old(currentMenu) < |nodes| && nodes[old(currentMenu)].parent == Some(currentMenu)
    {
      LeaveWhole(nodes, zip, 0);
      lastEntryPtr := NextOf(currentMenu);
      currentMenu := nodes[currentMenu].parent.value;
      zip := Leave(zip);
    }

    /** Whatever has been built is a tree menu_finalize can be called on, and finalising it
        keeps every entry in source order, whatever the dependency tests say. */
    lemma Built(k: Facts)
      requires Valid()
      ensures var f := Entry(0, Whole(zip), Nil);
        && Seg(nodes, Some(0), None, f, None) && Distinct(f)
        && PreOrder(FinalizeEntry(k, f)) == [0] + CountUp(|nodes|)
    {
      CountedDistinct(Whole(zip), |nodes|);
      FinalizeOrder(k, Entry(0, Whole(zip), Nil));
    }
  }
}
