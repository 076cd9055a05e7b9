/** sym_lookup and sym_find: the hash table of symbols. */
module SymbolTable {
  import opened Tristate
  import opened Expr

  /** What a pointer to a symbol can be: a fixed constant or the i-th symbol allocated. */
  datatype Ref = Fixed(val: Tri) | Allocated(index: nat)

  /** struct symbol, as far as lookup is concerned: its name and SYMBOL_CONST. */
  datatype Named = Named(name: Option<string>, isConst: bool)

  /** The one-letter names of the fixed constants. */
  function FixedName(name: string): Option<Ref> {
    if name == "y" then Some(Fixed(YES))
    else if name == "m" then Some(Fixed(MOD))
    else if name == "n" then Some(Fixed(NO))
    else None
  }

  type Key = (string, bool)

  // What lookup means: a finite map, and a supply of new symbols.

  datatype Table = Table(entries: map<Key, nat>, next: nat)

  datatype Found = Found(ref: Ref, table: Table)

  function Lookup(t: Table, name: Option<string>, isConst: bool): Found {
    match name
    case None => Found(Allocated(t.next), t.(next := t.next + 1))
    case Some(n) =>
      if FixedName(n).Some? then Found(FixedName(n).value, t)
      else if (n, isConst) in t.entries then Found(Allocated(t.entries[(n, isConst)]), t)
      else Found(Allocated(t.next), Table(t.entries[(n, isConst) := t.next], t.next + 1))
  }

  datatype Request = Request(name: Option<string>, isConst: bool)

  /** Two requests must give the same symbol. */
  predicate SameKey(a: Request, b: Request) {
    a.name.Some? && a.name == b.name && (a.name.value in {"y", "m", "n"} || a.isConst == b.isConst)
  }

  /** The symbols a sequence of requests gives. */
  function Run(t: Table, reqs: seq<Request>): (refs: seq<Ref>)
    ensures |refs| == |reqs|
    decreases |reqs|
  {
    if reqs == [] then []
    else
      var f := Lookup(t, reqs[0].name, reqs[0].isConst);
      [f.ref] + Run(f.table, reqs[1..])
  }

  predicate Sound(t: Table) {
    (forall k | k in t.entries :: t.entries[k] < t.next && FixedName(k.0).None?) &&
    forall j, k | j in t.entries && k in t.entries && t.entries[j] == t.entries[k] :: j == k
  }

  lemma LookupSound(t: Table, r: Request)
    requires Sound(t)
    ensures Sound(Lookup(t, r.name, r.isConst).table)
  {}

  /** The answer to a request, as the entry it leaves: for a named symbol its key. */
  predicate Owned(t: Table, r: Request, ref: Ref) {
    match r.name
    case None => ref.Allocated? && ref.index < t.next && forall k | k in t.entries :: t.entries[k] != ref.index
    case Some(n) =>
      if FixedName(n).Some? then ref == FixedName(n).value
      else (n, r.isConst) in t.entries && ref == Allocated(t.entries[(n, r.isConst)])
  }

  lemma LookupOwned(t: Table, r: Request)
    requires Sound(t)
    ensures var f := Lookup(t, r.name, r.isConst); Owned(f.table, r, f.ref)
  {}

  /** Ownership lasts, and decides the next answer. */
  lemma OwnedStep(t: Table, r: Request, ref: Ref, q: Request)
    requires Sound(t) && Owned(t, r, ref)
    ensures var f := Lookup(t, q.name, q.isConst);
      Owned(f.table, r, ref) && (f.ref == ref <==> SameKey(r, q))
  {
    FixedNamesDiffer();
    if r.name.Some? { ConstantsFixed(t, r.name.value, r.isConst); }
  }

  /** "y", "m" and "n" give the fixed constants, as constants or not, and nothing else does. */
  lemma ConstantsFixed(t: Table, name: string, isConst: bool)
    ensures Lookup(t, Some("y"), isConst) == Found(Fixed(YES), t)
    ensures Lookup(t, Some("m"), isConst) == Found(Fixed(MOD), t)
    ensures Lookup(t, Some("n"), isConst) == Found(Fixed(NO), t)
    ensures name !in {"y", "m", "n"} ==> Lookup(t, Some(name), isConst).ref.Allocated?
  {
    assert "y"[0] != "m"[0] && "y"[0] != "n"[0] && "m"[0] != "n"[0];
  }

  lemma FixedNamesDiffer()
    ensures forall a, b | FixedName(a).Some? && FixedName(a) == FixedName(b) :: a == b
  {}

  /** So it decides every later answer. */
  lemma {:induction false} OwnedLater(t: Table, r: Request, ref: Ref, reqs: seq<Request>, j: nat)
    requires Sound(t) && Owned(t, r, ref) && j < |reqs|
    ensures Run(t, reqs)[j] == ref <==> SameKey(r, reqs[j])
    decreases |reqs|
  {
    LookupSound(t, reqs[0]);
    OwnedStep(t, r, ref, reqs[0]);
    if j > 0 { OwnedLater(Lookup(t, reqs[0].name, reqs[0].isConst).table, r, ref, reqs[1..], j - 1); }
  }

  /** Main result: over every run, two requests give the same symbol exactly when they name
      the same key; y, m and n always mean the constants, and no name is always new. */
  lemma {:induction false} RunIdentifies(t: Table, reqs: seq<Request>, i: nat, j: nat)
    requires Sound(t) && i < j < |reqs|
    ensures Run(t, reqs)[i] == Run(t, reqs)[j] <==> SameKey(reqs[i], reqs[j])
    decreases i
  {
    var f := Lookup(t, reqs[0].name, reqs[0].isConst);
    LookupSound(t, reqs[0]);
    if i == 0 {
      LookupOwned(t, reqs[0]);
      OwnedLater(f.table, reqs[0], f.ref, reqs[1..], j - 1);
    } else {
      RunIdentifies(f.table, reqs[1..], i - 1, j - 1);
    }
  }

  // The hash table.

  function CharSum(name: string): nat { if name == "" then 0 else CharSum(name[..|name| - 1]) + name[|name| - 1] as int }

  /** The sum of the characters, masked with 0xff */
  function Hash(name: string): nat { CharSum(name) % 256 }

  const NAMELESS: nat := 256

  function BucketOf(s: Named): nat { if s.name.None? then NAMELESS else Hash(s.name.value) }

  predicate ChainHolds(symbols: seq<Named>, h: int, chain: seq<nat>) {
    forall d | 0 <= d < |chain| :: chain[d] < |symbols| && BucketOf(symbols[chain[d]]) == h
  }

  /** Every symbol is in the chain of its bucket, and in no other. */
  predicate Chained(symbols: seq<Named>, buckets: seq<seq<nat>>) {
    && |buckets| == 257
    && (forall h | 0 <= h < 257 :: ChainHolds(symbols, h, buckets[h]))
    && (forall i | 0 <= i < |symbols| :: i in buckets[BucketOf(symbols[i])])
  }

  /** The table lists exactly the symbols with names. */
  ghost predicate Listed(symbols: seq<Named>, t: Table) {
    && t.next == |symbols| && Sound(t)
    && (forall i | 0 <= i < |symbols| && symbols[i].name.Some? ::
          var k := (symbols[i].name.value, symbols[i].isConst); k in t.entries && t.entries[k] == i)
    && (forall k | k in t.entries ::
          t.entries[k] < |symbols| && symbols[t.entries[k]] == Named(Some(k.0), k.1))
  }

  lemma ChainedAfter(symbols: seq<Named>, buckets: seq<seq<nat>>, s: Named)
    requires Chained(symbols, buckets)
    ensures Chained(symbols + [s], buckets[BucketOf(s) := [|symbols|] + buckets[BucketOf(s)]])
  {
    var symbols', buckets' := symbols + [s], buckets[BucketOf(s) := [|symbols|] + buckets[BucketOf(s)]];
    forall h | 0 <= h < 257 ensures ChainHolds(symbols', h, buckets'[h]) {
      assert ChainHolds(symbols, h, buckets[h]);
    }
    forall i | 0 <= i < |symbols'| ensures i in buckets'[BucketOf(symbols'[i])] {
      if i < |symbols| { assert i in buckets[BucketOf(symbols[i])]; }
    }
  }

  lemma ListedAfter(symbols: seq<Named>, t: Table, s: Named)
    requires Listed(symbols, t)
    requires s.name.Some? ==> FixedName(s.name.value).None? && (s.name.value, s.isConst) !in t.entries
    ensures Listed(symbols + [s], Lookup(t, s.name, s.isConst).table)
  {
    LookupSound(t, Request(s.name, s.isConst));
  }

  class SymbolHash {
    /** The symbols in the order of their allocation. */
    var symbols: seq<Named>
    /** symbol_hash: the chains, newest symbol first */
    var buckets: seq<seq<nat>>
    ghost var table: Table

    /** The chains hold every symbol in the bucket of its name, and the table says which. */
    ghost predicate Valid()
      reads this
    {
      Chained(symbols, buckets) && Listed(symbols, table)
    }

    constructor ()
      ensures Valid() && symbols == [] && table == Table(map[], 0)
    {
      symbols := [];
      buckets := seq(257, _ => []);
      table := Table(map[], 0);
    }

    /** The loops that add up the characters of a name */
    method HashOf(name: string) returns (hash: nat)
      ensures hash == Hash(name) && hash < 256
    {
      hash := 0;
      for i := 0 to |name|
        invariant hash == CharSum(name[..i])
      {
        assert name[..i + 1][..i] == name[..i];
        hash := hash + name[i] as int;
      }
      assert name[..|name|] == name;
      hash := hash % 256;
    }

    /** The loops over one chain: the symbol with this name and constness, if there is one */
    method Search(name: string, isConst: bool) returns (found: Option<nat>)
      requires Valid()
      ensures found == if (name, isConst) in table.entries then Some(table.entries[(name, isConst)]) else None
    {
      var hash := HashOf(name);
      var chain := buckets[hash];
      assert ChainHolds(symbols, hash, chain);
      assert (name, isConst) in table.entries ==>
        table.entries[(name, isConst)] in buckets[BucketOf(symbols[table.entries[(name, isConst)]])];
      var c := 0;
      while c < |chain|
        invariant 0 <= c <= |chain|
        invariant forall d | 0 <= d < c :: symbols[chain[d]] != Named(Some(name), isConst)
      {
        if symbols[chain[c]].name == Some(name) && symbols[chain[c]].isConst == isConst {
          return Some(chain[c]);
        }
        c := c + 1;
      }
      found := None;
    }

    /** sym_lookup */
    method SymLookup(name: Option<string>, isConst: bool) returns (ref: Ref)
      requires Valid()
      modifies this
      ensures Valid()
      ensures Found(ref, table) == Lookup(old(table), name, isConst)
      ensures symbols == if table == old(table) then old(symbols) else old(symbols) + [Named(name, isConst)]
    {
      var hash := NAMELESS;
      if name.Some? {
        if FixedName(name.value).Some? {
          return FixedName(name.value).value;
        }
        var found := Search(name.value, isConst);
        if found.Some? {
          return Allocated(found.value);
        }
        hash := HashOf(name.value);
      }
      ref := Allocate(name, isConst, hash);
    }

    /** The part of sym_lookup that adds a symbol to the front of its chain */
    method Allocate(name: Option<string>, isConst: bool, hash: nat) returns (ref: Ref)
      requires Valid() && hash == BucketOf(Named(name, isConst))
      requires Lookup(table, name, isConst).ref == Allocated(|symbols|)
      requires name.Some? ==> FixedName(name.value).None? && (name.value, isConst) !in table.entries
      modifies this
      ensures Valid() && Found(ref, table) == Lookup(old(table), name, isConst)
      ensures symbols == old(symbols) + [Named(name, isConst)]
    {
      ChainedAfter(symbols, buckets, Named(name, isConst));
      ListedAfter(symbols, table, Named(name, isConst));
      ref := Allocated(|symbols|);
      table := Lookup(table, name, isConst).table;
      buckets := buckets[hash := [|symbols|] + buckets[hash]];
      symbols := symbols + [Named(name, isConst)];
    }

    /** sym_find: a symbol that is not constant, without adding one */
    method SymFind(name: Option<string>) returns (ref: Option<Ref>)
      requires Valid()
      ensures name.None? ==> ref.None?
      ensures name.Some? && FixedName(name.value).Some? ==> ref == FixedName(name.value)
      ensures name.Some? && FixedName(name.value).None? ==>
        (ref.Some? <==> (name.value, false) in table.entries) &&
        (ref.Some? ==> ref.value == Allocated(table.entries[(name.value, false)]))
    {
      if name.None? {
        return None;
      }
      if FixedName(name.value).Some? {
        return FixedName(name.value);
      }
      var found := Search(name.value, false);
      ref := if found.Some? then Some(Allocated(found.value)) else None;
    }
  }
}
