/** sstrip: how much of an ELF file is kept. */
module SStrip {

  /** One more than the largest unsigned long: arithmetic on sizes is modulo this. */
  type Width = w: nat | w > 0 witness 1

  const PT_NULL: nat := 0

  /** A program header: p_type, p_offset and p_filesz. */
  datatype Phdr = Phdr(kind: nat, offset: nat, filesz: nat) {
    /** p_offset + p_filesz as held in an unsigned long */
    function End(width: Width): nat { (offset + filesz) % width }
  }

  // getmemorysize

  /** The size covers the headers, up to start, and every segment. */
  predicate Covers(width: Width, size: nat, start: nat, phdrs: seq<Phdr>) {
    size >= start && forall i | 0 <= i < |phdrs| && phdrs[i].kind != PT_NULL :: size >= phdrs[i].End(width)
  }

  ghost predicate IsLeast(width: Width, size: nat, start: nat, phdrs: seq<Phdr>) {
    Covers(width, size, start, phdrs) && forall other | Covers(width, other, start, phdrs) :: size <= other
  }

  /** Up to the end of the program header table, but at least the ELF header */
  function HeaderSize(width: Width, phoff: nat, ehsize: nat, phentsize: nat, phnum: nat): nat {
    var table := (phoff + phnum * phentsize) % width;
    if table < ehsize then ehsize else table
  }

  /** It reaches to the end of the table and to the end of the ELF header, and no further. */
  lemma HeadersCovered(width: Width, phoff: nat, ehsize: nat, phentsize: nat, phnum: nat)
    ensures var size := HeaderSize(width, phoff, ehsize, phentsize, phnum);
      && size >= ehsize && (phoff + phnum * phentsize < width ==> size >= phoff + phnum * phentsize)
      && (size == ehsize || (phoff + phnum * phentsize < width ==> size == phoff + phnum * phentsize))
  {
    if phoff + phnum * phentsize < width { SmallMod(phoff + phnum * phentsize, width); }
  }

  /** getmemorysize, for a header of ehsize bytes and table entries of phentsize bytes: the
      least size that covers the ELF header, the program header table and all segments. */
  method GetMemorySize(width: Width, phoff: nat, ehsize: nat, phentsize: nat, phdrs: seq<Phdr>) returns (size: nat)
    requires ehsize < width
    ensures size < width
    ensures IsLeast(width, size, HeaderSize(width, phoff, ehsize, phentsize, |phdrs|), phdrs)
  {
    size := (phoff + |phdrs| * phentsize) % width;
    if size < ehsize {
      size := ehsize;
    }
    ghost var start := size;
    for i := 0 to |phdrs|
      invariant size < width && Covers(width, size, start, phdrs[..i])
      invariant size == start || exists j | 0 <= j < i :: phdrs[j].kind != PT_NULL && size == phdrs[j].End(width)
    {
      ghost var before := size;
      if phdrs[i].kind != PT_NULL {
        var n := phdrs[i].End(width);
        if n > size {
          size := n;
        }
      }
      CoversNext(width, before, size, start, phdrs, i);
    }
    assert phdrs[..|phdrs|] == phdrs;
  }

  lemma CoversNext(width: Width, size: nat, larger: nat, start: nat, phdrs: seq<Phdr>, i: nat)
    requires i < |phdrs| && Covers(width, size, start, phdrs[..i])
    requires larger >= size && (phdrs[i].kind != PT_NULL ==> larger >= phdrs[i].End(width))
    ensures Covers(width, larger, start, phdrs[..i + 1])
  {
    assert phdrs[..i + 1] == phdrs[..i] + [phdrs[i]];
  }

  // truncatezeros

  const CHUNK: nat := 1024

  /** The offset just behind the last byte of file[..size] that is not zero. */
  function Trimmed(file: seq<bv8>, size: nat): nat
    requires size <= |file|
  {
    if size == 0 || file[size - 1] != 0 then size else Trimmed(file, size - 1)
  }

  lemma {:induction false} TrimmedLaws(file: seq<bv8>, size: nat)
    requires size <= |file|
    ensures Trimmed(file, size) <= size
    ensures Trimmed(file, size) > 0 ==> file[Trimmed(file, size) - 1] != 0
    ensures forall i | Trimmed(file, size) <= i < size :: file[i] == 0
  {
    if size > 0 && file[size - 1] == 0 { TrimmedLaws(file, size - 1); }
  }

  /** One round of the outer loop: the last bytes of file[..size] are read into the buffer,
      and size shrinks over the zeros at the end of it. n is what the loop condition sees. */
  datatype Round = Round(size: nat, n: nat)

  /** The inner loop, on a buffer of which n bytes are left. */
  function Scan(contents: seq<bv8>, n: nat, size: nat): Round
    requires n <= |contents| && n <= size
  {
    if n == 0 then Round(size, 0)
    else if contents[n - 1] != 0 then Round(size, n - 1)
    else Scan(contents, n - 1, size - 1)
  }

  function ReadSize(size: nat): nat { if CHUNK > size then size else CHUNK }

  function Step(file: seq<bv8>, size: nat): Round
    requires size <= |file|
  {
    var n := ReadSize(size);
    Scan(file[size - n..size], n, size)
  }

  /** The condition of the outer loop */
  predicate Again(r: Round) { r.size != 0 && r.n == 0 }

  lemma {:induction false} ScanLaws(file: seq<bv8>, base: nat, n: nat)
    requires base + n <= |file|
    ensures var r := Scan(file[base..base + n], n, base + n);
      && base <= r.size <= base + n
      && Trimmed(file, base + n) == Trimmed(file, r.size)
      && (r.size == base ==> r.n == 0)
      && (r.size > base ==> file[r.size - 1] != 0 && r.n == r.size - 1 - base)
  {
    if n > 0 {
      var buffer := file[base..base + n];
      assert buffer[n - 1] == file[base + n - 1];
      if buffer[n - 1] == 0 {
        ScanLaws(file, base, n - 1);
        assert buffer[..n - 1] == file[base..base + n - 1][..n - 1];
        ScanPrefix(buffer, file[base..base + n - 1], n - 1, base + n - 1);
      }
    }
  }

  lemma ScanPrefix(a: seq<bv8>, b: seq<bv8>, n: nat, size: nat)
    requires n <= |a| && n <= |b| && n <= size && a[..n] == b[..n]
    ensures Scan(a, n, size) == Scan(b, n, size)
  {
    if n > 0 {
      assert a[..n][n - 1] == b[..n][n - 1];
      assert a[..n - 1] == a[..n][..n - 1] && b[..n - 1] == b[..n][..n - 1];
    }
  }

  lemma StepLaws(file: seq<bv8>, size: nat)
    requires size <= |file|
    ensures var r := Step(file, size);
      && r.size <= size && Trimmed(file, r.size) == Trimmed(file, size)
      && (!Again(r) ==> r.size == Trimmed(file, size) != 1)
      && (Again(r) ==> r.size < size || Trimmed(file, size) == 1)
  {
    ScanLaws(file, size - ReadSize(size), ReadSize(size));
  }

  /** The outer loop ends within k rounds. */
  predicate EndsWithin(file: seq<bv8>, size: nat, k: nat)
    requires size <= |file|
  {
    StepLaws(file, size);
    k > 0 && var r := Step(file, size); (!Again(r) || EndsWithin(file, r.size, k - 1))
  }

  lemma {:induction false} EndsUnlessOneByte(file: seq<bv8>, size: nat)
    requires size <= |file| && Trimmed(file, size) != 1
    ensures EndsWithin(file, size, size + 1)
  {
    StepLaws(file, size);
    var r := Step(file, size);
    if Again(r) {
      EndsUnlessOneByte(file, r.size);
      EndsLater(file, r.size, r.size + 1, size);
    }
  }

  lemma EndsLater(file: seq<bv8>, size: nat, k: nat, k': nat)
    requires size <= |file| && k <= k' && EndsWithin(file, size, k)
    ensures EndsWithin(file, size, k')
    decreases k
  {
    StepLaws(file, size);
    if Again(Step(file, size)) { EndsLater(file, Step(file, size).size, k - 1, k' - 1); }
  }

  lemma {:induction false} NeverEnds(file: seq<bv8>, size: nat, k: nat)
    requires size <= |file| && Trimmed(file, size) == 1
    ensures !EndsWithin(file, size, k)
    decreases k
  {
    StepLaws(file, size);
    if k > 0 { NeverEnds(file, Step(file, size).size, k - 1); }
  }

  /** The first byte is the only one that is not zero. */
  predicate OnlyFirst(file: seq<bv8>, size: nat)
    requires 0 < size <= |file|
  {
    file[0] != 0 && forall i | 1 <= i < size :: file[i] == 0
  }

  lemma OnlyFirstTrimmed(file: seq<bv8>, size: nat)
    requires 0 < size <= |file|
    ensures OnlyFirst(file, size) <==> Trimmed(file, size) == 1
  {
    TrimmedLaws(file, size);
    var t := Trimmed(file, size);
    if t > 1 { assert file[t - 1] != 0; }
  }

  ghost predicate Ends(file: seq<bv8>, size: nat)
    requires size <= |file|
  {
    exists k :: EndsWithin(file, size, k)
  }

  /** truncatezeros comes to an end exactly if the first byte is not the only one that is
      not zero. */
  lemma TerminatesIff(file: seq<bv8>, size: nat)
    requires 0 < size <= |file|
    ensures Ends(file, size) <==> !OnlyFirst(file, size)
  {
    OnlyFirstTrimmed(file, size);
    if Trimmed(file, size) == 1 {
      forall k ensures !EndsWithin(file, size, k) {
        NeverEnds(file, size, k);
      }
    } else {
      EndsUnlessOneByte(file, size);
    }
  }

  /** truncatezeros on a file whose loop ends. It fails if the file is shorter than size or
      blank up to there; otherwise the new size is just behind the last byte not zero. */
  method TruncateZeros(file: seq<bv8>, newsize: nat) returns (ok: bool, result: nat)
    requires 0 < newsize <= |file| ==> !OnlyFirst(file, newsize)
    ensures ok == (newsize <= |file| && Trimmed(file, newsize) > 0)
    ensures result == if ok then Trimmed(file, newsize) else newsize
  {
    if 0 < newsize <= |file| { OnlyFirstTrimmed(file, newsize); }
    var contents := new bv8[CHUNK];
    var size: nat := newsize;
    var n: nat;
    result := newsize;
    while true
      invariant size <= newsize
      invariant newsize <= |file| ==> Trimmed(file, size) == Trimmed(file, newsize)
      invariant newsize > |file| ==> size == newsize
      decreases size
    {
      n := if CHUNK > size then size else CHUNK;
      if size > |file| {
        return false, newsize;
      }
      ghost var base, start := size - n, size;
      forall i | 0 <= i < n {
        contents[i] := file[size - n + i];
      }
      assert contents[..n] == file[base..start];
      StepLaws(file, start);
      size, n := ScanBuffer(contents, n, size);
      ScanPrefix(contents[..], file[base..start], start - base, start);
      if !(size != 0 && n == 0) {
        break;
      }
    }
    if size == 0 {
      return false, newsize;
    }
    return true, size;
  }

  /** while (n && !contents[--n]) --size; */
  method ScanBuffer(contents: array<bv8>, n0: nat, size0: nat) returns (size: nat, n: nat)
    requires n0 <= contents.Length && n0 <= size0
    ensures Round(size, n) == Scan(contents[..], n0, size0)
  {
    size, n := size0, n0;
    while n != 0
      invariant n <= n0 && n <= size
      invariant Scan(contents[..], n0, size0) == Scan(contents[..], n, size)
    {
      n := n - 1;
      if contents[n] != 0 {
        break;
      }
      size := size - 1;
    }
  }

  /** Main result: of every segment that does not wrap around, each byte is kept or is zero. */
  lemma SegmentBytesKept(width: Width, file: seq<bv8>, size: nat, start: nat, phdrs: seq<Phdr>, i: nat, at: nat)
    requires size <= |file| && Covers(width, size, start, phdrs)
    requires i < |phdrs| && phdrs[i].kind != PT_NULL && phdrs[i].offset + phdrs[i].filesz < width
    requires phdrs[i].offset <= at < phdrs[i].offset + phdrs[i].filesz
    ensures at < size && (at < Trimmed(file, size) || file[at] == 0)
  {
    TrimmedLaws(file, size);
    NoWrap(phdrs[i], width);
  }

  /** An offset is covered exactly if it lies before the end of the headers or of a segment. */
  lemma CoveredIff(width: Width, size: nat, start: nat, phdrs: seq<Phdr>, at: nat)
    requires IsLeast(width, size, start, phdrs)
    ensures at < size <==> at < start || exists i :: 0 <= i < |phdrs| && phdrs[i].kind != PT_NULL && at < phdrs[i].End(width)
  {
    if at < size { assert !Covers(width, at, start, phdrs); }
  }

  /** A segment whose end wraps around ends before it starts and so covers none of its bytes. */
  lemma WrappedCoversNothing(p: Phdr, width: Width, at: nat)
    requires p.offset < width && p.filesz < width && p.offset <= at
    ensures p.offset + p.filesz >= width ==> p.End(width) <= at
  {
    if p.offset + p.filesz >= width { WrapOnce(p.offset + p.filesz, width); }
  }

  lemma WrapOnce(x: nat, width: Width)
    requires width <= x < 2 * width
    ensures x % width == x - width
  {
    SmallMod(x - width, width);
    assert x == (x - width) + 1 * width;
  }

  /** In a file with 52 bytes of header and one table entry of 32, a segment right behind
      them whose size is the largest unsigned long: nothing of it is kept. */
  lemma WrappedSegmentCut(width: Width, file: seq<bv8>, size: nat)
    requires width > 84 && |file| > 84 && file[84] != 0
    requires IsLeast(width, size, HeaderSize(width, 52, 52, 32, 1), [Phdr(1, 84, width - 1)])
    ensures size == 84 && file[size] != 0
  {
    var phdrs := [Phdr(1, 84, width - 1)];
    SmallMod(84, width);
    WrappedCoversNothing(phdrs[0], width, 84);
    assert Covers(width, 84, 84, phdrs);
  }

  lemma NoWrap(p: Phdr, width: Width)
    requires p.offset + p.filesz < width
    ensures p.End(width) == p.offset + p.filesz
  {
    SmallMod(p.offset + p.filesz, width);
  }

  lemma SmallMod(x: nat, width: Width)
    requires x < width
    ensures x % width == x
  {}
}
