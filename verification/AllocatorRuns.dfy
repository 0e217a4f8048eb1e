/** Whole runs of malloc, free and realloc: the allocator is a table of byte strings, named by their addresses. */
module AllocatorRuns {
  import opened PageDirectory
  import opened DirectoryPages
  import opened FreeLists
  import opened PagePartition
  import opened PageHeaps
  import opened Bitmaps
  import opened Chunks
  import opened Mallocs
  import opened Blocks
  import opened Pointers
  import opened Allocators

  /** The blocks that a program holds, with what it has stored in them. */
  type View = map<nat, seq<bv8>>

  type Junk = b: Bitmap | |b| >= BITS witness seq(BITS, _ => seq(BITS, _ => false))

  /** What a program can do. The rest of the arguments is what the allocator does not decide: random numbers, what fresh
      memory holds, and which requests to the system succeed. */
  datatype Op =
    | Malloc(size: nat, rnd: nat, junk: Junk, blockOk: bool)
    | Free(ptr: nat, munmapOk: bool)
    | Realloc(ptr: nat, size: nat, always: bool, rnd: nat, junk: Junk, blockOk: bool, munmapOk: bool)
    | Write(ptr: nat, i: nat, v: bv8)

  /** Answers of mmap, by the number of the operation, the directory and the pages asked for. */
  type System = (nat, Dirs, nat) -> Mmap

  /** The contract of mmap, whatever the answers are. */
  ghost predicate Honest(os: System, guard: bool) {
    forall i: nat, dirs: Dirs, pages: nat :: FreshRegion(dirs, os(i, dirs, pages), pages, guard)
  }

  /** With guard pages, sizes that imalloc lets through and that then leave size_t are excluded. */
  predicate SizeOk(op: Op, guard: bool) {
    op.Malloc? || op.Realloc? ==> TooLarge(op.size) || !guard || op.size <= TWO64 - 2 * PAGESIZE
  }

  /** A request to the system may fail in this operation. */
  ghost predicate MayFail(os: System, i: nat, op: Op) {
    ((op.Malloc? || op.Realloc?) && !op.blockOk) || exists dirs: Dirs, pages: nat :: os(i, dirs, pages).MapFailed?
  }

  predicate Unmaps(op: Op) { op.Free? || op.Realloc? ==> op.munmapOk }

  // ----- The specification: a table of byte strings -----

  /** A string of n bytes at r, which is new. */
  ghost predicate NewString(v: View, v': View, r: nat, n: nat) {
    r != 0 && r !in v && r in v' && |v'[r]| == n && v' == v[r := v'[r]]
  }

  /** The string at p is at r now and has n bytes, as many of them as before as there were and fit. */
  ghost predicate Resized(v: View, v': View, p: nat, r: nat, n: nat)
    requires p in v
  {
    && r != 0 && (r != p ==> r !in v) && r in v' && |v'[r]| == n && v' == (v - {p})[r := v'[r]]
    && forall i :: 0 <= i < |v[p]| && i < n ==> v'[r][i] == v[p][i]
  }

  lemma NewStringOf(v: View, r: nat, bytes: seq<bv8>)
    requires r != 0 && r !in v
    ensures NewString(v, v[r := bytes], r, |bytes|)
  {
  }

  /** One operation with the result r. fails says that a request to the system may fail in it. NULL has a reason, and
      realloc to the size a string has, if it has bytes, moves nothing and never fails. */
  ghost predicate Step(v: View, op: Op, fails: bool, r: nat, v': View) {
    match op
    case Malloc(size, _, _, _) =>
      if r == 0 then v' == v && (size + PAGESIZE >= TWO64 || fails)
      else size + PAGESIZE < TWO64 && NewString(v, v', r, size)
    case Free(ptr, _) => v' == v - {ptr}
    case Realloc(ptr, size, always, _, _, _, _) =>
      if ptr != 0 && ptr in v && !always && 0 < size == |v[ptr]| then r == ptr && v' == v
      else if r == 0 then v' == v && (size + PAGESIZE >= TWO64 || fails || (ptr != 0 && ptr !in v))
      else if ptr == 0 then size + PAGESIZE < TWO64 && NewString(v, v', r, size)
      else ptr in v && Resized(v, v', ptr, r, size)
    case Write(ptr, i, b) =>
      v' == if ptr in v && i < |v[ptr]| then v[ptr := v[ptr][i := b]] else v
  }

  /** The strings that no operation names stay as they are: realloc and free touch no other, malloc none. */
  lemma {:induction false} Untouched(views: seq<View>, ops: seq<Op>, fails: seq<bool>, results: seq<nat>, i: nat, j: nat,
                                     p: nat)
    requires |views| == |ops| + 1 && |fails| == |results| == |ops| && i <= j <= |ops|
    requires forall k :: 0 <= k < |ops| ==> Step(views[k], ops[k], fails[k], results[k], views[k + 1])
    requires p in views[i] && forall k :: i <= k < j ==> ops[k].Malloc? || ops[k].ptr != p
    ensures p in views[j] && views[j][p] == views[i][p]
    decreases j - i
  {
    if i < j {
      Untouched(views, ops, fails, results, i, j - 1, p);
      assert Step(views[j - 1], ops[j - 1], fails[j - 1], results[j - 1], views[j]);
    }
  }

  // ----- The allocator agrees with it -----

  ghost predicate HoldsBytes(mem: nat -> bv8, p: nat, bytes: seq<bv8>) {
    forall i: nat :: i < |bytes| ==> Byte(mem, p + i) == bytes[i]
  }

  /** Block b is in use, starts at p, is large enough for the bytes, but not too large, and holds them. */
  ghost predicate Keeps(s: Books, mem: nat -> bv8, p: nat, bytes: seq<bv8>, b: Block) {
    && LiveIn(s, b) && Start(s.infos, b) == p && |bytes| <= Usable(s.infos, b) && HoldsBytes(mem, p, bytes)
    && Holdable(b.Pages?, |bytes|, Usable(s.infos, b))
  }

  /** The block is one that irealloc keeps for n bytes. */
  ghost predicate Holdable(pages: bool, n: nat, usable: nat) { n > 0 ==> Suits(pages, n, usable) }

  /** The blocks in use are those of the table, each at its address with its bytes. */
  ghost predicate Agrees(s: Books, mem: nat -> bv8, v: View, blocks: map<nat, Block>) {
    && blocks.Keys == v.Keys
    && (forall p :: p in blocks ==> Keeps(s, mem, p, v[p], blocks[p]))
    && (forall b :: LiveIn(s, b) ==> Start(s.infos, b) in blocks && blocks[Start(s.infos, b)] == b)
  }

  lemma AgreesStart(s: Books, mem: nat -> bv8, v: View, blocks: map<nat, Block>, p: nat)
    requires Agrees(s, mem, v, blocks)
    ensures StartsAt(s, p) <==> p in v
  {
    hide LiveIn;
    if p in blocks { assert Keeps(s, mem, p, v[p], blocks[p]); }
  }

  /** Bytes from p on as memory holds them. */
  function Bytes(mem: nat -> bv8, p: nat, n: nat): (r: seq<bv8>)
    ensures |r| == n && HoldsBytes(mem, p, r)
  {
    seq(n, (i: nat) => Byte(mem, p + i))
  }

  /** A block came into use at p, and no other starts there. */
  lemma AddedAgrees(s: Books, s': Books, mem: nat -> bv8, v: View, blocks: map<nat, Block>, b: Block, p: nat, n: nat)
    requires Agrees(s, mem, v, blocks) && Added(s, s', b) && Located(s'.infos, b)
    requires Start(s'.infos, b) == p && n <= Usable(s'.infos, b) && Holdable(b.Pages?, n, Usable(s'.infos, b))
    requires forall x :: LiveIn(s', x) && Start(s'.infos, x) == p ==> x == b
    ensures p !in v && Agrees(s', mem, v[p := Bytes(mem, p, n)], blocks[p := b])
  {
    hide LiveIn;
    AllStay(s, s', mem, v, blocks);
    var v', blocks' := v[p := Bytes(mem, p, n)], blocks[p := b];
    forall q | q in blocks' ensures Keeps(s', mem, q, v'[q], blocks'[q]) {
    }
    forall x | LiveIn(s', x) ensures Located(s'.infos, x) && Start(s'.infos, x) in blocks'
                                  && blocks'[Start(s'.infos, x)] == x
    {
      LiveLocated(s', x);
      if x != b { assert LiveIn(s, x); }
    }
  }

  lemma LiveLocated(s: Books, b: Block)
    requires LiveIn(s, b)
    ensures Located(s.infos, b)
  {
  }

  /** Blocks that are still in use are at their places, with their bytes if memory has not changed. */
  lemma AllStay(s: Books, s': Books, mem: nat -> bv8, v: View, blocks: map<nat, Block>)
    requires Agrees(s, mem, v, blocks) && Unmoved(s, s')
    ensures forall q :: q in blocks ==>
      LiveIn(s, blocks[q]) && (LiveIn(s', blocks[q]) ==> Keeps(s', mem, q, v[q], blocks[q]))
  {
    hide LiveIn;
    forall q | q in blocks
      ensures LiveIn(s, blocks[q]) && (LiveIn(s', blocks[q]) ==> Keeps(s', mem, q, v[q], blocks[q]))
    {
      assert Keeps(s, mem, q, v[q], blocks[q]);
    }
  }

  /** The block at p went out of use. */
  lemma DroppedAgrees(s: Books, s': Books, mem: nat -> bv8, v: View, blocks: map<nat, Block>, b: Block, p: nat)
    requires Agrees(s, mem, v, blocks) && Dropped(s, s', b) && Located(s.infos, b) && Start(s.infos, b) == p
    ensures p in v && Agrees(s', mem, v - {p}, blocks - {p})
  {
    hide LiveIn;
    assert blocks[p] == b;
    forall q | q in blocks - {p} ensures Keeps(s', mem, q, (v - {p})[q], (blocks - {p})[q]) {
      assert Keeps(s, mem, q, v[q], blocks[q]);
      assert blocks[q] != b && LiveIn(s', blocks[q]);
    }
    forall x | LiveIn(s', x) ensures Located(s'.infos, x) && Start(s'.infos, x) in blocks - {p}
                                  && (blocks - {p})[Start(s'.infos, x)] == x
    {
      LiveLocated(s', x);
      assert LiveIn(s, x);
    }
  }

  lemma UnchangedAgrees(s: Books, s': Books, mem: nat -> bv8, v: View, blocks: map<nat, Block>)
    requires Agrees(s, mem, v, blocks) && Unchanged(s, s')
    ensures Agrees(s', mem, v, blocks)
  {
    hide LiveIn;
    forall q | q in blocks ensures Keeps(s', mem, q, v[q], blocks[q]) {
      assert Keeps(s, mem, q, v[q], blocks[q]) && LiveIn(s', blocks[q]);
    }
    forall x | LiveIn(s', x) ensures Located(s'.infos, x) && Start(s'.infos, x) in blocks
                                  && blocks[Start(s'.infos, x)] == x
    {
      LiveLocated(s', x);
      assert LiveIn(s, x);
    }
  }

  /** The bytes of a block fit in it, and no other block shares any of them. */
  ghost predicate ClearOf(s: Books, b: Block) {
    && Located(s.infos, b) && Usable(s.infos, b) <= Size(s.infos, b)
    && forall x :: LiveIn(s, x) && x != b ==>
         && Usable(s.infos, x) <= Size(s.infos, x)
         && Start(s.infos, x) != Start(s.infos, b)
         && (End(s.infos, x) <= Start(s.infos, b) || End(s.infos, b) <= Start(s.infos, x))
  }

  lemma UsableFits(infos: Infos, b: Block)
    requires InfosOk(infos) && Located(infos, b)
    ensures Usable(infos, b) <= Size(infos, b)
  {
    hide Count, InPage;
    if b.Piece? { Pow2Monotone(0, infos[b.p].shift); }
  }

  lemma Cleared(s: Books, fl: seq<FreeRun>, guard: bool, lastIndex: nat, brk: nat, b: Block)
    requires BooksOk(s, fl, guard, lastIndex, brk) && LiveIn(s, b)
    ensures ClearOf(s, b)
  {
    hide Partition, InfosOk, ChunksMarked, TopOk, Coalesced;
    LiveLocated(s, b);
    UsableFits(s.infos, b);
    forall x | LiveIn(s, x) && x != b
      ensures Usable(s.infos, x) <= Size(s.infos, x) && Start(s.infos, x) != Start(s.infos, b)
      ensures End(s.infos, x) <= Start(s.infos, b) || End(s.infos, b) <= Start(s.infos, x)
    {
      LiveLocated(s, x);
      UsableFits(s.infos, x);
      BlocksDisjoint(s.dirs, fl, s.live, guard, s.infos, x, b);
      BothHaveBytes(s, fl, guard, lastIndex, brk, x, b);
    }
  }

  lemma BothHaveBytes(s: Books, fl: seq<FreeRun>, guard: bool, lastIndex: nat, brk: nat, a: Block, b: Block)
    requires BooksOk(s, fl, guard, lastIndex, brk) && LiveIn(s, a) && LiveIn(s, b)
    ensures Located(s.infos, a) && Located(s.infos, b) && Size(s.infos, a) > 0 && Size(s.infos, b) > 0
  {
    HasBytes(s.dirs, s.live, guard, s.infos, a);
    HasBytes(s.dirs, s.live, guard, s.infos, b);
  }

  /** The block at p was replaced by one at r that holds its first bytes. */
  lemma MovedAgrees(s: Books, s': Books, mem: nat -> bv8, mem': nat -> bv8, v: View, blocks: map<nat, Block>, b: Block,
                    nb: Block, p: nat, r: nat, n: nat)
    requires Agrees(s, mem, v, blocks) && p in blocks && blocks[p] == b && Located(s.infos, b)
    requires Moved(s, s', mem, mem', b, nb, r, n, Usable(s.infos, b)) && ClearOf(s', nb)
    ensures r !in v && r != p
    ensures Agrees(s', mem', (v - {p})[r := Bytes(mem', r, n)], (blocks - {p})[r := nb])
    ensures forall i :: 0 <= i < |v[p]| && i < n ==> Byte(mem', r + i) == v[p][i]
  {
    hide LiveIn, IsCapacity, Suits, Holdable, HoldsBytes;
    MovedBytes(s, s', mem, mem', b, nb, p, r, n, v[p]);
    AllStay(s, s', mem, v, blocks);
    var v', blocks' := (v - {p})[r := Bytes(mem', r, n)], (blocks - {p})[r := nb];
    NewKept(s', mem', nb, r, n);
    forall q | q in blocks' ensures Keeps(s', mem', q, v'[q], blocks'[q]) {
      if q != r {
        assert LiveIn(s', blocks[q]);
        OtherBytes(s', mem, mem', Start(s.infos, b), nb, blocks[q], Min(Usable(s.infos, b), n), v[q]);
      }
    }
    hide Copied, HasCapacity;
    forall x | LiveIn(s', x) ensures Located(s'.infos, x) && Start(s'.infos, x) in blocks'
                                  && blocks'[Start(s'.infos, x)] == x
    {
      LiveLocated(s', x);
      if x != nb { assert LiveIn(s, x); }
    }
  }

  /** The new block keeps its string. */
  lemma NewKept(s: Books, mem: nat -> bv8, nb: Block, r: nat, n: nat)
    requires LiveIn(s, nb) && Located(s.infos, nb) && Start(s.infos, nb) == r && HasCapacity(s.infos, nb, n)
    ensures Keeps(s, mem, r, Bytes(mem, r, n), nb)
  {
    hide LiveIn, IsCapacity, Suits;
    if n > 0 { OwnSizeSuits(s.infos, nb, n); }
  }

  /** The first bytes of the old block are in the new one. */
  lemma MovedBytes(s: Books, s': Books, mem: nat -> bv8, mem': nat -> bv8, b: Block, nb: Block, p: nat, r: nat, n: nat,
                   bytes: seq<bv8>)
    requires Keeps(s, mem, p, bytes, b) && Located(s.infos, b) && Moved(s, s', mem, mem', b, nb, r, n, Usable(s.infos, b))
    ensures forall i :: 0 <= i < |bytes| && i < n ==> Byte(mem', r + i) == bytes[i]
  {
    hide LiveIn, IsCapacity, Suits, Start, Usable, Replaced;
    forall i: nat | i < |bytes| && i < n ensures Byte(mem', r + i) == bytes[i] {
      assert Byte(mem, p + i) == bytes[i];
    }
  }

  /** A copy into block nb leaves the bytes of another block x alone. */
  lemma OtherBytes(s: Books, mem: nat -> bv8, mem': nat -> bv8, src: nat, nb: Block, x: Block, n: nat, bytes: seq<bv8>)
    requires LiveIn(s, x) && Located(s.infos, x) && x != nb && ClearOf(s, nb)
    requires Copied(mem, mem', src, Start(s.infos, nb), n) && n <= Size(s.infos, nb)
    requires |bytes| <= Usable(s.infos, x) && HoldsBytes(mem, Start(s.infos, x), bytes)
    ensures HoldsBytes(mem', Start(s.infos, x), bytes)
  {
    var p, d := Start(s.infos, x), Start(s.infos, nb);
    assert p + Size(s.infos, x) <= d || d + Size(s.infos, nb) <= p;
    assert |bytes| <= Size(s.infos, x);
    hide Size, Start, ClearOf;
    forall i: nat | i < |bytes| ensures Byte(mem', p + i) == bytes[i] {
      assert Byte(mem, p + i) == bytes[i];
    }
  }

  lemma ResizedAgrees(s: Books, mem: nat -> bv8, v: View, blocks: map<nat, Block>, p: nat, n: nat)
    requires Agrees(s, mem, v, blocks) && p in blocks && Located(s.infos, blocks[p]) && n <= Usable(s.infos, blocks[p])
    requires Holdable(blocks[p].Pages?, n, Usable(s.infos, blocks[p]))
    ensures Agrees(s, mem, v[p := Bytes(mem, p, n)], blocks)
    ensures forall i :: 0 <= i < |v[p]| && i < n ==> Bytes(mem, p, n)[i] == v[p][i]
  {
    hide LiveIn;
    assert Keeps(s, mem, p, v[p], blocks[p]);
    var v' := v[p := Bytes(mem, p, n)];
    forall q | q in blocks ensures Keeps(s, mem, q, v'[q], blocks[q]) {
      assert Keeps(s, mem, q, v[q], blocks[q]);
    }
  }

  /** A store into a block that is held. */
  lemma WrittenAgrees(s: Books, mem: nat -> bv8, mem': nat -> bv8, v: View, blocks: map<nat, Block>, p: nat, i: nat, b: bv8)
    requires Agrees(s, mem, v, blocks) && p in v && i < |v[p]|
    requires Poked(mem, mem', p + i, b)
    requires ClearOf(s, blocks[p])
    ensures Agrees(s, mem', v[p := v[p][i := b]], blocks)
  {
    hide LiveIn;
    assert Keeps(s, mem, p, v[p], blocks[p]);
    var v' := v[p := v[p][i := b]];
    forall q | q in blocks ensures Keeps(s, mem', q, v'[q], blocks[q]) {
      assert Keeps(s, mem, q, v[q], blocks[q]);
      LiveLocated(s, blocks[q]);
      if q != p { StoreElsewhere(s, mem, mem', p + i, b, blocks[p], blocks[q], v[q]); }
    }
  }

  lemma StoreElsewhere(s: Books, mem: nat -> bv8, mem': nat -> bv8, a: nat, value: bv8, b: Block,
                       x: Block, bytes: seq<bv8>)
    requires LiveIn(s, x) && Located(s.infos, x) && x != b && ClearOf(s, b)
    requires Start(s.infos, b) <= a < End(s.infos, b) && Poked(mem, mem', a, value)
    requires |bytes| <= Usable(s.infos, x) && HoldsBytes(mem, Start(s.infos, x), bytes)
    ensures HoldsBytes(mem', Start(s.infos, x), bytes)
  {
    var p := Start(s.infos, x);
    assert p + Size(s.infos, x) <= Start(s.infos, b) || End(s.infos, b) <= p;
    assert |bytes| <= Size(s.infos, x);
    hide Size, Start, ClearOf;
    forall i: nat | i < |bytes| ensures Byte(mem', p + i) == bytes[i] {
      assert Byte(mem, p + i) == bytes[i];
    }
  }

  lemma AgreesKeys(s: Books, mem: nat -> bv8, v: View, blocks: map<nat, Block>)
    requires Agrees(s, mem, v, blocks)
    ensures blocks.Keys == v.Keys
  {
  }

  /** A block in use is the one that is held at its start. */
  lemma AgreesAt(s: Books, mem: nat -> bv8, v: View, blocks: map<nat, Block>, b: Block)
    requires Agrees(s, mem, v, blocks) && LiveIn(s, b)
    ensures Located(s.infos, b) && Start(s.infos, b) in blocks && blocks[Start(s.infos, b)] == b
  {
  }

  /** A string that is held suits its block. */
  lemma HeldSuits(s: Books, mem: nat -> bv8, v: View, blocks: map<nat, Block>, p: nat)
    requires Agrees(s, mem, v, blocks) && p in v && |v[p]| > 0
    ensures p in blocks && Located(s.infos, blocks[p]) && Suits(blocks[p].Pages?, |v[p]|, Usable(s.infos, blocks[p]))
  {
    hide Suits;
    assert Keeps(s, mem, p, v[p], blocks[p]);
  }

  lemma LiveAtKey(s: Books, mem: nat -> bv8, v: View, blocks: map<nat, Block>, p: nat)
    requires Agrees(s, mem, v, blocks) && p in blocks
    ensures LiveIn(s, blocks[p])
  {
    assert Keeps(s, mem, p, v[p], blocks[p]);
  }

  lemma MovedLive(s: Books, s': Books, mem: nat -> bv8, mem': nat -> bv8, b: Block, nb: Block, p: nat, n: nat)
    requires Located(s.infos, b) && Moved(s, s', mem, mem', b, nb, p, n, Usable(s.infos, b))
    ensures LiveIn(s', nb)
  {
    hide LiveIn;
  }

  /** A program that uses the allocator, and the strings it holds. */
  class Program {
    const a: Allocator
    var view: View
    ghost var blocks: map<nat, Block>

    ghost predicate Valid()
      reads this, a, a.m, a.m.heap, a.m.heap.pd
    {
      a.Valid() && Agrees(a.State(), a.mem, view, blocks)
    }

    constructor (guard: bool, cachePages: nat)
      requires cachePages < TWO64 / PAGESIZE
      ensures Valid() && view == map[] && a.m.heap.guard == guard && a.m.heap.Tidy()
      ensures a.m.heap.cache == if cachePages == 0 then PAGESIZE else cachePages * PAGESIZE
      ensures fresh(a) && fresh(a.m) && fresh(a.m.heap) && fresh(a.m.heap.pd)
    {
      a := new Allocator(guard, cachePages);
      view, blocks := map[], map[];
    }

    /** The allocator would take ptr for a block, and the program holds none there. */
    predicate Wild(ptr: nat)
      requires Valid()
      reads this, a, a.m, a.m.heap, a.m.heap.pd
    {
      ptr != 0 && Accepts(a.m.heap.pd.dirs, a.m.infos, a.m.heap.lastIndex, ptr) && ptr !in view
    }

    lemma WildExactly(ptr: nat)
      requires Valid()
      ensures StartsAt(a.State(), ptr) <==> ptr in view
      ensures ptr != 0 ==> (Wild(ptr) <==> a.Misreads(ptr))
    {
      a.Ok();
      AgreesStart(a.State(), a.mem, view, blocks, ptr);
      AcceptedExactly(a.State(), a.m.heap.freeList, a.m.heap.guard, a.m.heap.lastIndex, a.m.heap.brk, ptr);
      if a.Misreads(ptr) {
        MisreadAccepted(a.State(), a.m.heap.freeList, a.m.heap.guard, a.m.heap.lastIndex, a.m.heap.brk, ptr);
      }
    }

    method DoMalloc(size: nat, rnd: nat, junk: Junk, ans: Mmap, blockOk: bool) returns (r: nat)
      requires Valid() && (TooLarge(size) || !a.m.heap.guard || size <= TWO64 - 2 * PAGESIZE)
      requires FreshRegion(a.m.heap.pd.dirs, ans, PagesFor(size), a.m.heap.guard)
      modifies this, a.m, a.m.heap, a.m.heap.pd
      ensures Valid() && (old(a.m.heap.Tidy()) ==> a.m.heap.Tidy())
      ensures if r == 0 then view == old(view) && (size + PAGESIZE >= TWO64 || ans.MapFailed? || !blockOk)
              else size + PAGESIZE < TWO64 && NewString(old(view), view, r, size)
    {
      hide Allocator.Valid, Agrees, Added, Unchanged, PageHeap.Tidy, FreshRegion, LiveIn, IsCapacity, NewString;
      ghost var s, b := a.State(), Piece(0, 0);
      a.WhyRefused(size, ans, blockOk);
      r, b := a.Imalloc(size, rnd, junk, ans, blockOk);
      if r == 0 {
        UnchangedAgrees(s, a.State(), a.mem, view, blocks);
      } else {
        a.NewAt(s, r, b);
        if size > 0 { OwnSizeSuits(a.m.infos, b, size); }
        AddedAgrees(s, a.State(), a.mem, view, blocks, b, r, size);
        NewStringOf(view, r, Bytes(a.mem, r, size));
        view, blocks := view[r := Bytes(a.mem, r, size)], blocks[r := b];
      }
    }

    /** free, for a pointer that the program holds, or that the allocator refuses. */
    method DoFree(ptr: nat, munmapOk: bool)
      requires Valid() && !Wild(ptr)
      modifies this, a.m, a.m.heap, a.m.heap.pd
      ensures Valid() && (munmapOk && old(a.m.heap.Tidy()) ==> a.m.heap.Tidy())
      ensures view == old(view) - {ptr}
    {
      hide Allocator.Valid, Agrees, Dropped, Unchanged, PageHeap.Tidy, LiveIn, Misread, StartsAt, Accepts;
      WildExactly(ptr);
      if ptr == 0 {
        NoNull();
        return;
      }
      ghost var s, b := a.State(), Piece(0, 0);
      var freed;
      freed, b := a.Ifree(ptr, munmapOk);
      if freed {
        DroppedAgrees(s, a.State(), a.mem, view, blocks, b, ptr);
        view, blocks := view - {ptr}, blocks - {ptr};
      } else {
        UnchangedAgrees(s, a.State(), a.mem, view, blocks);
      }
    }

    method DoRealloc(ptr: nat, size: nat, always: bool, rnd: nat, junk: Junk, ans: Mmap, blockOk: bool, munmapOk: bool)
      returns (r: nat)
      requires Valid() && !Wild(ptr) && (TooLarge(size) || !a.m.heap.guard || size <= TWO64 - 2 * PAGESIZE)
      requires FreshRegion(a.m.heap.pd.dirs, ans, PagesFor(size), a.m.heap.guard)
      modifies this, a`mem, a.m, a.m.heap, a.m.heap.pd
      ensures Valid() && (munmapOk && old(a.m.heap.Tidy()) ==> a.m.heap.Tidy())
      ensures r == 0 ==> view == old(view)
      ensures r == 0 ==> size + PAGESIZE >= TWO64 || ans.MapFailed? || !blockOk || (ptr != 0 && ptr !in old(view))
      ensures r != 0 && ptr == 0 ==> size + PAGESIZE < TWO64 && NewString(old(view), view, r, size)
      ensures r != 0 && ptr != 0 ==> ptr in old(view) && Resized(old(view), view, ptr, r, size)
      ensures ptr != 0 && ptr in old(view) && !always && 0 < size == |old(view)[ptr]| ==> r == ptr && view == old(view)
    {
      hide Allocator.Valid, Agrees, Unchanged, Moved, PageHeap.Tidy, LiveIn, Misread, StartsAt, Accepts, FreshRegion;
      hide NewString, Resized, Suits;
      if ptr == 0 {
        r := DoMalloc(size, rnd, junk, ans, blockOk);
        return;
      }
      WildExactly(ptr);
      a.WhyRefused(size, ans, blockOk);
      ghost var s, mem, b, nb := a.State(), a.mem, Piece(0, 0), Piece(0, 0);
      r, b, nb := a.Irealloc(ptr, size, always, rnd, junk, ans, blockOk, munmapOk);
      if ptr in view && 0 < size == |view[ptr]| {
        AgreesAt(s, mem, view, blocks, b);
        HeldSuits(s, mem, view, blocks, ptr);
      }
      if r == 0 {
        UnchangedAgrees(s, a.State(), a.mem, view, blocks);
      } else {
        AgreesAt(s, mem, view, blocks, b);
        Follow(ptr, size, r, s, mem, b, nb, always);
      }
    }

    /** What irealloc has done, on the program's side. */
    method Follow(ptr: nat, size: nat, r: nat, ghost s: Books, ghost mem: nat -> bv8, ghost b: Block, ghost nb: Block,
                  ghost always: bool)
      requires a.Valid() && Agrees(s, mem, view, blocks) && ptr in blocks && blocks[ptr] == b && ptr != 0 && r != 0
      requires Located(s.infos, b)
      requires if Stays(b.Pages?, always, size, Usable(s.infos, b))
               then r == ptr && Unchanged(s, a.State()) && a.mem == mem
               else Moved(s, a.State(), mem, a.mem, b, nb, r, size, Usable(s.infos, b))
      modifies this`view, this`blocks
      ensures Valid() && ptr in old(view) && Resized(old(view), view, ptr, r, size)
      ensures r == ptr && size == |old(view)[ptr]| ==> view == old(view)
    {
      hide Allocator.Valid, Agrees, Unchanged, Moved, LiveIn;
      AgreesKeys(s, mem, view, blocks);
      ghost var v := view;
      view := (view - {ptr})[r := Bytes(a.mem, r, size)];
      if Stays(b.Pages?, always, size, Usable(s.infos, b)) {
        assert view == v[ptr := Bytes(a.mem, ptr, size)];
        ResizedAgrees(s, mem, v, blocks, ptr, size);
        if size == |v[ptr]| { assert Bytes(a.mem, ptr, size) == v[ptr]; }
        UnchangedAgrees(s, a.State(), a.mem, view, blocks);
      } else {
        a.Ok();
        MovedLive(s, a.State(), mem, a.mem, b, nb, r, size);
        Cleared(a.State(), a.m.heap.freeList, a.m.heap.guard, a.m.heap.lastIndex, a.m.heap.brk, nb);
        MovedAgrees(s, a.State(), mem, a.mem, v, blocks, b, nb, ptr, r, size);
        blocks := (blocks - {ptr})[r := nb];
      }
    }

    /** The program stores a byte in a string that it holds. */
    method DoWrite(ptr: nat, i: nat, v: bv8)
      requires Valid()
      modifies this`view, a`mem
      ensures Valid() && view == if ptr in old(view) && i < |old(view)[ptr]|
                                 then old(view)[ptr := old(view)[ptr][i := v]] else old(view)
    {
      hide Allocator.Valid, Agrees, LiveIn;
      if ptr in view && i < |view[ptr]| {
        ghost var mem := a.mem;
        a.Ok();
        AgreesKeys(a.State(), a.mem, view, blocks);
        LiveAtKey(a.State(), a.mem, view, blocks, ptr);
        Cleared(a.State(), a.m.heap.freeList, a.m.heap.guard, a.m.heap.lastIndex, a.m.heap.brk, blocks[ptr]);
        a.Poke(ptr + i, v);
        WrittenAgrees(a.State(), mem, a.mem, view, blocks, ptr, i, v);
        view := view[ptr := view[ptr][i := v]];
      }
    }

    lemma NoNull()
      requires Valid()
      ensures 0 !in view
    {
      if 0 in view {
        WildExactly(0);
        a.NullStartsNone();
        assert false;
      }
    }

    /** One operation. os answers for mmap. */
    method Do(op: Op, i: nat, os: System) returns (r: nat)
      requires Valid() && Honest(os, a.m.heap.guard) && SizeOk(op, a.m.heap.guard)
      requires op.Free? || op.Realloc? ==> !Wild(op.ptr)
      modifies this, a`mem, a.m, a.m.heap, a.m.heap.pd
      ensures Valid() && (Unmaps(op) && old(a.m.heap.Tidy()) ==> a.m.heap.Tidy())
      ensures Step(old(view), op, MayFail(os, i, op), r, view)
    {
      hide Allocator.Valid, Agrees, PageHeap.Tidy, Accepts, FreshRegion, NewString, Resized;
      r := 0;
      match op
      case Malloc(size, rnd, junk, blockOk) =>
        var ans := os(i, a.m.heap.pd.dirs, PagesFor(size));
        r := DoMalloc(size, rnd, junk, ans, blockOk);
      case Free(ptr, munmapOk) =>
        DoFree(ptr, munmapOk);
      case Realloc(ptr, size, always, rnd, junk, blockOk, munmapOk) =>
        var ans := os(i, a.m.heap.pd.dirs, PagesFor(size));
        r := DoRealloc(ptr, size, always, rnd, junk, ans, blockOk, munmapOk);
      case Write(ptr, k, v) =>
        DoWrite(ptr, k, v);
    }

    /** What the program holds is safe: no two strings overlap, none has a byte in cached free memory, and memory holds
        what was stored. */
    ghost predicate Safe()
      reads this, a, a.m, a.m.heap, a.m.heap.pd
    {
      && (forall p, q :: p in view && q in view && p != q ==> p + |view[p]| <= q || q + |view[q]| <= p)
      && (forall p :: p in view ==> p > 0 && HoldsBytes(a.mem, p, view[p]) && Apart(a.m.heap.freeList, p, p + |view[p]|))
    }

    lemma IsSafe()
      requires Valid()
      ensures Safe() && a.m.heap.used == TotalPages(a.m.heap.live) * PAGESIZE
    {
      var s, fl := a.State(), a.m.heap.freeList;
      a.Ok();
      forall p, q | p in view && q in view && p != q ensures p + |view[p]| <= q || q + |view[q]| <= p {
        StringsApart(s, fl, a.m.heap.guard, a.m.heap.lastIndex, a.m.heap.brk, a.mem, view, blocks, p, q);
      }
      forall p | p in view ensures p > 0 && HoldsBytes(a.mem, p, view[p]) && Apart(fl, p, p + |view[p]|) {
        StringKept(s, fl, a.m.heap.guard, a.m.heap.lastIndex, a.m.heap.brk, a.mem, view, blocks, p);
      }
    }
  }

  lemma StringsApart(s: Books, fl: seq<FreeRun>, guard: bool, lastIndex: nat, brk: nat, mem: nat -> bv8, v: View,
                     blocks: map<nat, Block>, p: nat, q: nat)
    requires BooksOk(s, fl, guard, lastIndex, brk) && Agrees(s, mem, v, blocks) && p in v && q in v && p != q
    ensures p + |v[p]| <= q || q + |v[q]| <= p
  {
    hide BooksOk, LiveIn;
    assert Keeps(s, mem, p, v[p], blocks[p]) && Keeps(s, mem, q, v[q], blocks[q]);
    Cleared(s, fl, guard, lastIndex, brk, blocks[q]);
    assert blocks[p] != blocks[q];
  }

  lemma StringKept(s: Books, fl: seq<FreeRun>, guard: bool, lastIndex: nat, brk: nat, mem: nat -> bv8, v: View,
                   blocks: map<nat, Block>, p: nat)
    requires BooksOk(s, fl, guard, lastIndex, brk) && Agrees(s, mem, v, blocks) && p in v
    ensures p > 0 && HoldsBytes(mem, p, v[p]) && Apart(fl, p, p + |v[p]|)
  {
    hide LiveIn, Partition, InfosOk, ChunksMarked, TopOk, Coalesced, InFree, Usable, Size;
    assert Keeps(s, mem, p, v[p], blocks[p]);
    LiveLocated(s, blocks[p]);
    StartPositive(s, fl, guard, lastIndex, brk, blocks[p]);
    UsableFits(s.infos, blocks[p]);
    forall x: nat | p <= x < p + |v[p]| ensures !InFree(fl, x) {
      LiveIsMine(s, fl, guard, lastIndex, brk, blocks[p], x);
    }
  }

  lemma LiveIsMine(s: Books, fl: seq<FreeRun>, guard: bool, lastIndex: nat, brk: nat, b: Block, x: nat)
    requires BooksOk(s, fl, guard, lastIndex, brk) && LiveIn(s, b) && Start(s.infos, b) <= x < End(s.infos, b)
    ensures !InFree(fl, x)
  {
    BlockIsMine(s.dirs, fl, s.live, guard, s.infos, b, lastIndex, brk, x);
  }

  /** Any run of operations of a program, from the first use of the allocator on. The table follows the specification
      step by step, memory agrees with it at the end, and so after each operation, as the end can be anywhere. The
      run stops at the first pointer given back that the allocator misreads. If no munmap fails, the cache stays
      within its bound and the room in it is always computed without wrapping. */
  method Execute(guard: bool, cachePages: nat, ops: seq<Op>, os: System)
    returns (prog: Program, views: seq<View>, results: seq<nat>)
    requires cachePages < TWO64 / PAGESIZE && Honest(os, guard)
    requires forall op :: op in ops ==> SizeOk(op, guard)
    ensures prog.Valid() && prog.Safe() && fresh(prog)
    ensures prog.a.m.heap.used == TotalPages(prog.a.m.heap.live) * PAGESIZE
    ensures |results| <= |ops| && |views| == |results| + 1 && views[0] == map[] && views[|results|] == prog.view
    ensures forall i :: 0 <= i < |results| ==> Step(views[i], ops[i], MayFail(os, i, ops[i]), results[i], views[i + 1])
    ensures |results| < |ops| ==> var op := ops[|results|]; (op.Free? || op.Realloc?) && prog.a.Misreads(op.ptr)
    ensures (forall op :: op in ops ==> Unmaps(op)) ==>
      prog.a.m.heap.Tidy() && Total(prog.a.m.heap.freeList) <= (if cachePages == 0 then 1 else cachePages) * PAGESIZE
  {
    hide Program.Valid, Step;
    prog := new Program(guard, cachePages);
    views, results := [prog.view], [];
    var i := 0;
    while i < |ops|
      invariant 0 <= i == |results| <= |ops| && |views| == i + 1 && views[0] == map[] && views[i] == prog.view
      invariant prog.Valid() && fresh(prog) && fresh(prog.a) && fresh(prog.a.m) && fresh(prog.a.m.heap)
      invariant fresh(prog.a.m.heap.pd) && prog.a.m.heap.guard == guard
      invariant prog.a.m.heap.cache == if cachePages == 0 then PAGESIZE else cachePages * PAGESIZE
      invariant forall k :: 0 <= k < i ==> Step(views[k], ops[k], MayFail(os, k, ops[k]), results[k], views[k + 1])
      invariant (forall op :: op in ops ==> Unmaps(op)) ==> prog.a.m.heap.Tidy()
    {
      var op := ops[i];
      if op.Free? || op.Realloc? {
        prog.WildExactly(op.ptr);
        if prog.Wild(op.ptr) {
          break;
        }
      }
      var r := prog.Do(op, i, os);
      views, results := views + [prog.view], results + [r];
      i := i + 1;
    }
    prog.IsSafe();
  }
}
