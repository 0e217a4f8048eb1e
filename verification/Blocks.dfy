/** Blocks: the allocations in use, be they pages or chunks, and what calls do to them. */
module Blocks {
  import opened PageDirectory
  import opened DirectoryPages
  import opened FreeLists
  import opened PagePartition
  import opened PageHeaps
  import opened Bitmaps
  import opened Chunks
  import opened Mallocs

  /** An allocation in use: a live run of pages, or a chunk of a page of chunks. */
  datatype Block = Pages(run: Run) | Piece(p: nat, c: nat)

  ghost predicate IsLive(dirs: Dirs, live: seq<Run>, infos: Infos, b: Block) {
    match b
    case Pages(r) => PageBlock(dirs, live, r)
    case Piece(p, c) => LiveAt(infos, p, c)
  }

  ghost predicate Located(infos: Infos, b: Block) {
    match b case Pages(r) => r.start >= PAGESHIFT case Piece(p, c) => p in infos
  }

  /** The first address of a block, and the number of bytes from it. */
  ghost function Start(infos: Infos, b: Block): nat
    requires Located(infos, b)
  {
    match b
    case Pages(r) => IndexToPtr(r.start)
    case Piece(p, c) => ChunkAddr(infos[p], c)
  }

  ghost function Size(infos: Infos, b: Block): nat
    requires Located(infos, b)
  {
    match b
    case Pages(r) => r.pages * PAGESIZE
    case Piece(p, c) => Pow2(infos[p].shift)
  }

  /** The bytes of a block that its owner may use: none of one from malloc(0). */
  ghost function Usable(infos: Infos, b: Block): nat
    requires Located(infos, b)
  {
    match b
    case Pages(r) => r.pages * PAGESIZE
    case Piece(p, c) => infos[p].size
  }

  ghost function End(infos: Infos, b: Block): nat
    requires Located(infos, b)
  {
    Start(infos, b) + Size(infos, b)
  }

  lemma PieceInPage(infos: Infos, p: nat, c: nat)
    requires InfosOk(infos) && LiveAt(infos, p, c)
    ensures p >= PAGESHIFT && IndexToPtr(p) <= ChunkAddr(infos[p], c)
    ensures ChunkAddr(infos[p], c) + Pow2(infos[p].shift) <= IndexToPtr(p) + PAGESIZE
  {
    SlotInPage(infos[p], c);
  }

  /** Every live block lies in a live run, whose mark tells which kind of block it is. */
  lemma BlockInRun(dirs: Dirs, fl: seq<FreeRun>, live: seq<Run>, guard: bool, infos: Infos, b: Block)
    returns (r: nat)
    requires Partition(dirs, fl, live, guard) && InfosOk(infos) && ChunksMarked(dirs, infos)
    requires IsLive(dirs, live, infos, b)
    ensures r < |live| && live[r].start >= PAGESHIFT
    ensures if b.Pages? then live[r] == b.run else live[r] == Run(b.p, 1) && b.p in infos
    ensures IndexToPtr(live[r].start) <= Start(infos, b)
    ensures End(infos, b) <= IndexToPtr(live[r].start) + live[r].pages * PAGESIZE
  {
    match b
    case Pages(run) =>
      r :| 0 <= r < |live| && live[r] == run;
    case Piece(p, c) =>
      PieceInPage(infos, p, c);
      assert MarkAt(dirs, p) == Chunk;
      r := ChunkRun(dirs, fl, live, guard, p);
  }

  lemma RunsDisjoint(live: seq<Run>, guard: bool, r: nat, s: nat)
    requires RunsApart(live, guard) && r < |live| && s < |live| && r != s
    requires live[r].start >= PAGESHIFT && live[s].start >= PAGESHIFT
    ensures IndexToPtr(live[r].start) + live[r].pages * PAGESIZE <= IndexToPtr(live[s].start)
         || IndexToPtr(live[s].start) + live[s].pages * PAGESIZE <= IndexToPtr(live[r].start)
  {
    if r < s { assert Disjoint(live[r], live[s], guard); } else { assert Disjoint(live[s], live[r], guard); }
  }

  /** No two live blocks share a byte. */
  lemma BlocksDisjoint(dirs: Dirs, fl: seq<FreeRun>, live: seq<Run>, guard: bool, infos: Infos, a: Block, b: Block)
    requires Partition(dirs, fl, live, guard) && InfosOk(infos) && ChunksMarked(dirs, infos)
    requires IsLive(dirs, live, infos, a) && IsLive(dirs, live, infos, b) && a != b
    ensures End(infos, a) <= Start(infos, b) || End(infos, b) <= Start(infos, a)
  {
    var r := BlockInRun(dirs, fl, live, guard, infos, a);
    var s := BlockInRun(dirs, fl, live, guard, infos, b);
    if r != s {
      RunsDisjoint(live, guard, r, s);
    } else if a.Piece? && b.Piece? {
      ChunksAreSafe(infos[a.p], a.c, b.c);
    } else {
      KindsDiffer(dirs, live, infos, a, b);
    }
  }

  /** A page allocation is not a page of chunks. */
  lemma KindsDiffer(dirs: Dirs, live: seq<Run>, infos: Infos, a: Block, b: Block)
    requires ChunksMarked(dirs, infos) && IsLive(dirs, live, infos, a) && IsLive(dirs, live, infos, b)
    ensures a.Pages? && b.Piece? ==> a.run != Run(b.p, 1)
    ensures a.Piece? && b.Pages? ==> b.run != Run(a.p, 1)
  {
    if a.Pages? && b.Piece? { assert MarkAt(dirs, b.p) == Chunk; }
    if a.Piece? && b.Pages? { assert MarkAt(dirs, a.p) == Chunk; }
  }

  /** No live block shares a byte with cached free memory, and its pages are within the bound and the
      directory that ifree and irealloc check against. */
  lemma BlockIsMine(dirs: Dirs, fl: seq<FreeRun>, live: seq<Run>, guard: bool, infos: Infos, b: Block,
                    lastIndex: nat, brk: nat, a: nat)
    requires Partition(dirs, fl, live, guard) && InfosOk(infos) && ChunksMarked(dirs, infos) && Coalesced(fl)
    requires IsLive(dirs, live, infos, b) && TopOk(dirs, lastIndex, brk)
    requires Start(infos, b) <= a < End(infos, b)
    ensures !InFree(fl, a) && PAGESHIFT < PtrToIndex(a) <= lastIndex && PiIdx(PtrToIndex(a)) in dirs
  {
    hide RunsHeld, RunsApart, Owned, InfosOk, Count;
    var r := BlockInRun(dirs, fl, live, guard, infos, b);
    var j := PtrToIndex(a);
    LiveRunsAreSafe(dirs, fl, live, guard, r, j);
    if i :| 0 <= i < |fl| && Covers(fl[i], a) {
      assert WholePages(fl[i]);
      EntryMarked(dirs, fl, i, a / PAGESIZE * PAGESIZE);
    }
  }

  // ----- What a call does to the blocks in use -----

  /** What decides which blocks are in use: the marks, the live runs and the tables of chunks. */
  datatype Books = Books(dirs: Dirs, live: seq<Run>, infos: Infos)

  ghost predicate LiveIn(s: Books, b: Block) { IsLive(s.dirs, s.live, s.infos, b) }

  /** Blocks in use before and after are where they were, and as large. */
  ghost predicate Unmoved(s: Books, s': Books) {
    forall b :: LiveIn(s, b) && LiveIn(s', b) ==>
      && Located(s.infos, b) && Located(s'.infos, b)
      && Start(s'.infos, b) == Start(s.infos, b) && Size(s'.infos, b) == Size(s.infos, b)
      && Usable(s'.infos, b) == Usable(s.infos, b)
  }

  /** Exactly the block b has come into use. */
  ghost predicate Added(s: Books, s': Books, b: Block) {
    && !LiveIn(s, b) && Unmoved(s, s')
    && forall x :: LiveIn(s', x) <==> LiveIn(s, x) || x == b
  }

  /** Exactly the block b has gone out of use. */
  ghost predicate Dropped(s: Books, s': Books, b: Block) {
    && LiveIn(s, b) && Unmoved(s, s')
    && forall x :: LiveIn(s', x) <==> LiveIn(s, x) && x != b
  }

  ghost predicate Unchanged(s: Books, s': Books) {
    Unmoved(s, s') && forall x :: LiveIn(s', x) <==> LiveIn(s, x)
  }

  lemma ShapeUnmoved(s: Books, s': Books)
    requires SameShape(s.infos, s'.infos)
    ensures Unmoved(s, s')
  {
  }

  /** The pages imalloc asks malloc_pages for at most. */
  function PagesFor(size: nat): nat { if size <= MAXSIZE then 1 else PageRound(size) / PAGESIZE }

  /** What a block from malloc(size) holds: nothing for size 0, else the least power of two that fits, at least
      the minimal size, or whole pages. */
  ghost predicate IsCapacity(size: nat, n: nat) {
    if size == 0 then n == 0
    else if size <= MAXSIZE then exists j: nat :: BucketFor(Served(size), j) && n == Pow2(j)
    else n == PageRound(size)
  }

  /** A size determines what its block holds, and it is enough. */
  lemma OneCapacity(size: nat, m: nat, n: nat)
    requires IsCapacity(size, m) && IsCapacity(size, n)
    ensures size <= m == n
  {
    if 0 < size <= MAXSIZE {
      var i :| BucketFor(Served(size), i) && m == Pow2(i);
      var j :| BucketFor(Served(size), j) && n == Pow2(j);
      OneBucket(Served(size), i, j);
    }
  }

  /** What malloc gives for a size, spelled out: nothing for 0, up to 2048 the least power of two from 16 on that is
      enough, and above that the least multiple of 4096. */
  lemma CapacityIs(size: nat, n: nat)
    ensures size == 0 ==> (IsCapacity(size, n) <==> n == 0)
    ensures 0 < size <= 2048 ==>
      (IsCapacity(size, n) <==> n in {16, 32, 64, 128, 256, 512, 1024, 2048} && size <= n && (n == 16 || n < 2 * size))
    ensures size > 2048 ==> (IsCapacity(size, n) <==> n % 4096 == 0 && size <= n < size + 4096)
  {
    Pow2Table();
    if size > 2048 {
      RoundedUp(size, n);
    } else if size > 0 {
      if IsCapacity(size, n) {
        var j :| BucketFor(Served(size), j) && n == Pow2(j);
        assert j == 4 || j == 5 || j == 6 || j == 7 || j == 8 || j == 9 || j == 10 || j == 11;
      } else {
        forall j | 4 <= j <= 11 && size <= Pow2(j) && (j == 4 || Pow2(j) < 2 * size) ensures n != Pow2(j) {
          assert BucketFor(Served(size), j);
        }
      }
    }
  }

  lemma RoundedUp(size: nat, n: nat)
    ensures n == PageRound(size) <==> n % PAGESIZE == 0 && size <= n < size + PAGESIZE
  {
    var q := (size + PAGESIZE - 1) / PAGESIZE;
    assert PageRound(size) == q * PAGESIZE;
    if n % PAGESIZE == 0 && size <= n < size + PAGESIZE {
      assert n == n / PAGESIZE * PAGESIZE;
    }
  }

  /** A block that holds osize bytes is as good for size bytes, at least one, as what malloc would give. Pages are also if
      a chunk would do. */
  ghost predicate Suits(pages: bool, size: nat, osize: nat) {
    if pages then size > 0 && osize == PageRound(size) else IsCapacity(Max(size, 1), osize)
  }

  /** What irealloc computes to decide whether a run of pages is kept. */
  lemma PagesSuit(size: nat, osize: nat)
    requires Aligned(osize) && osize > 0
    ensures Suits(true, size, osize) <==> size <= osize && size > osize - PAGESIZE
  {
    RoundedUp(size, osize);
  }

  /** And a chunk. */
  lemma ChunkSuits(size: nat, osize: nat, shift: nat)
    requires osize == 0 || (ShiftOk(shift) && osize == Pow2(shift))
    ensures Suits(false, size, osize) <==> size <= osize && (size > osize / 2 || osize == MINSIZE)
  {
    Pow2Table();
    CapacityIs(Max(size, 1), osize);
    if osize > 0 {
      assert shift == 4 || shift == 5 || shift == 6 || shift == 7 || shift == 8 || shift == 9 || shift == 10 || shift == 11;
    }
  }

  /** A block suits the size it was allocated for. */
  lemma OwnSizeSuits(infos: Infos, b: Block, size: nat)
    requires Located(infos, b) && IsCapacity(size, Usable(infos, b)) && size > 0
    ensures Suits(b.Pages?, size, Usable(infos, b))
  {
    CapacityIs(size, Usable(infos, b));
  }

  /** imalloc refuses sizes whose rounding could leave size_t. */
  predicate TooLarge(size: nat) { size > TWO64 - 1 - PAGESIZE }

  ghost predicate Replaced(s: Books, s': Books, b: Block, nb: Block) {
    && LiveIn(s, b) && !LiveIn(s, nb) && Unmoved(s, s')
    && forall x :: LiveIn(s', x) <==> (LiveIn(s, x) && x != b) || x == nb
  }

  /** The invariant of the allocator, as far as it is about the blocks in use. */
  ghost predicate BooksOk(s: Books, fl: seq<FreeRun>, guard: bool, lastIndex: nat, brk: nat) {
    && 0 in s.dirs && Partition(s.dirs, fl, s.live, guard) && InfosOk(s.infos) && ChunksMarked(s.dirs, s.infos)
    && Coalesced(fl) && TopOk(s.dirs, lastIndex, brk)
  }

  lemma HasBytes(dirs: Dirs, live: seq<Run>, guard: bool, infos: Infos, b: Block)
    requires RunsHeld(dirs, live, guard) && InfosOk(infos) && IsLive(dirs, live, infos, b)
    ensures Located(infos, b) && Size(infos, b) > 0
  {
    match b
    case Pages(r) =>
      var i :| 0 <= i < |live| && live[i] == r;
      assert RunHeld(dirs, live[i], guard);
    case Piece(p, c) =>
      Pow2Monotone(0, infos[p].shift);
  }

  /** Block x is what the mark of ptr's page and the chunk number of ptr say. */
  ghost predicate ToldBy(s: Books, x: Block, ptr: nat) {
    var j := PtrToIndex(ptr);
    if x.Pages? then Aligned(ptr) && MarkAt(s.dirs, j) == First && x.run.start == j
    else
      && j == x.p && j in s.infos && InfoOk(s.infos[j]) && x.c == ChunkOf(s.infos[j], ptr)
      && LiveChunk(s.infos[j], x.c) && ptr == ChunkAddr(s.infos[j], x.c) && MarkAt(s.dirs, j) == Chunk
  }

  /** Every block that starts at ptr is told by ptr. */
  lemma NoOtherStart(s: Books, fl: seq<FreeRun>, guard: bool, lastIndex: nat, brk: nat, ptr: nat)
    requires Partition(s.dirs, fl, s.live, guard) && InfosOk(s.infos) && ChunksMarked(s.dirs, s.infos)
    requires TopOk(s.dirs, lastIndex, brk)
    ensures forall x :: LiveIn(s, x) && Start(s.infos, x) == ptr ==> ToldBy(s, x, ptr)
    ensures (exists x :: LiveIn(s, x) && Start(s.infos, x) == ptr) ==> PtrToIndex(ptr) <= lastIndex
  {
    var j := PtrToIndex(ptr);
    forall x | LiveIn(s, x) && Start(s.infos, x) == ptr ensures ToldBy(s, x, ptr) && j <= lastIndex {
      if x.Pages? {
        RoundIndex(x.run.start);
      } else {
        AddrOfChunk(s.infos[x.p], x.c);
        RoundIndex(x.p);
        assert MarkAt(s.dirs, x.p) == Chunk;
      }
    }
  }

  lemma SameBooks(s: Books)
    ensures Unchanged(s, s)
  {
  }

  lemma DroppedBooks(s: Books, s': Books, freed: bool, b: Block)
    requires s.infos == s'.infos
    requires if freed then b.Pages? && PageBlock(s.dirs, s.live, b.run)
                           && BlockDropped(s.dirs, s.live, s'.dirs, s'.live, b.run)
             else SameBlocks(s.dirs, s.live, s'.dirs, s'.live)
    ensures if freed then Dropped(s, s', b) else Unchanged(s, s')
  {
  }

  lemma PieceBooks(s: Books, s': Books, freed: bool, p: nat, c: nat)
    requires SameBlocks(s.dirs, s.live, s'.dirs, s'.live) && Unmoved(s, s')
    requires if freed then LiveAt(s.infos, p, c) && Lost1(s.infos, s'.infos, p, c) else s.infos == s'.infos
    ensures if freed then Dropped(s, s', Piece(p, c)) else Unchanged(s, s')
  {
  }

  lemma LargeBooks(s: Books, s': Books, got: bool, r: Run)
    requires s.infos == s'.infos
    requires if got then BlockAdded(s.dirs, s.live, s'.dirs, s'.live, r)
             else SameBlocks(s.dirs, s.live, s'.dirs, s'.live)
    ensures if got then Added(s, s', Pages(r)) else Unchanged(s, s')
  {
  }

  lemma SmallBooks(s: Books, s': Books, got: bool, p: nat, c: nat)
    requires SameBlocks(s.dirs, s.live, s'.dirs, s'.live) && Unmoved(s, s')
    requires if got then Gained1(s.infos, s'.infos, p, c) && !LiveAt(s.infos, p, c) else s.infos == s'.infos
    ensures if got then Added(s, s', Piece(p, c)) else Unchanged(s, s')
  {
  }
}
