/** imalloc, ifree and irealloc: the dispatch between chunks and pages, and what it guarantees. */
module Allocators {
  import opened PageDirectory
  import opened DirectoryPages
  import opened FreeLists
  import opened PagePartition
  import opened PageHeaps
  import opened Bitmaps
  import opened Chunks
  import opened Mallocs
  import opened Blocks
  import opened Pointers

  /** malloc_good_size: what malloc would make of a size, for sizes above half the minimal size that rounding does
      not take out of size_t, and only for those. */
  method GoodSize(size: nat) returns (r: nat)
    requires size < TWO64
    ensures IsCapacity(size, r) <==> MINSIZE / 2 < size <= TWO64 - PAGESIZE
    ensures size == 0 ==> r == 1
    ensures 0 < size <= 2048 ==>
      r in {2, 4, 8, 16, 32, 64, 128, 256, 512, 1024, 2048} && size <= r && (r == 2 || r < 2 * size)
    ensures 2048 < size <= TWO64 - 4096 ==> r % 4096 == 0 && size <= r < size + 4096
    ensures size > TWO64 - 4096 ==> r == 0
  {
    if size == 0 {
      r := 1;
    } else if size <= MAXSIZE {
      var j := Log2Up(size);
      r := Pow2(j);
      GoodPower(size, j);
    } else {
      r := PageRound(size) % TWO64;
      GoodPages(size);
    }
  }

  lemma GoodPower(size: nat, j: nat)
    requires 0 < size <= MAXSIZE && j >= 1 && size <= Pow2(j) && (j == 1 || Pow2(j - 1) < size)
    ensures Pow2(j) in {2, 4, 8, 16, 32, 64, 128, 256, 512, 1024, 2048} && (Pow2(j) == 2 || Pow2(j) < 2 * size)
    ensures IsCapacity(size, Pow2(j)) <==> size > MINSIZE / 2
  {
    Pow2Table();
    assert Pow2(1) == 2 && Pow2(2) == 4;
    if j > 11 { Pow2Monotone(11, j - 1); }
    var m := Max(size, MINSIZE);
    if size > MINSIZE / 2 {
      if j < 4 { Pow2Monotone(j, 3); }
      if size < MINSIZE && j > 4 { Pow2Monotone(4, j - 1); }
      if size >= MINSIZE { BucketBound(size, j); }
      assert BucketFor(m, j);
    } else {
      if j > 3 { Pow2Monotone(3, j - 1); }
      Pow2Monotone(j, 3);
      forall i | BucketFor(m, i) ensures Pow2(i) != Pow2(j) { Pow2Monotone(4, i); }
    }
  }

  lemma GoodPages(size: nat)
    requires MAXSIZE < size < TWO64
    ensures size > TWO64 - PAGESIZE ==> PageRound(size) % TWO64 == 0
    ensures size <= PageRound(size) < size + PAGESIZE && PageRound(size) % PAGESIZE == 0
    ensures PageRound(size) % TWO64 == PageRound(size) <==> size <= TWO64 - PAGESIZE
  {
    var q := (size + PAGESIZE - 1) / PAGESIZE;
    assert PageRound(size) == q * PAGESIZE;
    if size <= TWO64 - PAGESIZE {
      assert q <= TWO64 / PAGESIZE - 1;
    } else {
      assert q == TWO64 / PAGESIZE;
    }
  }

  /** The byte at address a. */
  function Byte(mem: nat -> bv8, a: nat): bv8 { mem(a) }

  /** The n bytes from src on are at dst, and nothing else has changed. */
  ghost predicate Copied(mem: nat -> bv8, mem': nat -> bv8, src: nat, dst: nat, n: nat) {
    forall a: nat {:trigger Byte(mem', a)} ::
      Byte(mem', a) == if dst <= a < dst + n then Byte(mem, a - dst + src) else Byte(mem, a)
  }

  /** Block nb at p, of the capacity that its size calls for, has taken the place of b, and holds its first bytes, as
      many as were usable in b and fit. */
  ghost predicate Moved(s: Books, s': Books, mem: nat -> bv8, mem': nat -> bv8, b: Block, nb: Block, p: nat,
                        size: nat, osize: nat)
  {
    && Replaced(s, s', b, nb) && Located(s.infos, b) && Located(s'.infos, nb)
    && Start(s'.infos, nb) == p != Start(s.infos, b) && HasCapacity(s'.infos, nb, size)
    && Copied(mem, mem', Start(s.infos, b), p, Min(osize, size))
  }

  /** The block holds what its size calls for. */
  ghost predicate HasCapacity(infos: Infos, b: Block, size: nat)
    requires Located(infos, b)
  {
    IsCapacity(size, Usable(infos, b)) && size <= Usable(infos, b) <= Size(infos, b)
  }

  function CopyOf(mem: nat -> bv8, src: nat, dst: nat, n: nat): (r: nat -> bv8)
    ensures Copied(mem, r, src, dst, n)
  {
    (a: nat) => if dst <= a < dst + n then mem(a - dst + src) else mem(a)
  }

  /** The byte at a is v, and nothing else has changed. */
  ghost predicate Poked(mem: nat -> bv8, mem': nat -> bv8, a: nat, v: bv8) {
    forall c: nat {:trigger Byte(mem', c)} :: Byte(mem', c) == if c == a then v else Byte(mem, c)
  }

  lemma MoveBooks(s: Books, s1: Books, s2: Books, mem: nat -> bv8, mem': nat -> bv8, b: Block, nb: Block, p: nat,
                  size: nat, osize: nat)
    requires Added(s, s1, nb) && Dropped(s1, s2, b) && b != nb && LiveIn(s, b) && Located(s.infos, b)
    requires Located(s1.infos, nb) && Start(s1.infos, nb) == p != Start(s.infos, b) && HasCapacity(s1.infos, nb, size)
    requires Copied(mem, mem', Start(s.infos, b), p, Min(osize, size))
    ensures Moved(s, s2, mem, mem', b, nb, p, size, osize)
  {
    assert LiveIn(s1, nb) && LiveIn(s2, nb);
  }

  lemma StillThere(s: Books, s1: Books, nb: Block, b: Block)
    requires Added(s, s1, nb) && LiveIn(s, b) && Located(s.infos, b)
    ensures Located(s1.infos, b) && Start(s1.infos, b) == Start(s.infos, b) && Size(s1.infos, b) == Size(s.infos, b)
    ensures LiveIn(s1, b) && LiveIn(s1, nb) && b != nb
  {
    assert LiveIn(s1, b);
  }

  /** irealloc leaves a block where it is: malloc would not give one of another size. */
  ghost predicate Stays(pages: bool, always: bool, size: nat, osize: nat) { !always && Suits(pages, size, osize) }

  /** What the block b may hold decides how the code's test comes out. */
  lemma StaysIf(s: Books, fl: seq<FreeRun>, guard: bool, lastIndex: nat, brk: nat, b: Block, always: bool, size: nat)
    requires BooksOk(s, fl, guard, lastIndex, brk) && LiveIn(s, b) && Located(s.infos, b)
    ensures var osize := Usable(s.infos, b);
            Stays(b.Pages?, always, size, osize) <==>
              && !always && size <= osize
              && if b.Pages? then size > osize - PAGESIZE else size > osize / 2 || osize == MINSIZE
  {
    hide Suits, Partition, InfosOk, TopOk, ChunksMarked, Coalesced, LiveIn;
    match b
    case Pages(r) =>
      PagesLive(s, fl, guard, r);
      PagesSuit(size, r.pages * PAGESIZE);
    case Piece(p, c) =>
      ChunkSized(s.infos, p);
      ChunkSuits(size, s.infos[p].size, s.infos[p].shift);
  }

  lemma PagesLive(s: Books, fl: seq<FreeRun>, guard: bool, r: Run)
    requires Partition(s.dirs, fl, s.live, guard) && LiveIn(s, Pages(r))
    ensures r.pages > 0
  {
    hide FreeMarked, Owned, RunsApart;
    var i :| 0 <= i < |s.live| && s.live[i] == r;
    assert RunHeld(s.dirs, s.live[i], guard);
  }

  lemma ChunkSized(infos: Infos, p: nat)
    requires InfosOk(infos) && p in infos
    ensures infos[p].size == 0 || (ShiftOk(infos[p].shift) && infos[p].size == Pow2(infos[p].shift))
  {
    hide Count, InPage;
  }

  lemma LargeCapacity(infos: Infos, size: nat, r: Run)
    requires MAXSIZE < size && r.start >= PAGESHIFT && r.pages == PageRound(size) / PAGESIZE
    ensures HasCapacity(infos, Pages(r), size)
  {
    RoundedPages(size);
  }

  lemma SmallCapacity(infos: Infos, size: nat, p: nat, c: nat)
    requires size <= MAXSIZE && p in infos && InfoOk(infos[p]) && BucketFor(Served(size), Bucket(infos[p]))
    ensures HasCapacity(infos, Piece(p, c), size)
  {
    hide Count, InPage;
    Pow2Monotone(0, infos[p].shift);
  }

  /** A page of chunks of the capacity for a size is on the list for that size. */
  lemma ListOf(info: PgInfo, size: nat, j: nat)
    requires size <= MAXSIZE && InfoOk(info) && IsCapacity(size, info.size) && BucketFor(Served(size), j)
    ensures Bucket(info) == j
  {
    hide Count, InPage, Slots, HeaderLen;
    Pow2Monotone(0, info.shift);
    if size > 0 {
      var i: nat :| BucketFor(Served(size), i) && info.size == Pow2(i);
      OneBucket(Served(size), i, j);
      if i < info.shift { Pow2Monotone(i, info.shift - 1); } else if info.shift < i { Pow2Monotone(info.shift, i - 1); }
    }
  }

  class Allocator {
    const m: Malloc
    /** The contents of memory. */
    var mem: nat -> bv8

    ghost predicate Valid()
      reads m, m.heap, m.heap.pd
    {
      m.Valid()
    }

    ghost function State(): Books
      reads m, m.heap, m.heap.pd
    {
      Books(m.heap.pd.dirs, m.heap.live, m.infos)
    }

    lemma Ok()
      requires Valid()
      ensures BooksOk(State(), m.heap.freeList, m.heap.guard, m.heap.lastIndex, m.heap.brk)
    {
    }

    /** The request is too large, or would need memory that is not to be had. */
    ghost predicate Refuses(size: nat, ans: Mmap, blockOk: bool)
      reads m, m.heap, m.heap.pd
    {
      || TooLarge(size)
      || if size <= MAXSIZE then m.Refuses(size, ans, blockOk)
         else m.heap.Refuses(PageRound(size) / PAGESIZE, ans, blockOk)
    }

    /** There is a free chunk of the capacity that the size calls for. */
    ghost predicate HasFree(size: nat)
      reads m
    {
      exists p :: p in m.infos && IsCapacity(size, m.infos[p].size) && m.infos[p].free > 0
    }

    /** ifree and irealloc take ptr for something it is not. */
    ghost predicate Misreads(ptr: nat)
      requires Valid()
      reads m, m.heap, m.heap.pd
    {
      Misread(State(), m.heap.guard, m.heap.lastIndex, ptr)
    }

    constructor (guard: bool, cachePages: nat)
      requires cachePages < TWO64 / PAGESIZE
      ensures Valid() && m.heap.guard == guard && m.heap.Tidy() && fresh(m) && fresh(m.heap) && fresh(m.heap.pd)
      ensures m.heap.cache == if cachePages == 0 then PAGESIZE else cachePages * PAGESIZE
      ensures forall b :: !LiveIn(State(), b)
    {
      m := new Malloc(guard, cachePages);
      mem := _ => 0;
    }

    /** imalloc. With guard pages, the largest sizes it lets through leave size_t once the guard page is
        added (see RoundedSizeFits); they are excluded here. */
    method Imalloc(size: nat, rnd: nat, junk: Bitmap, ans: Mmap, blockOk: bool) returns (a: nat, ghost b: Block)
      requires Valid() && |junk| >= BITS
      requires TooLarge(size) || !m.heap.guard || size <= TWO64 - 2 * PAGESIZE
      requires TooLarge(size) || FreshRegion(m.heap.pd.dirs, ans, PagesFor(size), m.heap.guard)
      modifies m, m.heap, m.heap.pd
      ensures Valid() && (old(m.heap.Tidy()) ==> m.heap.Tidy())
      ensures a == 0 <==> old(Refuses(size, ans, blockOk))
      ensures size + PAGESIZE >= TWO64 ==> a == 0
      ensures ans.Mapped? && blockOk && size + PAGESIZE < TWO64 ==> a != 0
      ensures size <= MAXSIZE && old(HasFree(size)) ==> a != 0 && unchanged(m.heap) && unchanged(m.heap.pd)
      ensures a == 0 && MAXSIZE < size && size + PAGESIZE < TWO64 ==>
        forall i :: 0 <= i < |old(m.heap.freeList)| ==>
          old(m.heap.freeList)[i].size < PageRound(size) + GuardBytes(m.heap.guard)
      ensures a == 0 ==> Unchanged(old(State()), State())
      ensures a != 0 ==> Added(old(State()), State(), b) && Located(m.infos, b)
      ensures a != 0 ==> Start(m.infos, b) == a && HasCapacity(m.infos, b, size)
    {
      hide Malloc.Valid, Added, Unchanged, HasCapacity, Malloc.Refuses, PageHeap.Refuses, PageHeap.Tidy, FreshRegion;
      hide HasFree;
      WhyRefused(size, ans, blockOk);
      NoneCached(size, ans, blockOk);
      b := Piece(0, 0);
      if TooLarge(size) {
        a := 0;
        SameBooks(State());
      } else if size <= MAXSIZE {
        a, b := SmallBlock(size, rnd, junk, ans, blockOk);
      } else {
        a, b := LargeBlock(size, ans, blockOk);
      }
    }

    method SmallBlock(size: nat, rnd: nat, junk: Bitmap, ans: Mmap, blockOk: bool) returns (a: nat, ghost b: Block)
      requires Valid() && |junk| >= BITS && size <= MAXSIZE
      requires FreshRegion(m.heap.pd.dirs, ans, 1, m.heap.guard)
      modifies m, m.heap, m.heap.pd
      ensures Valid() && (old(m.heap.Tidy()) ==> m.heap.Tidy())
      ensures a == 0 <==> old(m.Refuses(size, ans, blockOk))
      ensures old(HasFree(size)) ==> a != 0 && unchanged(m.heap) && unchanged(m.heap.pd)
      ensures a == 0 ==> Unchanged(old(State()), State())
      ensures a != 0 ==> Added(old(State()), State(), b) && Located(m.infos, b)
      ensures a != 0 ==> Start(m.infos, b) == a && HasCapacity(m.infos, b, size)
    {
      hide Malloc.Valid, Added, Unchanged, HasCapacity, Malloc.Refuses, PageHeap.Tidy, FreshRegion, SameShape, Unmoved;
      hide SameBlocks, Gained1, HasFree, IsNth;
      ghost var s, p, c := State(), 0, 0;
      if HasFree(size) { ghost var j := FreeListed(size); }
      a, p, c := m.MallocBytes(size, rnd, junk, ans, blockOk);
      b := Piece(p, c);
      ShapeUnmoved(s, State());
      SmallBooks(s, State(), a != 0, p, c);
      if a != 0 { SmallCapacity(m.infos, size, p, c); }
    }

    method LargeBlock(size: nat, ans: Mmap, blockOk: bool) returns (a: nat, ghost b: Block)
      requires Valid() && MAXSIZE < size && !TooLarge(size) && (!m.heap.guard || size <= TWO64 - 2 * PAGESIZE)
      requires FreshRegion(m.heap.pd.dirs, ans, PageRound(size) / PAGESIZE, m.heap.guard)
      modifies m.heap, m.heap.pd
      ensures Valid() && (old(m.heap.Tidy()) ==> m.heap.Tidy())
      ensures a == 0 <==> old(m.heap.Refuses(PageRound(size) / PAGESIZE, ans, blockOk))
      ensures a == 0 ==> Unchanged(old(State()), State())
      ensures a != 0 ==> Added(old(State()), State(), b) && Located(m.infos, b)
      ensures a != 0 ==> Start(m.infos, b) == a && HasCapacity(m.infos, b, size)
    {
      hide PageHeap.Valid, PageHeap.Tidy, PageHeap.Refuses, Added, Unchanged, HasCapacity, FreshRegion, PageRound;
      hide SameBlocks, BlockAdded, MarkAt;
      ghost var s := State();
      RoundedSizeFits(size, m.heap.guard);
      RoundedPages(size);
      a := NewRun(m.heap, size, ans, blockOk);
      b := Pages(Run(PtrToIndex(a), PageRound(size) / PAGESIZE));
      LargeBooks(s, State(), a != 0, b.run);
      if a != 0 {
        RoundPtr(a);
        LargeCapacity(m.infos, size, b.run);
      }
    }

    /** ifree: the block that starts at ptr goes out of use; if there is none, nothing changes. */
    method Ifree(ptr: nat, munmapOk: bool) returns (freed: bool, ghost b: Block)
      requires Valid() && !Misreads(ptr)
      modifies m, m.heap, m.heap.pd
      ensures Valid() && (munmapOk && old(m.heap.Tidy()) ==> m.heap.Tidy())
      ensures freed <==> old(StartsAt(State(), ptr))
      ensures freed ==> Dropped(old(State()), State(), b) && old(Located(m.infos, b) && Start(m.infos, b) == ptr)
      ensures !freed ==> Unchanged(old(State()), State())
    {
      hide StartsAt, Dropped, Unchanged, PageHeap.Tidy, Misread, Malloc.Valid, MarkAt, Shadow;
      b := Piece(0, 0);
      Judge(ptr);
      var index := PtrToIndex(ptr);
      if index > m.heap.lastIndex {
        SameBooks(State());
        return false, b;
      }
      var info, at := Look(ptr);
      if info != Chunk {
        freed, b := FreeLarge(ptr, index, info, munmapOk);
      } else {
        freed, b := FreeSmall(ptr, at, munmapOk);
      }
    }

    /** What is accepted of a pointer that is not misread is the start of a block. */
    lemma Judge(ptr: nat)
      requires Valid() && !Misreads(ptr)
      ensures StartsAt(State(), ptr) ==> PtrToIndex(ptr) <= m.heap.lastIndex
      ensures var at := Shadow(m.heap.pd.dirs, PtrToIndex(ptr));
              PtrToIndex(ptr) <= m.heap.lastIndex ==>
                && (StartsAt(State(), ptr) ==> MarkAt(m.heap.pd.dirs, at) in {First, Chunk})
                && (MarkAt(m.heap.pd.dirs, at) == First ==> (StartsAt(State(), ptr) <==> Aligned(ptr)))
                && (MarkAt(m.heap.pd.dirs, at) == Chunk ==>
                      at in m.infos && InfoOk(m.infos[at]) && (StartsAt(State(), ptr) <==> Releases(m.infos[at], ptr)))
    {
      hide StartsAt, Misread, PageHeap.Valid, BucketsOk, InUse, InfoOk, Shadow;
      Ok();
      AcceptedExactly(State(), m.heap.freeList, m.heap.guard, m.heap.lastIndex, m.heap.brk, ptr);
    }

    /** The lookup of ifree and irealloc, which updates the cached references. */
    method Look(ptr: nat) returns (info: Mark, at: nat)
      requires Valid()
      modifies m.heap.pd`lastDir, m.heap.pd`prevDir
      ensures Valid() && State() == old(State())
      ensures forall size, ans, blockOk :: Refuses(size, ans, blockOk) == old(Refuses(size, ans, blockOk))
      ensures at == Shadow(m.heap.pd.dirs, PtrToIndex(ptr)) && info == MarkAt(m.heap.pd.dirs, at)
    {
      hide PageHeap.Valid, InfosOk, BucketsOk, InUse, MarkAt, Shadow;
      info, at := m.heap.ReadMark(PtrToIndex(ptr));
    }

    method FreeLarge(ptr: nat, index: nat, info: Mark, munmapOk: bool) returns (freed: bool, ghost b: Block)
      requires Valid() && index == PtrToIndex(ptr) && info != Chunk
      requires info == MarkAt(m.heap.pd.dirs, Shadow(m.heap.pd.dirs, index))
      requires StartsAt(State(), ptr) <==> info == First && Aligned(ptr)
      modifies m.heap, m.heap.pd
      ensures Valid() && (munmapOk && old(m.heap.Tidy()) ==> m.heap.Tidy())
      ensures freed <==> old(StartsAt(State(), ptr))
      ensures freed ==> Dropped(old(State()), State(), b) && old(Located(m.infos, b) && Start(m.infos, b) == ptr)
      ensures !freed ==> Unchanged(old(State()), State())
    {
      hide PageHeap.Valid, PageHeap.Tidy, StartsAt, Dropped, Unchanged, BlockDropped, SameBlocks, MarkAt;
      ghost var s, r := State(), 0;
      b := Piece(0, 0);
      if info == First && Aligned(ptr) {
        Ok();
        r := RunAt(s, m.heap.freeList, m.heap.guard, m.heap.lastIndex, m.heap.brk, ptr);
        b := Pages(s.live[r]);
      }
      freed := DropRun(m.heap, ptr, index, info, munmapOk, r);
      DroppedBooks(s, State(), freed, b);
    }

    method FreeSmall(ptr: nat, at: nat, munmapOk: bool) returns (freed: bool, ghost b: Block)
      requires Valid() && at == Shadow(m.heap.pd.dirs, PtrToIndex(ptr)) && MarkAt(m.heap.pd.dirs, at) == Chunk
      requires StartsAt(State(), ptr) <==> Releases(m.infos[at], ptr)
      modifies m, m.heap, m.heap.pd
      ensures Valid() && (munmapOk && old(m.heap.Tidy()) ==> m.heap.Tidy())
      ensures freed <==> old(StartsAt(State(), ptr))
      ensures freed ==> Dropped(old(State()), State(), b) && old(Located(m.infos, b) && Start(m.infos, b) == ptr)
      ensures !freed ==> Unchanged(old(State()), State())
    {
      hide PageHeap.Valid, PageHeap.Tidy, StartsAt, Dropped, Unchanged, Lost1, SameShape, SameBlocks, MarkAt, Releases;
      hide Count, Pow2, InPage, InUse, BucketsOk, Unmoved;
      ghost var s, c := State(), ChunkOf(m.infos[at], ptr);
      b := Piece(at, c);
      if StartsAt(s, ptr) {
        Ok();
        PieceAt(s, m.heap.freeList, m.heap.guard, m.heap.lastIndex, m.heap.brk, ptr, at);
      }
      freed := m.FreeBytes(ptr, at, munmapOk);
      ShapeUnmoved(s, State());
      PieceBooks(s, State(), freed, at, c);
    }

    /** The first half of irealloc: the size of the block at ptr, which is 0 for one from malloc(0); ok
        is false, after a warning, if no block starts there. */
    method OldSize(ptr: nat, at: nat, info: Mark) returns (ok: bool, osize: nat, ghost b: Block)
      requires Valid() && !Misreads(ptr)
      requires PtrToIndex(ptr) <= m.heap.lastIndex && at == Shadow(m.heap.pd.dirs, PtrToIndex(ptr))
      requires info == MarkAt(m.heap.pd.dirs, at)
      ensures ok <==> StartsAt(State(), ptr)
      ensures ok ==> LiveIn(State(), b) && Located(m.infos, b) && Start(m.infos, b) == ptr
      ensures ok ==> osize == Usable(m.infos, b) <= Size(m.infos, b) && (info == First <==> b.Pages?)
    {
      hide StartsAt, LiveIn, Misread, Malloc.Valid, MarkAt, Shadow;
      ok, osize, b := false, 0, Piece(0, 0);
      Judge(ptr);
      if info == First {
        if Aligned(ptr) {
          ok, osize, b := OldPages(ptr);
        }
      } else if info == Chunk {
        ok, osize, b := OldChunk(ptr, at);
      }
    }

    method OldPages(ptr: nat) returns (ok: bool, osize: nat, ghost b: Block)
      requires Valid() && StartsAt(State(), ptr)
      requires MarkAt(m.heap.pd.dirs, Shadow(m.heap.pd.dirs, PtrToIndex(ptr))) == First
      ensures ok && LiveIn(State(), b) && b.Pages? && Located(m.infos, b) && Start(m.infos, b) == ptr
      ensures osize == Usable(m.infos, b)
    {
      hide StartsAt, FreeMarked, Owned, RunsHeld, RunsApart, Coalesced, PdirsOk, TopOk, BucketsOk, InfosOk;
      Ok();
      ghost var r := RunAt(State(), m.heap.freeList, m.heap.guard, m.heap.lastIndex, m.heap.brk, ptr);
      RunIsMaximal(m.heap.pd.dirs, m.heap.freeList, m.heap.live, m.heap.guard, r);
      b := Pages(m.heap.live[r]);
      osize := m.heap.pd.RunBytes(PtrToIndex(ptr), m.heap.live[r].pages);
      ok := true;
    }

    method OldChunk(ptr: nat, at: nat) returns (ok: bool, osize: nat, ghost b: Block)
      requires Valid() && at == Shadow(m.heap.pd.dirs, PtrToIndex(ptr)) && MarkAt(m.heap.pd.dirs, at) == Chunk
      requires StartsAt(State(), ptr) <==> Releases(m.infos[at], ptr)
      ensures b.Piece? && (ok <==> StartsAt(State(), ptr))
      ensures ok ==> LiveIn(State(), b) && Located(m.infos, b) && Start(m.infos, b) == ptr
      ensures ok ==> osize == Usable(m.infos, b) <= Size(m.infos, b)
    {
      hide StartsAt, PageHeap.Valid, BucketsOk, InUse, Count, InPage, Pow2;
      var info := m.infos[at];
      Pow2Monotone(0, info.shift);
      var i := ptr % PAGESIZE / Pow2(info.shift);
      SlotOf(info, ptr);
      b := Piece(at, i);
      ok, osize := false, info.size;
      if ptr % Pow2(info.shift) == 0 && !Bit(info.bits, i) {
        ok := true;
        Ok();
        PieceAt(State(), m.heap.freeList, m.heap.guard, m.heap.lastIndex, m.heap.brk, ptr, at);
      }
    }

    /** irealloc: the block at ptr stays if it fits and is not too large, or its first bytes are copied to
        a new block and it is freed. b is the old block and nb the new one; `always` is the option that
        asks to move in any case. */
    method Irealloc(ptr: nat, size: nat, always: bool, rnd: nat, junk: Bitmap, ans: Mmap, blockOk: bool,
                    munmapOk: bool)
      returns (p: nat, ghost b: Block, ghost nb: Block)
      requires Valid() && !Misreads(ptr) && |junk| >= BITS
      requires TooLarge(size) || !m.heap.guard || size <= TWO64 - 2 * PAGESIZE
      requires TooLarge(size) || FreshRegion(m.heap.pd.dirs, ans, PagesFor(size), m.heap.guard)
      modifies this`mem, m, m.heap, m.heap.pd
      ensures Valid() && (munmapOk && old(m.heap.Tidy()) ==> m.heap.Tidy())
      ensures !old(StartsAt(State(), ptr)) ==> p == 0
      ensures p == 0 ==> Unchanged(old(State()), State()) && mem == old(mem)
      ensures old(StartsAt(State(), ptr)) ==>
        LiveIn(old(State()), b) && old(Located(m.infos, b)) && old(Start(m.infos, b)) == ptr > 0
      ensures old(StartsAt(State(), ptr)) && Stays(b.Pages?, always, size, old(Usable(m.infos, b))) ==>
        p == ptr && Unchanged(old(State()), State()) && mem == old(mem)
      ensures old(StartsAt(State(), ptr)) && !Stays(b.Pages?, always, size, old(Usable(m.infos, b))) ==>
        (p == 0 <==> old(Refuses(size, ans, blockOk)))
        && (p != 0 ==> Moved(old(State()), State(), old(mem), mem, b, nb, p, size, old(Usable(m.infos, b))))
      ensures old(StartsAt(State(), ptr)) && !always && size > 0 && IsCapacity(size, old(Usable(m.infos, b))) ==>
        p == ptr && Unchanged(old(State()), State()) && mem == old(mem)
    {
      hide StartsAt, Unchanged, Moved, PageHeap.Tidy, Misread, FreshRegion, LiveIn, Malloc.Valid, Malloc.Refuses;
      hide PageHeap.Refuses, MarkAt, Shadow, IsCapacity, Suits;
      p, b, nb := 0, Piece(0, 0), Piece(0, 0);
      Judge(ptr);
      SameBooks(State());
      var index := PtrToIndex(ptr);
      if index > m.heap.lastIndex {
        return;
      }
      var info, at := Look(ptr);
      ghost var infos := m.infos;
      p, b, nb := Resize(ptr, at, info, size, always, rnd, junk, ans, blockOk, munmapOk);
      if Located(infos, b) && size > 0 && IsCapacity(size, Usable(infos, b)) { OwnSizeSuits(infos, b, size); }
    }

    /** irealloc behind the lookup of the mark. */
    method Resize(ptr: nat, at: nat, info: Mark, size: nat, always: bool, rnd: nat, junk: Bitmap, ans: Mmap,
                  blockOk: bool, munmapOk: bool)
      returns (p: nat, ghost b: Block, ghost nb: Block)
      requires Valid() && !Misreads(ptr) && |junk| >= BITS
      requires PtrToIndex(ptr) <= m.heap.lastIndex && at == Shadow(m.heap.pd.dirs, PtrToIndex(ptr))
      requires info == MarkAt(m.heap.pd.dirs, at)
      requires TooLarge(size) || !m.heap.guard || size <= TWO64 - 2 * PAGESIZE
      requires TooLarge(size) || FreshRegion(m.heap.pd.dirs, ans, PagesFor(size), m.heap.guard)
      modifies this`mem, m, m.heap, m.heap.pd
      ensures Valid() && (munmapOk && old(m.heap.Tidy()) ==> m.heap.Tidy())
      ensures !old(StartsAt(State(), ptr)) ==> p == 0
      ensures p == 0 ==> Unchanged(old(State()), State()) && mem == old(mem)
      ensures old(StartsAt(State(), ptr)) ==>
        LiveIn(old(State()), b) && old(Located(m.infos, b)) && old(Start(m.infos, b)) == ptr > 0
      ensures old(StartsAt(State(), ptr)) && Stays(b.Pages?, always, size, old(Usable(m.infos, b))) ==>
        p == ptr && Unchanged(old(State()), State()) && mem == old(mem)
      ensures old(StartsAt(State(), ptr)) && !Stays(b.Pages?, always, size, old(Usable(m.infos, b))) ==>
        (p == 0 <==> old(Refuses(size, ans, blockOk)))
        && (p != 0 ==> Moved(old(State()), State(), old(mem), mem, b, nb, p, size, old(Usable(m.infos, b))))
    {
      hide StartsAt, Unchanged, Moved, PageHeap.Tidy, Misread, FreshRegion, LiveIn, Malloc.Valid, Malloc.Refuses;
      hide PageHeap.Refuses, MarkAt, Stays;
      p, b, nb := 0, Piece(0, 0), Piece(0, 0);
      ghost var s := State();
      SameBooks(s);
      var ok, osize;
      ok, osize, b := OldSize(ptr, at, info);
      if !ok {
        return;
      }
      Ok();
      StartPositive(s, m.heap.freeList, m.heap.guard, m.heap.lastIndex, m.heap.brk, b);
      StaysIf(s, m.heap.freeList, m.heap.guard, m.heap.lastIndex, m.heap.brk, b, always, size);
      if !always && size <= osize
         && (if info == First then size > osize - PAGESIZE else size > osize / 2 || osize == MINSIZE) {
        p := ptr;
        return;
      }
      p, nb := Move(ptr, size, osize, rnd, junk, ans, blockOk, munmapOk, b);
    }

    /** The second half of irealloc: allocate, copy the lesser of the two sizes, free. */
    method Move(ptr: nat, size: nat, osize: nat, rnd: nat, junk: Bitmap, ans: Mmap, blockOk: bool,
                munmapOk: bool, ghost b: Block)
      returns (p: nat, ghost nb: Block)
      requires Valid() && |junk| >= BITS && LiveIn(State(), b) && Located(m.infos, b)
      requires Start(m.infos, b) == ptr && osize <= Size(m.infos, b)
      requires TooLarge(size) || !m.heap.guard || size <= TWO64 - 2 * PAGESIZE
      requires TooLarge(size) || FreshRegion(m.heap.pd.dirs, ans, PagesFor(size), m.heap.guard)
      modifies this`mem, m, m.heap, m.heap.pd
      ensures Valid() && (munmapOk && old(m.heap.Tidy()) ==> m.heap.Tidy())
      ensures p == 0 <==> old(Refuses(size, ans, blockOk))
      ensures p == 0 ==> Unchanged(old(State()), State()) && mem == old(mem)
      ensures p != 0 ==> Moved(old(State()), State(), old(mem), mem, b, nb, p, size, osize)
    {
      hide Malloc.Valid, Added, Unchanged, Moved, PageHeap.Tidy, FreshRegion, LiveIn, Refuses, HasCapacity;
      ghost var s := State();
      p, nb := Imalloc(size, rnd, junk, ans, blockOk);
      if p != 0 {
        ghost var s1 := State();
        StillThere(s, s1, nb, b);
        CopyAndFree(p, ptr, osize, size, munmapOk, s, s1, b, nb);
      }
    }

    /** The old block's first bytes go to the new block, and the old block goes out of use. */
    method CopyAndFree(p: nat, ptr: nat, osize: nat, size: nat, munmapOk: bool, ghost s: Books, ghost s1: Books,
                       ghost b: Block, ghost nb: Block)
      requires Valid() && s1 == State() && Added(s, s1, nb) && LiveIn(s, b) && Located(s.infos, b)
      requires LiveIn(s1, b) && LiveIn(s1, nb) && b != nb
      requires Located(s1.infos, b) && Start(s.infos, b) == Start(s1.infos, b) == ptr
      requires Located(s1.infos, nb) && Start(s1.infos, nb) == p && HasCapacity(s1.infos, nb, size)
      requires osize <= Size(s1.infos, b)
      modifies this`mem, m, m.heap, m.heap.pd
      ensures Valid() && Moved(s, State(), old(mem), mem, b, nb, p, size, osize)
      ensures munmapOk && old(m.heap.Tidy()) ==> m.heap.Tidy()
    {
      hide Added, Dropped, Moved, IsLive, Copied, Malloc.Valid, PageHeap.Tidy, IsCapacity;
      CopyBlock(p, ptr, osize, size, b, nb);
      assert State() == s1;
      FreeBlock(ptr, b, munmapOk);
      MoveBooks(s, s1, State(), old(mem), mem, b, nb, p, size, osize);
    }

    /** The old block's first bytes go to the new block. */
    method CopyBlock(p: nat, ptr: nat, osize: nat, size: nat, ghost b: Block, ghost nb: Block)
      requires Valid() && LiveIn(State(), b) && LiveIn(State(), nb) && b != nb
      requires Located(m.infos, nb) && Located(m.infos, b) && Start(m.infos, b) == ptr && Start(m.infos, nb) == p
      requires osize <= Size(m.infos, b) && size <= Size(m.infos, nb)
      modifies this`mem
      ensures Copied(old(mem), mem, ptr, p, Min(osize, size)) && p != ptr
    {
      NowApart(nb, b);
      CopyLesser(p, ptr, osize, size);
    }

    /** Copy the lesser of the two sizes; not from or to a region of size 0. */
    method CopyLesser(p: nat, ptr: nat, osize: nat, size: nat)
      requires p + size <= ptr || ptr + osize <= p
      modifies this`mem
      ensures Copied(old(mem), mem, ptr, p, Min(osize, size))
    {
      if osize != 0 && size != 0 {
        Memcpy(p, ptr, if osize < size then osize else size);
      }
    }

    /** memcpy, which asks that the two ranges do not overlap. */
    method Memcpy(dst: nat, src: nat, n: nat)
      requires dst + n <= src || src + n <= dst
      modifies this`mem
      ensures Copied(old(mem), mem, src, dst, n)
    {
      mem := CopyOf(mem, src, dst, n);
    }

    /** The program stores a byte. */
    method Poke(p: nat, v: bv8)
      modifies this`mem
      ensures Poked(old(mem), mem, p, v)
    {
      var before := mem;
      mem := (a: nat) => if a == p then v else before(a);
    }

    /** A request is refused because it is too large, or because one of the two requests to the system fails. */
    lemma WhyRefused(size: nat, ans: Mmap, blockOk: bool)
      ensures Refuses(size, ans, blockOk) ==> size + PAGESIZE >= TWO64 || ans.MapFailed? || !blockOk
    {
    }

    /** A page with a free chunk for the size is on the list for it. */
    lemma FreeListed(size: nat) returns (j: nat)
      requires Valid() && size <= MAXSIZE && HasFree(size)
      ensures j < BUCKETS && BucketFor(Served(size), j) && |m.buckets| == BUCKETS && m.buckets[j] != []
    {
      hide PageHeap.Valid, InUse, Count, InPage;
      var p :| p in m.infos && IsCapacity(size, m.infos[p].size) && m.infos[p].free > 0;
      j := 0;
      if size > 0 { j :| BucketFor(Served(size), j) && m.infos[p].size == Pow2(j); }
      ListOf(m.infos[p], size, j);
      assert BucketOk(m.infos, m.buckets[j], j);
      assert p in m.buckets[j];
    }

    /** And pages only if no entry of the free list is large enough. */
    lemma NoneCached(size: nat, ans: Mmap, blockOk: bool)
      ensures MAXSIZE < size && m.heap.Refuses(PageRound(size) / PAGESIZE, ans, blockOk) ==>
        forall i :: 0 <= i < |m.heap.freeList| ==> m.heap.freeList[i].size < PageRound(size) + GuardBytes(m.heap.guard)
    {
      hide Unmappable, PageRound;
      if MAXSIZE < size { RoundedPages(size); }
    }

    lemma NullStartsNone()
      requires Valid()
      ensures !StartsAt(State(), 0)
    {
      hide Malloc.Valid, Partition, InfosOk, ChunksMarked, Coalesced, TopOk;
      Ok();
      forall b | LiveIn(State(), b) ensures Located(m.infos, b) && Start(m.infos, b) != 0 {
        StartPositive(State(), m.heap.freeList, m.heap.guard, m.heap.lastIndex, m.heap.brk, b);
      }
    }

    /** No other block starts where a new one does. */
    lemma NewAt(s: Books, p: nat, b: Block)
      requires Valid() && Added(s, State(), b) && Located(m.infos, b) && Start(m.infos, b) == p
      ensures forall x :: LiveIn(State(), x) && Start(m.infos, x) == p ==> x == b
    {
      hide Malloc.Valid, Unmoved, Misread, StartsAt;
      assert LiveIn(State(), b);
      SoleAt(p, b);
    }

    /** Two live blocks do not overlap. */
    lemma NowApart(a: Block, b: Block)
      requires Valid() && LiveIn(State(), a) && LiveIn(State(), b) && a != b
      ensures Located(m.infos, a) && Located(m.infos, b)
      ensures End(m.infos, a) <= Start(m.infos, b) || End(m.infos, b) <= Start(m.infos, a)
      ensures Size(m.infos, a) > 0 && Size(m.infos, b) > 0
    {
      Ok();
      BlocksDisjoint(m.heap.pd.dirs, m.heap.freeList, m.heap.live, m.heap.guard, m.infos, a, b);
      HasBytes(m.heap.pd.dirs, m.heap.live, m.heap.guard, m.infos, a);
      HasBytes(m.heap.pd.dirs, m.heap.live, m.heap.guard, m.infos, b);
    }

    /** ifree of a live block frees that block. */
    method FreeBlock(ptr: nat, ghost b: Block, munmapOk: bool)
      requires Valid() && LiveIn(State(), b) && Located(m.infos, b) && Start(m.infos, b) == ptr
      modifies m, m.heap, m.heap.pd
      ensures Valid() && Dropped(old(State()), State(), b)
      ensures munmapOk && old(m.heap.Tidy()) ==> m.heap.Tidy()
    {
      hide IsLive, PageHeap.Tidy, Misread, Malloc.Valid;
      SoleAt(ptr, b);
      var freed;
      ghost var x;
      freed, x := Ifree(ptr, munmapOk);
    }

    /** The start of a live block is not misread, and no other live block starts there. */
    lemma SoleAt(ptr: nat, b: Block)
      requires Valid() && LiveIn(State(), b) && Located(m.infos, b) && Start(m.infos, b) == ptr
      ensures StartsAt(State(), ptr) && !Misreads(ptr)
      ensures forall x :: LiveIn(State(), x) && Start(m.infos, x) == ptr ==> x == b
    {
      hide Malloc.Valid, Misread, Partition, InfosOk, ChunksMarked, Coalesced, TopOk, MarkAt, Pow2;
      Ok();
      BlockAccepted(State(), m.heap.freeList, m.heap.guard, m.heap.lastIndex, m.heap.brk, ptr);
      forall x | LiveIn(State(), x) && Located(m.infos, x) && Start(m.infos, x) == ptr ensures x == b {
        if x != b { NowApart(x, b); }
      }
    }
  }
}
