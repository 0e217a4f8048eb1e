/** What ifree and irealloc make of a pointer: when they take it for the start of a block, and when they are right. */
module Pointers {
  import opened PageDirectory
  import opened DirectoryPages
  import opened FreeLists
  import opened PagePartition
  import opened PageHeaps
  import opened Bitmaps
  import opened Chunks
  import opened Mallocs
  import opened Blocks

  /** The tests that ifree and irealloc make before they touch anything. */
  predicate Accepts(dirs: Dirs, infos: Infos, lastIndex: nat, ptr: nat)
    requires InfosOk(infos) && ChunksMarked(dirs, infos)
  {
    var at := Shadow(dirs, PtrToIndex(ptr));
    && PtrToIndex(ptr) <= lastIndex
    && match MarkAt(dirs, at)
       case First => Aligned(ptr)
       case Chunk => Releases(infos[at], ptr)
       case _ => false
  }

  /** A block starts at ptr. */
  ghost predicate StartsAt(s: Books, ptr: nat) {
    exists b :: LiveIn(s, b) && Start(s.infos, b) == ptr
  }

  /** Page j is the guard page of a run. */
  ghost predicate GuardAt(live: seq<Run>, guard: bool, j: nat) {
    guard && exists i :: 0 <= i < |live| && j == live[i].start + live[i].pages
  }

  /** ptr is where a slot of the header would start, if it were one of the chunks of the page. */
  ghost predicate HeaderSlot(info: PgInfo, ptr: nat)
    requires ShiftOk(info.shift) && Pow2(info.shift) > 0
  {
    ptr % Pow2(info.shift) == 0 && ChunkOf(info, ptr) < Stolen(info)
  }

  /** The pointers that are taken for a block although none starts there: the start of a guard page, the start of a
      header slot, and an address in a page without a directory page if a block starts at the same place of the
      page that is read instead, or that one is a guard page or has a header slot there. */
  ghost predicate Misread(s: Books, guard: bool, lastIndex: nat, ptr: nat)
    requires InfosOk(s.infos)
  {
    var j := PtrToIndex(ptr);
    var at := Shadow(s.dirs, j);
    j <= lastIndex &&
    (|| (Aligned(ptr) && GuardAt(s.live, guard, at))
     || (at in s.infos && Pow2(s.infos[at].shift) > 0 && HeaderSlot(s.infos[at], ptr))
     || (at != j && at >= PAGESHIFT && StartsAt(s, IndexToPtr(at) + ptr % PAGESIZE)))
  }

  // ----- When the answer is right -----

  /** A mark FIRST is that of a live run's first page, or of a guard page. */
  lemma FirstIsGuard(dirs: Dirs, fl: seq<FreeRun>, live: seq<Run>, guard: bool, j: nat)
    requires Partition(dirs, fl, live, guard) && MarkAt(dirs, j) == First
    ensures (exists i :: 0 <= i < |live| && live[i].start == j) <==> !GuardAt(live, guard, j)
  {
    assert InLive(live, guard, j);
    var k :| 0 <= k < |live| && Holds(live[k], guard, j);
    assert RunHeld(dirs, live[k], guard);
    if j != live[k].start { assert MarkAt(dirs, j) == RunMark(live[k].start, live[k].pages, j); }
    if GuardAt(live, guard, j) { GuardStartsNone(dirs, live, guard, j); }
  }

  lemma GuardStartsNone(dirs: Dirs, live: seq<Run>, guard: bool, j: nat)
    requires RunsHeld(dirs, live, guard) && RunsApart(live, guard) && GuardAt(live, guard, j)
    ensures forall i :: 0 <= i < |live| ==> live[i].start != j
  {
    var g :| 0 <= g < |live| && j == live[g].start + live[g].pages;
    assert RunHeld(dirs, live[g], guard);
    forall i | 0 <= i < |live| ensures live[i].start != j {
      assert RunHeld(dirs, live[i], guard);
      if g < i { assert Disjoint(live[g], live[i], guard); }
      if i < g { assert Disjoint(live[i], live[g], guard); }
    }
  }

  /** The start of a block is accepted, and is not misread. */
  lemma BlockAccepted(s: Books, fl: seq<FreeRun>, guard: bool, lastIndex: nat, brk: nat, ptr: nat)
    requires BooksOk(s, fl, guard, lastIndex, brk) && StartsAt(s, ptr)
    ensures Accepts(s.dirs, s.infos, lastIndex, ptr) && Shadow(s.dirs, PtrToIndex(ptr)) == PtrToIndex(ptr)
    ensures !Misread(s, guard, lastIndex, ptr)
  {
    hide Owned, FreeMarked, Count, Pow2, InfoOk, Stolen, TopOk;
    var j := PtrToIndex(ptr);
    NoOtherStart(s, fl, guard, lastIndex, brk, ptr);
    var b :| LiveIn(s, b) && Start(s.infos, b) == ptr;
    assert ToldBy(s, b, ptr);
    assert MarkAt(s.dirs, j) != NotMine;
    ShadowAt(s.dirs, j);
    if b.Pages? {
      if GuardAt(s.live, guard, j) { GuardStartsNone(s.dirs, s.live, guard, j); }
    } else {
      ChunkInPage(s.infos[j], ptr, j);
      if GuardAt(s.live, guard, j) { GuardIsFirst(s.dirs, s.live, guard, j); }
    }
  }

  lemma GuardIsFirst(dirs: Dirs, live: seq<Run>, guard: bool, j: nat)
    requires RunsHeld(dirs, live, guard) && GuardAt(live, guard, j)
    ensures MarkAt(dirs, j) == First && j > PAGESHIFT
  {
    var g :| 0 <= g < |live| && j == live[g].start + live[g].pages;
    assert RunHeld(dirs, live[g], guard);
    assert MarkAt(dirs, j) == RunMark(live[g].start, live[g].pages, j);
  }

  /** What is accepted is a block at the same place of the page that is read, a guard page or a header slot. */
  lemma AcceptedIs(s: Books, fl: seq<FreeRun>, guard: bool, lastIndex: nat, brk: nat, ptr: nat)
    requires BooksOk(s, fl, guard, lastIndex, brk) && Accepts(s.dirs, s.infos, lastIndex, ptr)
    ensures var at := Shadow(s.dirs, PtrToIndex(ptr));
            || (Aligned(ptr) && GuardAt(s.live, guard, at))
            || (at in s.infos && Pow2(s.infos[at].shift) > 0 && HeaderSlot(s.infos[at], ptr))
            || (at >= PAGESHIFT && StartsAt(s, IndexToPtr(at) + ptr % PAGESIZE))
  {
    hide Owned, FreeMarked, Count, Pow2, TopOk, InPage;
    var at := Shadow(s.dirs, PtrToIndex(ptr));
    if MarkAt(s.dirs, at) == First {
      FirstIsGuard(s.dirs, fl, s.live, guard, at);
      if !GuardAt(s.live, guard, at) {
        var r :| 0 <= r < |s.live| && s.live[r].start == at;
        assert RunHeld(s.dirs, s.live[r], guard);
        assert LiveIn(s, Pages(s.live[r])) && Start(s.infos, Pages(s.live[r])) == IndexToPtr(at) + ptr % PAGESIZE;
      }
    } else {
      SlotOf(s.infos[at], ptr);
      ChunkThere(s.infos[at], at, ptr);
      var c := ChunkOf(s.infos[at], ptr);
      if c >= Stolen(s.infos[at]) {
        assert LiveIn(s, Piece(at, c)) && Start(s.infos, Piece(at, c)) == IndexToPtr(at) + ptr % PAGESIZE;
      }
    }
  }

  /** The chunk that an address falls to in a page of chunks, be it in that page or not. */
  lemma ChunkThere(info: PgInfo, at: nat, ptr: nat)
    requires InfoOk(info) && at >= PAGESHIFT && info.page == IndexToPtr(at)
    ensures Pow2(info.shift) > 0 && ChunkOf(info, IndexToPtr(at) + ptr % PAGESIZE) == ChunkOf(info, ptr)
    ensures ptr % Pow2(info.shift) == 0 <==> IndexToPtr(at) + ptr % PAGESIZE == ChunkAddr(info, ChunkOf(info, ptr))
  {
    hide Count, Pow2, InPage;
    var there := IndexToPtr(at) + ptr % PAGESIZE;
    SamePlaceInPage(at, ptr);
    ChunkInPage(info, there, at);
    SlotsTable(info.shift);
    SameRest(ptr, ptr % PAGESIZE, ptr / PAGESIZE, Slots(info.shift), Pow2(info.shift));
    SameRest(there, ptr % PAGESIZE, at - PAGESHIFT, Slots(info.shift), Pow2(info.shift));
  }

  lemma SamePlaceInPage(at: nat, ptr: nat)
    requires at >= PAGESHIFT
    ensures var there := IndexToPtr(at) + ptr % PAGESIZE;
            there % PAGESIZE == ptr % PAGESIZE && PtrToIndex(there) == at
  {
  }

  /** Whole pages make no difference to a remainder by a chunk size. */
  lemma SameRest(a: nat, off: nat, q: nat, n: nat, c: nat)
    requires c > 0 && n * c == PAGESIZE && a == q * PAGESIZE + off
    ensures a % c == off % c
  {
    Regroup(q, n, c, off / c);
    assert off == off / c * c + off % c;
    DivMul(q * n + off / c, c);
    SplitMod((q * n + off / c) * c, off % c, c);
  }

  /** A misread pointer is accepted, and no block starts there. */
  lemma MisreadAccepted(s: Books, fl: seq<FreeRun>, guard: bool, lastIndex: nat, brk: nat, ptr: nat)
    requires BooksOk(s, fl, guard, lastIndex, brk) && Misread(s, guard, lastIndex, ptr)
    ensures Accepts(s.dirs, s.infos, lastIndex, ptr) && !StartsAt(s, ptr)
  {
    hide Owned, FreeMarked, Count, Pow2, TopOk, InPage;
    var j := PtrToIndex(ptr);
    var at := Shadow(s.dirs, j);
    if StartsAt(s, ptr) { BlockAccepted(s, fl, guard, lastIndex, brk, ptr); }
    if Aligned(ptr) && GuardAt(s.live, guard, at) {
      GuardIsFirst(s.dirs, s.live, guard, at);
    } else if at in s.infos && Pow2(s.infos[at].shift) > 0 && HeaderSlot(s.infos[at], ptr) {
      assert MarkAt(s.dirs, at) == Chunk;
    } else {
      ReadInstead(s, fl, guard, lastIndex, brk, ptr, at);
    }
  }

  /** Where a block starts at the same place of the page that is read, the pointer is accepted. */
  lemma ReadInstead(s: Books, fl: seq<FreeRun>, guard: bool, lastIndex: nat, brk: nat, ptr: nat, at: nat)
    requires BooksOk(s, fl, guard, lastIndex, brk) && PtrToIndex(ptr) <= lastIndex
    requires at == Shadow(s.dirs, PtrToIndex(ptr)) && at >= PAGESHIFT && StartsAt(s, IndexToPtr(at) + ptr % PAGESIZE)
    ensures Accepts(s.dirs, s.infos, lastIndex, ptr)
  {
    hide Owned, FreeMarked, Count, Pow2, TopOk, InPage;
    var there := IndexToPtr(at) + ptr % PAGESIZE;
    SamePlaceInPage(at, ptr);
    NoOtherStart(s, fl, guard, lastIndex, brk, there);
    var b :| LiveIn(s, b) && Start(s.infos, b) == there;
    assert ToldBy(s, b, there);
    if b.Piece? {
      ChunkThere(s.infos[at], at, ptr);
      SlotOf(s.infos[at], ptr);
    }
  }

  /** A pointer is accepted exactly if a block starts there, unless it is misread; and then never. */
  lemma AcceptedExactly(s: Books, fl: seq<FreeRun>, guard: bool, lastIndex: nat, brk: nat, ptr: nat)
    requires BooksOk(s, fl, guard, lastIndex, brk)
    ensures (Accepts(s.dirs, s.infos, lastIndex, ptr) <==> StartsAt(s, ptr)) <==> !Misread(s, guard, lastIndex, ptr)
  {
    hide Partition, InfosOk, ChunksMarked, Coalesced, TopOk, StartsAt, GuardAt, HeaderSlot;
    if Misread(s, guard, lastIndex, ptr) {
      MisreadAccepted(s, fl, guard, lastIndex, brk, ptr);
    } else if StartsAt(s, ptr) {
      BlockAccepted(s, fl, guard, lastIndex, brk, ptr);
    } else if Accepts(s.dirs, s.infos, lastIndex, ptr) {
      AcceptedIs(s, fl, guard, lastIndex, brk, ptr);
      SamePage(ptr);
      assert false;
    }
  }

  /** A block in a page that is marked FIRST is a live run that starts there. */
  lemma RunAt(s: Books, fl: seq<FreeRun>, guard: bool, lastIndex: nat, brk: nat, ptr: nat) returns (r: nat)
    requires BooksOk(s, fl, guard, lastIndex, brk) && StartsAt(s, ptr)
    requires MarkAt(s.dirs, Shadow(s.dirs, PtrToIndex(ptr))) == First
    ensures r < |s.live| && s.live[r].start == PtrToIndex(ptr) && MarkAt(s.dirs, PtrToIndex(ptr)) == First
    ensures PageBlock(s.dirs, s.live, s.live[r]) && Start(s.infos, Pages(s.live[r])) == ptr
  {
    hide Owned, FreeMarked, RunsHeld, RunsApart, TopOk, InfoOk;
    BlockAccepted(s, fl, guard, lastIndex, brk, ptr);
    NoOtherStart(s, fl, guard, lastIndex, brk, ptr);
    var b :| LiveIn(s, b) && Start(s.infos, b) == ptr;
    assert ToldBy(s, b, ptr);
    r :| 0 <= r < |s.live| && s.live[r] == b.run;
  }

  /** A block in a page of chunks is the chunk that its address falls to. */
  lemma PieceAt(s: Books, fl: seq<FreeRun>, guard: bool, lastIndex: nat, brk: nat, ptr: nat, at: nat)
    requires BooksOk(s, fl, guard, lastIndex, brk) && StartsAt(s, ptr)
    requires at == Shadow(s.dirs, PtrToIndex(ptr)) && MarkAt(s.dirs, at) == Chunk
    ensures at in s.infos && InfoOk(s.infos[at]) && LiveAt(s.infos, at, ChunkOf(s.infos[at], ptr))
    ensures ChunkOf(s.infos[at], ptr) >= Stolen(s.infos[at]) && ChunkAddr(s.infos[at], ChunkOf(s.infos[at], ptr)) == ptr
    ensures s.infos[at].size <= Pow2(s.infos[at].shift)
  {
    hide Owned, FreeMarked, RunsHeld, RunsApart, TopOk, Count, InPage, Pow2;
    BlockAccepted(s, fl, guard, lastIndex, brk, ptr);
    NoOtherStart(s, fl, guard, lastIndex, brk, ptr);
    var b :| LiveIn(s, b) && Start(s.infos, b) == ptr;
    assert ToldBy(s, b, ptr);
    Pow2Monotone(0, s.infos[at].shift);
  }

  /** No block starts at the null pointer. */
  lemma StartPositive(s: Books, fl: seq<FreeRun>, guard: bool, lastIndex: nat, brk: nat, b: Block)
    requires BooksOk(s, fl, guard, lastIndex, brk) && LiveIn(s, b) && Located(s.infos, b)
    ensures Start(s.infos, b) > 0
  {
    hide Owned, FreeMarked, RunsHeld, RunsApart, Count, InPage, Pow2;
    if b.Pages? { assert MarkAt(s.dirs, b.run.start) == First; }
  }

  lemma SamePage(ptr: nat)
    ensures IndexToPtr(PtrToIndex(ptr)) + ptr % PAGESIZE == ptr
  {
  }

  // ----- Pointers that are misread -----

  /** The address of every guard page is. */
  lemma GuardMisread(s: Books, fl: seq<FreeRun>, guard: bool, lastIndex: nat, brk: nat, i: nat)
    requires BooksOk(s, fl, guard, lastIndex, brk) && guard && i < |s.live|
    ensures var j := s.live[i].start + s.live[i].pages;
            j >= PAGESHIFT && Misread(s, guard, lastIndex, IndexToPtr(j))
  {
    hide Owned, FreeMarked, RunsHeld, RunsApart, ChunksMarked, InfosOk, StartsAt;
    var j := s.live[i].start + s.live[i].pages;
    assert GuardAt(s.live, guard, j);
    GuardIsFirst(s.dirs, s.live, guard, j);
    RoundIndex(j);
    ShadowAt(s.dirs, j);
  }

  /** Its mark is then set to FREE, so the run in front of it is no longer what it was. */
  lemma GuardLost(dirs: Dirs, dirs': Dirs, live: seq<Run>, guard: bool, j: nat)
    requires RunsHeld(dirs, live, guard) && GuardAt(live, guard, j) && MarkAt(dirs', j) == Free
    ensures !RunsHeld(dirs', live, guard)
  {
    var g :| 0 <= g < |live| && j == live[g].start + live[g].pages;
    assert RunHeld(dirs, live[g], guard);
    assert MarkAt(dirs', j) != RunMark(live[g].start, live[g].pages, j);
    assert !RunHeld(dirs', live[g], guard);
  }

  /** So is the address of every page of chunks with its header in it. What becomes of it FreeBytes says. */
  lemma HeaderMisread(s: Books, fl: seq<FreeRun>, guard: bool, lastIndex: nat, brk: nat, p: nat)
    requires BooksOk(s, fl, guard, lastIndex, brk) && p in s.infos && InPage(Bucket(s.infos[p]))
    ensures p >= PAGESHIFT && Misread(s, guard, lastIndex, IndexToPtr(p))
  {
    hide Owned, FreeMarked, RunsHeld, RunsApart, Count;
    assert MarkAt(s.dirs, p) == Chunk;
    RoundIndex(p);
    ShadowAt(s.dirs, p);
    var info := s.infos[p];
    SlotOf(info, IndexToPtr(p));
    AddrOfChunk(info, 0);
    assert ChunkAddr(info, 0) == IndexToPtr(p);
  }

  /** And so is an address as far behind a block as a missing directory page is behind the block's. */
  lemma GapMisread(s: Books, fl: seq<FreeRun>, guard: bool, lastIndex: nat, brk: nat, ptr: nat, k: nat)
    requires BooksOk(s, fl, guard, lastIndex, brk) && StartsAt(s, ptr)
    requires var j := PtrToIndex(ptr);
             FloorOf(s.dirs, PiIdx(j) + k) == PiIdx(j) && k > 0 && j + k * PDI_MOD <= lastIndex
    ensures Misread(s, guard, lastIndex, ptr + k * PDI_MOD * PAGESIZE)
  {
    hide Partition, ChunksMarked, TopOk, Coalesced, StartsAt, FloorOf, GuardAt, HeaderSlot;
    DirsFurther(ptr, k);
    SamePage(ptr);
  }

  lemma DirsFurther(ptr: nat, k: nat)
    ensures var j, gap := PtrToIndex(ptr), ptr + k * PDI_MOD * PAGESIZE;
            && PtrToIndex(gap) == j + k * PDI_MOD && gap % PAGESIZE == ptr % PAGESIZE
            && PiIdx(PtrToIndex(gap)) == PiIdx(j) + k && PiOff(PtrToIndex(gap)) == PiOff(j)
  {
  }

  /** If a run is then freed, pages that are not mapped get on the free list. */
  lemma GapLost(dirs: Dirs, fl: seq<FreeRun>, ptr: nat)
    requires PiIdx(PtrToIndex(ptr)) !in dirs && Aligned(ptr) && InFree(fl, ptr)
    ensures !FreeMarked(dirs, fl)
  {
    RoundPtr(ptr);
    assert MarkAt(dirs, PtrToIndex(ptr)) == NotMine;
  }

  // ----- One of each -----

  function OneDir(k: nat, n: nat, base: seq<Mark>): Dir { Dir(k * PD_RADIX + n, base, NIL, NIL) }

  /** A run of one page at 4096, with a guard page behind it. */
  function GuardBooks(): Books {
    Books(map[0 := OneDir(0, 14, seq(PDI_MOD, i => if i == 13 || i == 14 then First else NotMine))],
          [Run(13, 1)], map[])
  }

  lemma GuardHeld(dirs: Dirs, live: seq<Run>)
    requires forall j: nat :: MarkAt(dirs, j) == if j == 13 || j == 14 then First else NotMine
    requires live == [Run(13, 1)]
    ensures Partition(dirs, [], live, true) && TopOk(dirs, 14, 12288)
  {
    hide MarkAt;
    assert Holds(live[0], true, 13) && Holds(live[0], true, 14);
    assert RunHeld(dirs, live[0], true);
  }

  lemma GuardMark(j: nat)
    ensures MarkAt(GuardBooks().dirs, j) == if j == 13 || j == 14 then First else NotMine
  {
  }

  lemma GuardBooksOk()
    ensures BooksOk(GuardBooks(), [], true, 14, 12288)
  {
    hide MarkAt;
    var s := GuardBooks();
    forall j: nat ensures MarkAt(s.dirs, j) == if j == 13 || j == 14 then First else NotMine { GuardMark(j); }
    GuardHeld(s.dirs, s.live);
    hide Partition, TopOk;
  }

  lemma GuardExample()
    ensures BooksOk(GuardBooks(), [], true, 14, 12288) && Misread(GuardBooks(), true, 14, 8192)
    ensures Accepts(GuardBooks().dirs, GuardBooks().infos, 14, 8192) && !StartsAt(GuardBooks(), 8192)
  {
    GuardBooksOk();
    GuardMisread(GuardBooks(), [], true, 14, 12288, 0);
    MisreadAccepted(GuardBooks(), [], true, 14, 12288, 8192);
  }

  /** A page of chunks of 64 bytes at 4096, all free but the slot of the header. */
  function HeaderBooks(): Books {
    Books(map[0 := OneDir(0, 13, seq(PDI_MOD, i => if i == 13 then Chunk else NotMine))], [Run(13, 1)],
          map[13 := PgInfo(4096, 64, 6, 63, 63, [seq(BITS, i => i > 0)])])
  }

  lemma HeaderInfoOk()
    ensures InfoOk(HeaderBooks().infos[13]) && InPage(Bucket(HeaderBooks().infos[13]))
  {
    hide Count;
    SlotsTable(6);
    Pow2Table();
    FilledCount(HeaderBooks().infos[13].bits, 1, 64);
  }

  lemma HeaderHeld(dirs: Dirs, live: seq<Run>)
    requires forall j: nat :: MarkAt(dirs, j) == if j == 13 then Chunk else NotMine
    requires live == [Run(13, 1)]
    ensures Partition(dirs, [], live, false) && TopOk(dirs, 13, 8192)
  {
    hide MarkAt;
    assert Holds(live[0], false, 13);
    assert RunHeld(dirs, live[0], false);
  }

  lemma HeaderMark(j: nat)
    ensures MarkAt(HeaderBooks().dirs, j) == if j == 13 then Chunk else NotMine
  {
  }

  lemma HeaderBooksOk()
    ensures BooksOk(HeaderBooks(), [], false, 13, 8192) && InPage(Bucket(HeaderBooks().infos[13]))
  {
    hide InfoOk, InPage, MarkAt;
    HeaderInfoOk();
    var s := HeaderBooks();
    forall j: nat ensures MarkAt(s.dirs, j) == if j == 13 then Chunk else NotMine { HeaderMark(j); }
    HeaderHeld(s.dirs, s.live);
    hide Partition, TopOk;
  }

  lemma HeaderExample()
    ensures BooksOk(HeaderBooks(), [], false, 13, 8192) && Misread(HeaderBooks(), false, 13, 4096)
    ensures Accepts(HeaderBooks().dirs, HeaderBooks().infos, 13, 4096) && !StartsAt(HeaderBooks(), 4096)
  {
    hide Count, Pow2;
    HeaderBooksOk();
    HeaderMisread(HeaderBooks(), [], false, 13, 8192, 13);
    MisreadAccepted(HeaderBooks(), [], false, 13, 8192, 4096);
  }

  /** Runs of one page in the directory pages 0 and 2. The start of the first, shifted to directory page 1, which
      does not exist, is misread. */
  function GapBooks(): Books {
    var base := seq(PDI_MOD, i => if i == 13 then First else NotMine);
    Books(map[0 := OneDir(0, 13, base), 2 := OneDir(2, 1, base)], [Run(13, 1), Run(1029, 1)], map[])
  }

  lemma GapMarks(j: nat)
    ensures MarkAt(GapBooks().dirs, j) == if j == 13 || j == 1029 then First else NotMine
  {
    if PiIdx(j) == 0 || PiIdx(j) == 2 {
      assert PiOff(j) == 13 && PiIdx(j) == 0 <==> j == 13;
      assert PiOff(j) == 13 && PiIdx(j) == 2 <==> j == 1029;
    }
  }

  lemma GapHeld(dirs: Dirs, live: seq<Run>)
    requires forall j: nat :: MarkAt(dirs, j) == if j == 13 || j == 1029 then First else NotMine
    requires live == [Run(13, 1), Run(1029, 1)]
    ensures Partition(dirs, [], live, false) && TopOk(dirs, 1029, 4169728)
    ensures PageBlock(dirs, live, live[0])
  {
    hide MarkAt;
    assert Holds(live[0], false, 13) && Holds(live[1], false, 1029);
    assert RunHeld(dirs, live[0], false) && RunHeld(dirs, live[1], false);
  }

  lemma GapBooksOk()
    ensures BooksOk(GapBooks(), [], false, 1029, 4169728) && StartsAt(GapBooks(), 4096)
    ensures FloorOf(GapBooks().dirs, 1) == 0
  {
    hide MarkAt;
    var s := GapBooks();
    forall j: nat ensures MarkAt(s.dirs, j) == if j == 13 || j == 1029 then First else NotMine { GapMarks(j); }
    GapHeld(s.dirs, s.live);
    hide Partition, TopOk;
    assert LiveIn(s, Pages(s.live[0])) && Start(s.infos, Pages(s.live[0])) == 4096;
  }

  lemma GapExample()
    ensures BooksOk(GapBooks(), [], false, 1029, 4169728) && Misread(GapBooks(), false, 1029, 4096 + PDI_MOD * PAGESIZE)
    ensures Accepts(GapBooks().dirs, GapBooks().infos, 1029, 4096 + PDI_MOD * PAGESIZE)
    ensures !StartsAt(GapBooks(), 4096 + PDI_MOD * PAGESIZE)
  {
    GapBooksOk();
    GapMisread(GapBooks(), [], false, 1029, 4169728, 4096, 1);
    MisreadAccepted(GapBooks(), [], false, 1029, 4169728, 4096 + PDI_MOD * PAGESIZE);
  }
}
