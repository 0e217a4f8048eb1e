/** The page allocator: malloc_pages, map_pages and free_pages over the page directory and the list
    of cached free memory. */
module PageHeaps {
  import opened PageDirectory
  import opened DirectoryPages
  import opened FreeLists
  import opened PagePartition

  /** What mmap answers: a page-aligned region, or MAP_FAILED. */
  datatype Mmap = MapFailed | Mapped(addr: nat)

  function GuardTotal(n: nat, guard: bool): nat { if guard then n * PAGESIZE else 0 }

  /** One more than the greatest size_t. */
  const TWO64: nat := 0x1_0000_0000_0000_0000

  /** pageround, where the sum does not leave size_t. */
  function PageRound(size: nat): nat { (size + PAGESIZE - 1) / PAGESIZE * PAGESIZE }

  function GuardBytes(guard: bool): nat { if guard then PAGESIZE else 0 }

  /** imalloc refuses sizes above SIZE_MAX - pagesize. What is left is rounded and increased by the
      guard without leaving size_t iff there is no guard or the size is another page smaller. */
  lemma {:induction false} RoundedSizeFits(size: nat, guard: bool)
    requires size <= TWO64 - 1 - PAGESIZE
    ensures PageRound(size) + GuardBytes(guard) < TWO64 <==> !guard || size <= TWO64 - 2 * PAGESIZE
    ensures Aligned(PageRound(size)) && size <= PageRound(size) < size + PAGESIZE
  {
    var q := (size + PAGESIZE - 1) / PAGESIZE;
    assert TWO64 == 0x10_0000_0000_0000 * PAGESIZE;
    assert size + PAGESIZE - 1 == q * PAGESIZE + (size + PAGESIZE - 1) % PAGESIZE;
  }

  function TotalPages(live: seq<Run>): nat {
    if live == [] then 0 else live[0].pages + TotalPages(live[1..])
  }

  lemma {:induction false} TotalPagesConcat(a: seq<Run>, b: seq<Run>)
    ensures TotalPages(a + b) == TotalPages(a) + TotalPages(b)
  {
    if a == [] {
      assert a + b == b;
    } else {
      assert (a + b)[1..] == a[1..] + b;
      TotalPagesConcat(a[1..], b);
    }
  }

  lemma TotalPagesAdd(live: seq<Run>, r: Run)
    ensures TotalPages(live + [r]) == TotalPages(live) + r.pages
  {
    TotalPagesConcat(live, [r]);
  }

  lemma TotalPagesSplit(live: seq<Run>, k: nat)
    requires k < |live|
    ensures TotalPages(live) == TotalPages(live[..k]) + live[k].pages + TotalPages(live[k + 1..])
  {
    var rest := [live[k]] + live[k + 1..];
    assert live == live[..k] + rest;
    assert rest[1..] == live[k + 1..];
    TotalPagesConcat(live[..k], rest);
  }

  lemma TotalPagesWithout(live: seq<Run>, k: nat)
    requires k < |live|
    ensures TotalPages(live) == TotalPages(Without(live, k)) + live[k].pages
  {
    TotalPagesSplit(live, k);
    TotalPagesConcat(live[..k], live[k + 1..]);
  }

  /** Every free-list entry names the directory page of its first page. */
  ghost predicate PdirsOk(fl: seq<FreeRun>) {
    forall i :: 0 <= i < |fl| ==> fl[i].pdir == PiIdx(PtrToIndex(fl[i].page))
  }

  /** No mapped page lies above last_index, which matches malloc_brk; page zero is never mapped. */
  ghost predicate TopOk(dirs: Dirs, lastIndex: nat, brk: nat) {
    && (forall j: nat {:trigger MarkAt(dirs, j)} :: MarkAt(dirs, j) != NotMine ==> PAGESHIFT < j <= lastIndex)
    && (if brk == 0 then lastIndex < PAGESHIFT else Aligned(brk) && lastIndex + 1 == PtrToIndex(brk))
  }

  /** Position k holds the first entry of at least `total` bytes, or none does and k is the length. */
  ghost predicate IsFirstFit(fl: seq<FreeRun>, total: nat, k: nat) {
    && k <= |fl| && (forall i :: 0 <= i < k ==> fl[i].size < total)
    && (k < |fl| ==> fl[k].size >= total)
  }

  /** The pages of a free-list entry are marked free, so they have directory pages. */
  lemma EntryMarked(dirs: Dirs, fl: seq<FreeRun>, i: nat, a: nat)
    requires FreeMarked(dirs, fl) && i < |fl| && Covers(fl[i], a) && Aligned(a)
    ensures MarkAt(dirs, PtrToIndex(a)) == Free
  {
    RoundPtr(a);
    assert InFree(fl, IndexToPtr(PtrToIndex(a)));
  }

  lemma PiIdxMonotone(i: nat, j: nat)
    requires i <= j
    ensures PiIdx(i) <= PiIdx(j)
  {
  }

  /** The contract of mmap: a region of whole pages, above page zero, none of which is in use. */
  ghost predicate FreshRegion(dirs: Dirs, ans: Mmap, pages: nat, guard: bool) {
    ans.Mapped? ==>
      && ans.addr > 0 && Aligned(ans.addr)
      && forall j :: PtrToIndex(ans.addr) <= j < RunEnd(PtrToIndex(ans.addr), pages, guard) ==>
           MarkAt(dirs, j) == NotMine
  }

  /** The directory covers the pages [index, end), which are counted as mapped but not yet marked. */
  ghost predicate MappedIn(pd: Directory, index: nat, end: nat)
    reads pd
  {
    && Sound(pd.dirs, index, end) && pd.HintsOk()
    && forall j :: index <= j < end ==> PiIdx(j) in pd.dirs
  }

  lemma TailIndex(addr: nat, pages: nat, guard: bool)
    requires Aligned(addr)
    ensures var tail := addr + pages * PAGESIZE + GuardBytes(guard);
            Aligned(tail) && PtrToIndex(tail) == RunEnd(PtrToIndex(addr), pages, guard)
  {
    var q := addr / PAGESIZE;
    assert addr == q * PAGESIZE;
    assert addr + pages * PAGESIZE + GuardBytes(guard) == (q + pages + if guard then 1 else 0) * PAGESIZE;
  }

  lemma DirsBetween(dirs: Dirs, index: nat, lindex: nat)
    requires forall k :: PiIdx(index) <= k <= PiIdx(lindex) ==> k in dirs
    ensures forall j :: index <= j <= lindex ==> PiIdx(j) in dirs
  {
    forall j | index <= j <= lindex ensures PiIdx(j) in dirs {
      PiIdxMonotone(index, j);
      PiIdxMonotone(j, lindex);
    }
  }

  /** The pages [index, end) are those of [lo, hi), mapped but unmarked, or all marked free. */
  ghost predicate MappedAs(dirs: Dirs, index: nat, end: nat, lo: nat, hi: nat) {
    && (forall j :: index <= j < end ==> PiIdx(j) in dirs)
    && (lo < hi ==> lo == index && hi == end)
    && forall j :: index <= j < end ==> MarkAt(dirs, j) == if lo < hi then NotMine else Free
  }

  lemma RoundedPages(size: nat)
    requires size > 0
    ensures PageRound(size) / PAGESIZE > 0 && PageRound(size) == PageRound(size) / PAGESIZE * PAGESIZE
  {
  }

  /** The first bytes of a free-list entry are pages marked free. */
  lemma CachedPages(dirs: Dirs, fl: seq<FreeRun>, k: nat, total: nat)
    requires FreeMarked(dirs, fl) && Coalesced(fl) && k < |fl| && total <= fl[k].size && Aligned(total)
    ensures MappedAs(dirs, PtrToIndex(fl[k].page), PtrToIndex(fl[k].page + total), 0, 0)
  {
    var lo, hi := fl[k].page, fl[k].page + total;
    assert WholePages(fl[k]);
    forall j | PtrToIndex(lo) <= j < PtrToIndex(hi) ensures PiIdx(j) in dirs && MarkAt(dirs, j) == Free {
      IndexBetween(lo, hi, j);
      assert Covers(fl[k], IndexToPtr(j));
      RoundIndex(j);
      EntryMarked(dirs, fl, k, IndexToPtr(j));
    }
  }

  /** The first total bytes of entry k are taken; what is left gets the directory page of its start. */
  function CutFrom(fl: seq<FreeRun>, k: nat, total: nat): seq<FreeRun>
    requires k < |fl| && total <= fl[k].size
  {
    Carve(fl, k, total, PiIdx(PtrToIndex(fl[k].page + total)))
  }

  lemma TopHolds(dirs: Dirs, lastIndex: nat, brk: nat, j: nat)
    requires TopOk(dirs, lastIndex, brk) && MarkAt(dirs, j) != NotMine
    ensures PAGESHIFT < j <= lastIndex
  {
  }

  lemma NoFit(fl: seq<FreeRun>, total: nat, k: nat)
    requires IsFirstFit(fl, total, k)
    ensures k == |fl| <==> forall i :: 0 <= i < |fl| ==> fl[i].size < total
  {
  }

  lemma SameMarksSame(dirs: Dirs, dirs': Dirs)
    requires SameMarks(dirs, dirs')
    ensures SameChunks(dirs, dirs')
  {
  }

  lemma CutTotals(fl: seq<FreeRun>, k: nat, total: nat)
    requires Coalesced(fl) && k < |fl| && 0 < total <= fl[k].size && Aligned(total)
    ensures Total(CutFrom(fl, k, total)) + total == Total(fl)
  {
    CarveKeeps(fl, k, total, PiIdx(PtrToIndex(fl[k].page + total)));
  }

  lemma CarvePdirs(fl: seq<FreeRun>, k: nat, total: nat)
    requires PdirsOk(fl) && k < |fl| && total <= fl[k].size
    ensures PdirsOk(Carve(fl, k, total, PiIdx(PtrToIndex(fl[k].page + total))))
  {
    var fl' := Carve(fl, k, total, PiIdx(PtrToIndex(fl[k].page + total)));
    var d := if fl[k].size == total then 1 else 0;
    forall i | 0 <= i < |fl'| ensures fl'[i].pdir == PiIdx(PtrToIndex(fl'[i].page)) {
      if i < k { assert fl'[i] == fl[i]; } else if i > k || d == 1 { assert fl'[i] == fl[i + d]; }
    }
  }

  /** A region none of whose pages is marked free holds no cached free memory. */
  lemma UnmarkedApart(dirs: Dirs, fl: seq<FreeRun>, lo: nat, hi: nat)
    requires FreeMarked(dirs, fl) && Coalesced(fl) && Aligned(lo) && Aligned(hi)
    requires forall j :: PtrToIndex(lo) <= j < PtrToIndex(hi) ==> MarkAt(dirs, j) != Free
    ensures Apart(fl, lo, hi) && Lost(fl, fl, lo, hi)
  {
    forall a: nat | lo <= a < hi ensures !InFree(fl, a) {
      if i :| 0 <= i < |fl| && Covers(fl[i], a) {
        assert WholePages(fl[i]);
        EntryMarked(dirs, fl, i, a / PAGESIZE * PAGESIZE);
      }
    }
  }

  lemma PartitionSame(dirs: Dirs, dirs': Dirs, fl: seq<FreeRun>, live: seq<Run>, guard: bool)
    requires Partition(dirs, fl, live, guard) && SameMarks(dirs, dirs')
    ensures Partition(dirs', fl, live, guard)
  {
    forall i | 0 <= i < |live| ensures RunHeld(dirs', live[i], guard) {
      HeldSame(dirs, dirs', live[i], guard);
    }
    forall j: nat ensures MarkAt(dirs', j) == MarkAt(dirs, j) {
    }
  }

  /** The directory page of what an entry keeps exists, at or behind that of its start. */
  lemma TailDir(dirs: Dirs, fl: seq<FreeRun>, k: nat, total: nat)
    requires Sound(dirs, 0, 0) && FreeMarked(dirs, fl) && Coalesced(fl) && PdirsOk(fl)
    requires k < |fl| && total < fl[k].size && Aligned(total)
    ensures Linked(dirs) && Keyed(dirs) && fl[k].pdir in dirs
    ensures fl[k].pdir <= PiIdx(PtrToIndex(fl[k].page + total)) && PiIdx(PtrToIndex(fl[k].page + total)) in dirs
  {
    hide FreeMarked, AllCounted, HeadClear, Keyed;
    assert WholePages(fl[k]);
    EntryMarked(dirs, fl, k, fl[k].page);
    EntryMarked(dirs, fl, k, fl[k].page + total);
    CountedKeyed(dirs, 0, 0);
    PiIdxMonotone(PtrToIndex(fl[k].page), PtrToIndex(fl[k].page + total));
  }

  /** Cutting a run from a free-list entry leaves a sound free list and pages marked free. */
  lemma CachedCut(dirs: Dirs, fl: seq<FreeRun>, k: nat, pages: nat, guard: bool)
    requires FreeMarked(dirs, fl) && Coalesced(fl) && PdirsOk(fl) && k < |fl| && pages > 0
    requires pages * PAGESIZE + GuardBytes(guard) <= fl[k].size
    ensures var p, total := fl[k].page, pages * PAGESIZE + GuardBytes(guard);
            var fl' := Carve(fl, k, total, PiIdx(PtrToIndex(p + total)));
            var index, end := PtrToIndex(p), RunEnd(PtrToIndex(p), pages, guard);
            && Aligned(p) && Aligned(total) && MappedAs(dirs, index, end, 0, 0)
            && Coalesced(fl') && PdirsOk(fl') && Lost(fl, fl', p, p + total)
            && MarkAt(dirs, index) == Free && MarkAt(dirs, end - 1) == Free
  {
    hide FreeMarked, PdirsOk, Lost, Total, Carve;
    var p, total := fl[k].page, pages * PAGESIZE + GuardBytes(guard);
    assert WholePages(fl[k]);
    hide Coalesced;
    TailIndex(0, pages, guard);
    TailIndex(p, pages, guard);
    CachedPages(dirs, fl, k, total);
    CarveKeeps(fl, k, total, PiIdx(PtrToIndex(p + total)));
    CarvePdirs(fl, k, total);
  }

  lemma TotalPrefix(fl: seq<FreeRun>, k: nat)
    requires k < |fl|
    ensures Total(fl[..k + 1]) == Total(fl[..k]) + fl[k].size
  {
    assert fl[..k + 1] == fl[..k] + [fl[k]];
    TotalConcat(fl[..k], [fl[k]]);
  }

  /** malloc_cache - cachesize in size_t. */
  function Room(cache: nat, cachesize: nat): nat { (cache - cachesize) % TWO64 }

  lemma RoomAligned(cache: nat, cachesize: nat)
    requires Aligned(cache) && Aligned(cachesize)
    ensures Aligned(Room(cache, cachesize))
    ensures cachesize <= cache < TWO64 ==> Room(cache, cachesize) == cache - cachesize
  {
    var d: int := cache - cachesize;
    var q := d / TWO64;
    assert d == q * TWO64 + Room(cache, cachesize);
    assert TWO64 == 0x10_0000_0000_0000 * PAGESIZE;
    assert d == (cache / PAGESIZE - cachesize / PAGESIZE) * PAGESIZE;
    assert Room(cache, cachesize)
        == (cache / PAGESIZE - cachesize / PAGESIZE - q * 0x10_0000_0000_0000) * PAGESIZE;
  }

  /** Where the pages that leave entry k lie, and that all of them are marked free. */
  lemma TrimFacts(dirs: Dirs, fl: seq<FreeRun>, k: nat, room: nat)
    requires FreeMarked(dirs, fl) && Coalesced(fl) && PdirsOk(fl)
    requires k < |fl| && Aligned(room) && room < fl[k].size
    ensures var index, end := PtrToIndex(fl[k].page + room), PtrToIndex(fl[k].End());
            && index < end && IndexToPtr(index) == fl[k].page + room && IndexToPtr(end) == fl[k].End()
            && (forall j :: index <= j < end ==> MarkAt(dirs, j) == Free)
            && fl[k].pdir in dirs && fl[k].pdir <= PiIdx(index)
    ensures MarkAt(dirs, PtrToIndex(fl[k].page)) == Free
  {
    var lo, hi := fl[k].page + room, fl[k].End();
    assert WholePages(fl[k]);
    RoundPtr(lo);
    RoundPtr(hi);
    EntryMarked(dirs, fl, k, fl[k].page);
    PiIdxMonotone(PtrToIndex(fl[k].page), PtrToIndex(lo));
    forall j | PtrToIndex(lo) <= j < PtrToIndex(hi) ensures MarkAt(dirs, j) == Free {
      IndexBetween(lo, hi, j);
      RoundIndex(j);
      EntryMarked(dirs, fl, k, IndexToPtr(j));
    }
  }

  lemma TrimPdirs(fl: seq<FreeRun>, k: nat, room: nat)
    requires PdirsOk(fl) && k < |fl| && room <= fl[k].size
    ensures PdirsOk(Trim(fl, k, room))
  {
    var fl' := Trim(fl, k, room);
    var d := if room == 0 then 1 else 0;
    forall i | 0 <= i < |fl'| ensures fl'[i].pdir == PiIdx(PtrToIndex(fl'[i].page)) {
      if i < k { assert fl'[i] == fl[i]; } else if i > k || d == 1 { assert fl'[i] == fl[i + d]; }
    }
  }

  /** The books after the end of entry k has left directory and free list. */
  lemma TrimmedBooks(dirs: Dirs, dirs': Dirs, fl: seq<FreeRun>, live: seq<Run>, guard: bool, k: nat, room: nat)
    requires Partition(dirs, fl, live, guard) && Coalesced(fl) && PdirsOk(fl)
    requires k < |fl| && Aligned(room) && room < fl[k].size
    requires Erased(dirs, dirs', PtrToIndex(fl[k].page + room), PtrToIndex(fl[k].End()))
    ensures Partition(dirs', Trim(fl, k, room), live, guard)
    ensures Coalesced(Trim(fl, k, room)) && PdirsOk(Trim(fl, k, room)) && SameChunks(dirs, dirs')
  {
    TrimFacts(dirs, fl, k, room);
    TrimKeeps(fl, k, room);
    TrimPdirs(fl, k, room);
    ReturnPages(dirs, dirs', fl, Trim(fl, k, room), live, guard,
                PtrToIndex(fl[k].page + room), PtrToIndex(fl[k].End()));
  }

  /** The books after the pages of a new run have been marked. */
  lemma EnteredBooks(dirs: Dirs, dirs': Dirs, fl: seq<FreeRun>, fl': seq<FreeRun>, live: seq<Run>, guard: bool,
                     p: nat, pages: nat, lastIndex: nat, brk: nat)
    requires Partition(dirs, fl, live, guard) && TopOk(dirs, lastIndex, brk) && Aligned(p) && pages > 0
    requires PAGESHIFT < PtrToIndex(p) && RunEnd(PtrToIndex(p), pages, guard) <= lastIndex + 1
    requires forall j :: PtrToIndex(p) <= j < RunEnd(PtrToIndex(p), pages, guard) ==>
               MarkAt(dirs, j) == Free || MarkAt(dirs, j) == NotMine
    requires RunEntered(dirs, dirs', PtrToIndex(p), pages, RunEnd(PtrToIndex(p), pages, guard))
    requires Lost(fl, fl', p, p + pages * PAGESIZE + GuardBytes(guard))
    ensures Partition(dirs', fl', live + [Run(PtrToIndex(p), pages)], guard)
    ensures TopOk(dirs', lastIndex, brk) && SameChunks(dirs, dirs')
  {
    TailIndex(p, pages, guard);
    RoundPtr(p);
    RoundPtr(p + pages * PAGESIZE + GuardBytes(guard));
    EnterRun(dirs, dirs', fl, fl', live, Run(PtrToIndex(p), pages), guard);
  }

  /** What remains mapped after the end of entry k has left the directory. */
  lemma TrimmedMarks(dirs: Dirs, dirs': Dirs, fl: seq<FreeRun>, k: nat, room: nat, lastIndex: nat, brk: nat)
    requires FreeMarked(dirs, fl) && Coalesced(fl) && PdirsOk(fl) && TopOk(dirs, lastIndex, brk)
    requires k < |fl| && Aligned(room) && room < fl[k].size
    requires Erased(dirs, dirs', PtrToIndex(fl[k].page + room), PtrToIndex(fl[k].End()))
    ensures TopOk(dirs', lastIndex, brk) && PAGESHIFT < PtrToIndex(fl[k].page + room)
    ensures room > 0 ==> fl[k].pdir in dirs'
    ensures forall j: nat :: PtrToIndex(fl[k].page + room) <= j < PtrToIndex(fl[k].End()) ==> MarkAt(dirs', j) == NotMine
  {
    hide FreeMarked, Coalesced;
    TrimFacts(dirs, fl, k, room);
    TopHolds(dirs, lastIndex, brk, PtrToIndex(fl[k].page + room));
    if room > 0 {
      BelowTail(fl, k, room);
      assert MarkAt(dirs', PtrToIndex(fl[k].page)) == MarkAt(dirs, PtrToIndex(fl[k].page));
    }
  }

  /** No directory page from that of address a on is left. */
  ghost predicate NothingFrom(dirs: Dirs, a: nat) { forall m :: m in dirs ==> m < PiIdx(PtrToIndex(a)) }

  /** The pages of an entry are below the upper bound. */
  lemma EndBelowTop(dirs: Dirs, fl: seq<FreeRun>, k: nat, lastIndex: nat, brk: nat)
    requires FreeMarked(dirs, fl) && Coalesced(fl) && k < |fl| && TopOk(dirs, lastIndex, brk)
    ensures PtrToIndex(fl[k].End()) <= lastIndex + 1
  {
    assert WholePages(fl[k]);
    EntryMarked(dirs, fl, k, fl[k].End() - PAGESIZE);
    TopHolds(dirs, lastIndex, brk, PtrToIndex(fl[k].End() - PAGESIZE));
  }

  lemma BelowEnd(fl: seq<FreeRun>, k: nat, room: nat)
    requires Coalesced(fl) && k < |fl| && Aligned(room) && room < fl[k].size
    ensures PtrToIndex(fl[k].page + room) < PtrToIndex(fl[k].End())
  {
    assert WholePages(fl[k]);
  }

  lemma BelowTail(fl: seq<FreeRun>, k: nat, room: nat)
    requires Coalesced(fl) && k < |fl| && Aligned(room) && room > 0
    ensures PtrToIndex(fl[k].page) < PtrToIndex(fl[k].page + room)
  {
    assert WholePages(fl[k]);
  }

  lemma PdirsSplice(fl: seq<FreeRun>, k: nat, m: nat, e: FreeRun)
    requires PdirsOk(fl) && k <= m <= |fl| && e.pdir == PiIdx(PtrToIndex(e.page))
    ensures PdirsOk(Splice(fl, k, m, [e]))
  {
    var fl' := Splice(fl, k, m, [e]);
    forall i | 0 <= i < |fl'| ensures fl'[i].pdir == PiIdx(PtrToIndex(fl'[i].page)) {
      assert fl'[i] == if i < k then fl[i] else if i == k then e else fl[i - k - 1 + m];
    }
  }

  lemma SpliceParts(fl: seq<FreeRun>, k: nat, m: nat, e: FreeRun)
    requires k < m <= |fl|
    ensures Splice(fl, k, m, [e]) == fl[..k] + [e] + fl[m..]
    ensures m == k + 1 ==> Splice(fl, k, m, [e]) == fl[k := e]
  {
  }

  lemma PdirAt(fl: seq<FreeRun>, k: nat)
    requires PdirsOk(fl) && k < |fl|
    ensures fl[k].pdir == PiIdx(PtrToIndex(fl[k].page))
  {
  }

  /** A live run is of whole pages, apart from the free list, and its guard page is marked. */
  lemma LeavingApart(dirs: Dirs, fl: seq<FreeRun>, live: seq<Run>, guard: bool, r: nat)
    requires Partition(dirs, fl, live, guard) && Coalesced(fl) && r < |live|
    ensures live[r].start >= PAGESHIFT && live[r].pages > 0
    ensures var ptr := IndexToPtr(live[r].start);
            var l := live[r].pages * PAGESIZE + GuardBytes(guard);
            && Apart(fl, ptr, ptr + l) && Aligned(ptr) && Aligned(l) && l > 0
    ensures guard ==> MarkAt(dirs, live[r].start + live[r].pages) == First
  {
    assert RunHeld(dirs, live[r], guard);
    var ptr := IndexToPtr(live[r].start);
    RoundIndex(live[r].start);
    TailIndex(0, live[r].pages, guard);
    TailIndex(ptr, live[r].pages, guard);
    forall j | live[r].start <= j < RunEnd(live[r].start, live[r].pages, guard) ensures MarkAt(dirs, j) != Free {
      LiveRunsAreSafe(dirs, fl, live, guard, r, j);
    }
    UnmarkedApart(dirs, fl, ptr, ptr + live[r].pages * PAGESIZE + GuardBytes(guard));
    if guard {
      assert MarkAt(dirs, live[r].start + live[r].pages)
          == RunMark(live[r].start, live[r].pages, live[r].start + live[r].pages);
    }
  }

  /** The books after the pages of a run have been marked free and entered into the free list. */
  lemma LeftBooks(dirs: Dirs, dirs': Dirs, fl: seq<FreeRun>, fl': seq<FreeRun>, live: seq<Run>, guard: bool,
                  r: nat, lastIndex: nat, brk: nat)
    requires Partition(dirs, fl, live, guard) && TopOk(dirs, lastIndex, brk)
    requires r < |live| && live[r].start >= PAGESHIFT
    requires Freed(dirs, dirs', live[r].start, RunEnd(live[r].start, live[r].pages, guard))
    requires var ptr := IndexToPtr(live[r].start);
             Gained(fl, fl', ptr, ptr + live[r].pages * PAGESIZE + GuardBytes(guard))
    requires live[r].pages > 1 || MarkAt(dirs, live[r].start) == First
    ensures Partition(dirs', fl', Without(live, r), guard) && TopOk(dirs', lastIndex, brk)
    ensures SameChunks(dirs, dirs')
  {
    var ptr := IndexToPtr(live[r].start);
    RoundIndex(live[r].start);
    TailIndex(ptr, live[r].pages, guard);
    RoundPtr(ptr + live[r].pages * PAGESIZE + GuardBytes(guard));
    LeaveRun(dirs, dirs', fl, fl', live, r, guard);
    assert RunHeld(dirs, live[r], guard);
    forall j: nat | MarkAt(dirs', j) != NotMine ensures PAGESHIFT < j <= lastIndex {
      if MarkAt(dirs, j) == NotMine { LiveRunsAreSafe(dirs, fl, live, guard, r, j); }
    }
  }

  /** mmap fails, or the region it gives needs a new directory page and the request for that fails. */
  ghost predicate Unmappable(dirs: Dirs, ans: Mmap, blockOk: bool, pages: nat, guard: bool) {
    || ans.MapFailed?
    || (!blockOk && NeedsDirs(dirs, PtrToIndex(ans.addr), RunEnd(PtrToIndex(ans.addr), pages, guard) - 1))
  }

  /** No entry is large enough for a run, and no memory can be had for it. */
  ghost predicate NoPages(fl: seq<FreeRun>, dirs: Dirs, ans: Mmap, blockOk: bool, pages: nat, guard: bool) {
    && (forall i :: 0 <= i < |fl| ==> fl[i].size < pages * PAGESIZE + GuardBytes(guard))
    && Unmappable(dirs, ans, blockOk, pages, guard)
  }

  /** malloc_cache - cachesize leaves size_t exactly if cachesize is above malloc_cache, and is 0 exactly if they
      are equal. */
  lemma RoomIs(cache: nat, cachesize: nat)
    requires cache < TWO64 && cachesize < TWO64
    ensures Room(cache, cachesize) == if cachesize <= cache then cache - cachesize else cache - cachesize + TWO64
    ensures Room(cache, cachesize) == 0 <==> cachesize == cache
  {
  }

  /** The sum of two sizes stays in size_t. Sizes of cached memory do: it is all in one address space. */
  predicate Fits(a: nat, b: nat) { a + b < TWO64 }

  /** The bytes of a run and its guard page. */
  function Length(r: Run, guard: bool): nat { r.pages * PAGESIZE + GuardBytes(guard) }

  /** What is free now was free before, or is in [lo, hi). */
  ghost predicate NoMoreThan(fl': seq<FreeRun>, fl: seq<FreeRun>, lo: nat, hi: nat) {
    forall a: nat :: InFree(fl', a) ==> InFree(fl, a) || lo <= a < hi
  }

  lemma NoMoreGained(fl: seq<FreeRun>, fl1: seq<FreeRun>, fl2: seq<FreeRun>, lo: nat, hi: nat)
    requires Gained(fl, fl1, lo, hi) && NoMoreThan(fl2, fl1, 0, 0)
    ensures NoMoreThan(fl2, fl, lo, hi)
  {
  }

  /** Entry k is cut to room bytes if it has more. */
  function Trimmed(fl: seq<FreeRun>, k: nat, room: nat): seq<FreeRun>
    requires k < |fl|
  {
    if fl[k].size <= room then fl else Trim(fl, k, room)
  }

  /** What the cut of an entry to malloc_cache - cachesize means for the cache. */
  lemma TrimResult(fl: seq<FreeRun>, k: nat, cache: nat, cachesize: nat)
    requires Coalesced(fl) && k < |fl| && Total(fl) <= fl[k].size + cachesize && cache < TWO64
    requires Aligned(Room(cache, cachesize))
    ensures var fl' := Trimmed(fl, k, Room(cache, cachesize));
            && NoMoreThan(fl', fl, 0, 0) && (cachesize <= cache ==> Total(fl') <= cache)
            && (cachesize > cache && cachesize <= Total(fl) && Fits(cachesize, fl[k].size) ==>
                  fl' == fl && Total(fl') > cache)
            && (cachesize < TWO64 ==> (|fl'| < |fl| <==> cachesize == cache))
  {
    hide Total, InFree, Coalesced;
    EntrySize(fl, k);
    if cachesize < TWO64 { RoomIs(cache, cachesize); }
    if fl[k].size > Room(cache, cachesize) {
      TrimKeeps(fl, k, Room(cache, cachesize));
    }
  }

  /** The cache after the run [lo, hi) was freed: if munmap works, it is within its bound exactly if the entries that
      the run did not extend are. If they are not, malloc_cache - cachesize wraps, and all of the run stays. */
  ghost predicate CacheAfter(fl: seq<FreeRun>, fl': seq<FreeRun>, lo: nat, hi: nat, cache: nat, munmapOk: bool)
    requires lo <= hi
  {
    && (munmapOk && Kept(fl, lo, hi) <= cache ==> Total(fl') <= cache)
    && (Kept(fl, lo, hi) > cache && Fits(Total(fl) + hi - lo, Total(fl) + hi - lo) ==> Total(fl') > cache)
    && (!munmapOk || (Kept(fl, lo, hi) > cache && Fits(Total(fl) + hi - lo, Total(fl) + hi - lo)) ==>
          Total(fl') == Total(fl) + hi - lo)
  }

  /** Exactly what free_pages makes of the free list: the run is entered, and the entry that it is in then loses what is
      behind the first malloc_cache - cachesize bytes, if it has more and munmap succeeds. */
  ghost predicate Recached(fl: seq<FreeRun>, fl': seq<FreeRun>, ptr: nat, l: nat, cache: nat, munmapOk: bool) {
    exists fl1: seq<FreeRun>, k: nat :: Through(fl, fl1, k, fl', ptr, l, cache, munmapOk)
  }

  ghost predicate Through(fl: seq<FreeRun>, fl1: seq<FreeRun>, k: nat, fl': seq<FreeRun>, ptr: nat, l: nat, cache: nat,
                          munmapOk: bool)
  {
    && RunAdded(fl, fl1, ptr, l, k, Kept(fl, ptr, ptr + l))
    && fl' == if munmapOk then Trimmed(fl1, k, Room(cache, Kept(fl, ptr, ptr + l))) else fl1
  }

  lemma RecachedIs(fl: seq<FreeRun>, fl1: seq<FreeRun>, fl2: seq<FreeRun>, ptr: nat, l: nat, k: nat, cache: nat,
                   munmapOk: bool)
    requires RunAdded(fl, fl1, ptr, l, k, Kept(fl, ptr, ptr + l))
    requires fl2 == if munmapOk then Trimmed(fl1, k, Room(cache, Kept(fl, ptr, ptr + l))) else fl1
    ensures Recached(fl, fl2, ptr, l, cache, munmapOk)
  {
    assert Through(fl, fl1, k, fl2, ptr, l, cache, munmapOk);
  }

  /** The same in terms of addresses: of the stretch [s, e) of free memory that the run belongs to, all but the first
      malloc_cache - cachesize bytes go back to the system if munmap succeeds; all other free memory stays. */
  lemma RecachedBytes(fl: seq<FreeRun>, fl': seq<FreeRun>, ptr: nat, l: nat, cache: nat, munmapOk: bool)
      returns (s: nat, e: nat)
    requires Recached(fl, fl', ptr, l, cache, munmapOk) && Aligned(Room(cache, Kept(fl, ptr, ptr + l)))
    ensures s <= ptr && ptr + l <= e && forall a: nat :: s <= a < e ==> InFree(fl, a) || ptr <= a < ptr + l
    ensures !InFree(fl, e) && (s > 0 ==> !InFree(fl, s - 1))
    ensures var room := Room(cache, Kept(fl, ptr, ptr + l));
            forall a: nat :: InFree(fl', a) <==>
              (InFree(fl, a) || ptr <= a < ptr + l) && !(munmapOk && s + room <= a < e)
  {
    hide Kept, Room, Total, Trim, InFree;
    var room := Room(cache, Kept(fl, ptr, ptr + l));
    var fl1: seq<FreeRun>, k: nat :| Through(fl, fl1, k, fl', ptr, l, cache, munmapOk);
    s, e := fl1[k].page, fl1[k].End();
    EntryEnds(fl1, k);
    forall a: nat | s <= a < e ensures InFree(fl1, a) { EntryFree(fl1, k, a); }
    if munmapOk && fl1[k].size > room { TrimKeeps(fl1, k, room); }
  }

  lemma EntryFree(fl: seq<FreeRun>, k: nat, a: nat)
    requires k < |fl| && fl[k].page <= a < fl[k].End()
    ensures InFree(fl, a)
  {
    assert Covers(fl[k], a);
  }

  /** Behind and before an entry there is no free memory. */
  lemma EntryEnds(fl: seq<FreeRun>, k: nat)
    requires Coalesced(fl) && k < |fl|
    ensures !InFree(fl, fl[k].End()) && (fl[k].page > 0 ==> !InFree(fl, fl[k].page - 1))
  {
    forall i | 0 <= i < |fl| ensures !Covers(fl[i], fl[k].End()) && (fl[k].page > 0 ==> !Covers(fl[i], fl[k].page - 1)) {
      assert WholePages(fl[i]);
    }
  }

  lemma CacheFacts(fl: seq<FreeRun>, fl1: seq<FreeRun>, fl2: seq<FreeRun>, ptr: nat, l: nat, k: nat, cache: nat,
                   munmapOk: bool)
    requires RunAdded(fl, fl1, ptr, l, k, Kept(fl, ptr, ptr + l)) && (!munmapOk ==> fl2 == fl1)
    requires munmapOk && Kept(fl, ptr, ptr + l) <= cache ==> Total(fl2) <= cache
    requires Kept(fl, ptr, ptr + l) > cache && Fits(Kept(fl, ptr, ptr + l), fl1[k].size) ==>
               fl2 == fl1 && Total(fl1) > cache
    ensures CacheAfter(fl, fl2, ptr, ptr + l, cache, munmapOk)
  {
    hide Total, Grown, Coalesced, Gained;
    EntrySize(fl1, k);
  }

  /** With a cache of one page, a second free page that touches no other is not kept, not even one page of it. */
  lemma EntryGone()
    ensures var one, two := FreeRun(4096, 4096, 0), FreeRun(12288, 4096, 0);
            && Coalesced([one]) && Total([one]) <= 4096 && RunAdded([one], [one, two], 12288, 4096, 1, 4096)
            && Trimmed([one, two], 1, Room(4096, 4096)) == [one]
  {
    var one, two := FreeRun(4096, 4096, 0), FreeRun(12288, 4096, 0);
    EnterBefore([one], 1, two);
    assert Splice([one], 1, 1, [two]) == [one, two];
    assert Trim([one, two], 1, 0) == [one];
  }

  /** Once munmap has failed to take a page from a full cache, the room for the next one wraps, and everything
      is kept. */
  lemma RoomWraps()
    ensures var one, two, three := FreeRun(4096, 4096, 0), FreeRun(12288, 4096, 0), FreeRun(20480, 4096, 0);
            && RunAdded([one, two], [one, two, three], 20480, 4096, 2, 8192) && Room(4096, 8192) == TWO64 - 4096
            && Trimmed([one, two, three], 2, Room(4096, 8192)) == [one, two, three]
  {
    var one, two, three := FreeRun(4096, 4096, 0), FreeRun(12288, 4096, 0), FreeRun(20480, 4096, 0);
    EnterBefore([one, two], 2, three);
    assert Splice([one, two], 2, 2, [three]) == [one, two, three];
    assert Total([one, two]) == 4096 + Total([two]);
  }

  lemma EntrySize(fl: seq<FreeRun>, k: nat)
    requires Coalesced(fl) && k < |fl|
    ensures Aligned(fl[k].page) && Aligned(fl[k].size) && 0 < fl[k].size <= Total(fl)
  {
    assert WholePages(fl[k]);
    TotalSplit(fl, k);
  }

  /** The directory page that an entry names exists. */
  lemma EntryOk(dirs: Dirs, fl: seq<FreeRun>, k: nat)
    requires FreeMarked(dirs, fl) && Coalesced(fl) && PdirsOk(fl) && k < |fl|
    ensures fl[k].pdir in dirs && Aligned(fl[k].page)
  {
    assert WholePages(fl[k]);
    EntryMarked(dirs, fl, k, fl[k].page);
  }

  lemma EnterFirst(e: FreeRun)
    requires WholePages(e)
    ensures RunAdded([], [e], e.page, e.size, 0, 0)
    ensures e.pdir == PiIdx(PtrToIndex(e.page)) ==> PdirsOk([e])
  {
    EnterBefore([], 0, e);
    assert Splice([], 0, 0, [e]) == [e];
  }

  class PageHeap {
    /** Is there a guard page behind every allocation? */
    const guard: bool
    /** How many bytes of free memory to keep. */
    const cache: nat
    const pd: Directory
    var freeList: seq<FreeRun>
    var lastIndex: nat
    var brk: nat
    var used: nat
    var guarded: nat
    ghost var live: seq<Run>
    /** Has malloc_cache - cachesize ever left size_t? */
    ghost var wrapped: bool

    /** The cache is within its bound, and the room in it was always computed without wrapping. */
    ghost predicate Tidy()
      reads this
    {
      Total(freeList) <= cache && !wrapped
    }

    ghost predicate Refuses(pages: nat, ans: Mmap, blockOk: bool)
      reads this, pd
    {
      NoPages(freeList, pd.dirs, ans, blockOk, pages, guard)
    }

    /** The invariant without the directory's cached references and the upper bound. */
    ghost predicate Core()
      reads this, pd
    {
      && Sound(pd.dirs, 0, 0) && Coalesced(freeList) && PdirsOk(freeList)
      && Partition(pd.dirs, freeList, live, guard) && Accounted()
    }

    ghost predicate Valid()
      reads this, pd
    {
      Core() && pd.HintsOk() && TopOk(pd.dirs, lastIndex, brk)
    }

    /** malloc_init; the cache size is the option's page count, at least one. */
    constructor (guard: bool, cachePages: nat)
      requires cachePages < TWO64 / PAGESIZE
      ensures Valid() && live == [] && freeList == [] && Tidy()
      ensures this.guard == guard && fresh(pd)
      ensures cache == if cachePages == 0 then PAGESIZE else cachePages * PAGESIZE
      ensures forall j: nat :: MarkAt(pd.dirs, j) == NotMine
    {
      this.guard := guard;
      cache := (if cachePages == 0 then 1 else cachePages) * PAGESIZE;
      pd := new Directory();
      freeList, lastIndex, brk, used, guarded, live, wrapped := [], 0, 0, 0, 0, [], false;
    }

    /** The search of malloc_pages through the free list. */
    method FindFit(total: nat) returns (i: nat)
      ensures IsFirstFit(freeList, total, i)
    {
      i := 0;
      while i < |freeList| && freeList[i].size < total
        invariant 0 <= i <= |freeList|
        invariant forall m :: 0 <= m < i ==> freeList[m].size < total
      {
        i := i + 1;
      }
    }

    /** Cutting the first total bytes from entry k: the entry is unlinked, or keeps its tail and
        gets the directory page of its new start. That page is found: there is no hole. */
    method TakeCached(k: nat, total: nat) returns (p: nat)
      requires pd.Valid() && FreeMarked(pd.dirs, freeList) && Coalesced(freeList) && PdirsOk(freeList)
      requires k < |freeList| && 0 < total <= freeList[k].size && Aligned(total)
      modifies this`freeList
      ensures p == old(freeList)[k].page
      ensures freeList == Carve(old(freeList), k, total, PiIdx(PtrToIndex(p + total)))
    {
      hide FreeMarked, Coalesced, PdirsOk, Total, Sound, MarkAt;
      var pf := freeList[k];
      p := pf.page;
      if pf.size == total {
        freeList := freeList[..k] + freeList[k + 1..];
      } else {
        TailDir(pd.dirs, freeList, k, total);
        var pi := pd.FindFrom(pf.pdir, PiIdx(PtrToIndex(pf.page + total)));
        freeList := freeList[k := FreeRun(pf.page + total, pf.size - total, pi)];
      }
      assert freeList == Carve(old(freeList), k, total, PiIdx(PtrToIndex(p + total)));
    }

    /** map_pages. The upper bound is raised before the directory is entered, so it stays raised when
        the request for directory pages fails. */
    method MapPages(pages: nat, ans: Mmap, blockOk: bool) returns (p: nat)
      requires pd.Valid() && TopOk(pd.dirs, lastIndex, brk) && pages > 0
      requires FreshRegion(pd.dirs, ans, pages, guard)
      modifies this`lastIndex, this`brk, pd
      ensures SameMarks(old(pd.dirs), pd.dirs) && TopOk(pd.dirs, lastIndex, brk)
      ensures brk == if ans.MapFailed? then old(brk) else Max(old(brk), ans.addr + pages * PAGESIZE + GuardBytes(guard))
      ensures p == 0 ==> pd.Valid()
      ensures p == 0 <==> Unmappable(old(pd.dirs), ans, blockOk, pages, guard)
      ensures p != 0 ==> ans == Mapped(p)
      ensures p != 0 ==> MappedIn(pd, PtrToIndex(p), RunEnd(PtrToIndex(p), pages, guard))
      ensures p != 0 ==> RunEnd(PtrToIndex(p), pages, guard) <= lastIndex + 1
    {
      hide Sound, MarkAt;
      if ans.MapFailed? {
        return 0;
      }
      var result := ans.addr;
      var index := PtrToIndex(result);
      var tail := result + pages * PAGESIZE + GuardBytes(guard);
      TailIndex(result, pages, guard);
      var lindex := PtrToIndex(tail) - 1;
      if tail > brk {
        brk := tail;
        lastIndex := lindex;
      }
      var ok := pd.MapRange(index, lindex, blockOk);
      if !ok {
        return 0;
      }
      p := result;
      DirsBetween(pd.dirs, index, lindex);
    }

    /** malloc_used and malloc_guarded are the bytes of the live runs and of their guards. */
    ghost predicate Accounted()
      reads this
    {
      && used == TotalPages(live) * PAGESIZE && guarded == GuardTotal(|live|, guard)
      && 0 < cache < TWO64 && Aligned(cache)
    }

    /** Pages from p on are ready to become a live run: they are cut from fl, the free list that
        agrees with the directory, or mapped but not yet marked. */
    ghost predicate Ready(p: nat, pages: nat, fl: seq<FreeRun>, lo: nat, hi: nat)
      reads this, pd
    {
      && pages > 0 && p > 0 && Aligned(p) && Accounted()
      && Sound(pd.dirs, lo, hi) && pd.HintsOk()
      && MappedAs(pd.dirs, PtrToIndex(p), RunEnd(PtrToIndex(p), pages, guard), lo, hi)
      && Partition(pd.dirs, fl, live, guard) && Coalesced(freeList) && PdirsOk(freeList)
      && Lost(fl, freeList, p, p + pages * PAGESIZE + GuardBytes(guard))
      && TopOk(pd.dirs, lastIndex, brk)
      && PAGESHIFT < PtrToIndex(p) && RunEnd(PtrToIndex(p), pages, guard) <= lastIndex + 1
    }

    /** The end of malloc_pages: the pages of a new run are marked and accounted for. */
    method EnterPages(p: nat, pages: nat, ghost fl: seq<FreeRun>, ghost lo: nat, ghost hi: nat)
      requires Ready(p, pages, fl, lo, hi)
      modifies this`used, this`guarded, this`live, pd
      ensures Valid() && live == old(live) + [Run(PtrToIndex(p), pages)]
      ensures SameChunks(old(pd.dirs), pd.dirs) && MarkAt(pd.dirs, PtrToIndex(p)) == First && Aligned(p)
    {
      hide Linked, AllCounted, HeadClear, Coalesced, PdirsOk, TopOk, Lost, RunsHeld, RunsApart, Owned, FreeMarked;
      ghost var r := Run(PtrToIndex(p), pages);
      ghost var start := pd.dirs;
      pd.MarkRun(PtrToIndex(p), pages, guard, lo, hi);
      EnteredBooks(start, pd.dirs, fl, freeList, live, guard, p, pages, lastIndex, brk);
      used := used + pages * PAGESIZE;
      guarded := guarded + GuardBytes(guard);
      TotalPagesAdd(live, r);
      live := live + [r];
    }

    method FromCache(k: nat, pages: nat) returns (p: nat)
      requires Valid() && k < |freeList| && pages > 0
      requires pages * PAGESIZE + GuardBytes(guard) <= freeList[k].size
      modifies this`freeList
      ensures p == old(freeList)[k].page && p > 0 && Ready(p, pages, old(freeList), 0, 0)
      ensures freeList == CutFrom(old(freeList), k, pages * PAGESIZE + GuardBytes(guard))
      ensures Total(freeList) <= Total(old(freeList))
    {
      hide Lost, Sound, Coalesced, PdirsOk, FreeMarked, Owned, RunsHeld, RunsApart, TopOk, MappedAs, MarkAt, Carve;
      ghost var fl := freeList;
      var total := pages * PAGESIZE + GuardBytes(guard);
      CachedCut(pd.dirs, fl, k, pages, guard);
      TopHolds(pd.dirs, lastIndex, brk, PtrToIndex(fl[k].page));
      TopHolds(pd.dirs, lastIndex, brk, RunEnd(PtrToIndex(fl[k].page), pages, guard) - 1);
      CutTotals(fl, k, total);
      p := TakeCached(k, total);
    }

    method FromSystem(pages: nat, ans: Mmap, blockOk: bool) returns (p: nat)
      requires Valid() && pages > 0 && FreshRegion(pd.dirs, ans, pages, guard)
      modifies this`lastIndex, this`brk, pd
      ensures p == 0 ==> Valid()
      ensures p == 0 <==> Unmappable(old(pd.dirs), ans, blockOk, pages, guard)
      ensures SameMarks(old(pd.dirs), pd.dirs)
      ensures p != 0 ==> ans == Mapped(p)
      ensures p != 0 ==>
        Ready(p, pages, freeList, PtrToIndex(p), RunEnd(PtrToIndex(p), pages, guard))
    {
      ghost var start := pd.dirs;
      p := MapPages(pages, ans, blockOk);
      PartitionSame(start, pd.dirs, freeList, live, guard);
      if p != 0 {
        TailIndex(p, pages, guard);
        UnmarkedApart(start, freeList, p, p + pages * PAGESIZE + GuardBytes(guard));
      }
    }

    /** The first half of malloc_pages: pages that are cut from an entry, or mapped, but not marked yet. */
    method ObtainPages(pages: nat, ans: Mmap, blockOk: bool) returns (p: nat, ghost k: nat, ghost lo: nat, ghost hi: nat)
      requires Valid() && pages > 0 && FreshRegion(pd.dirs, ans, pages, guard)
      modifies this`freeList, this`lastIndex, this`brk, pd
      ensures IsFirstFit(old(freeList), pages * PAGESIZE + GuardBytes(guard), k)
      ensures p == 0 ==> Valid()
      ensures p == 0 <==> k == |old(freeList)| && Unmappable(old(pd.dirs), ans, blockOk, pages, guard)
      ensures p != 0 ==> Ready(p, pages, old(freeList), lo, hi)
      ensures k < |old(freeList)| ==> p == old(freeList)[k].page
      ensures k == |old(freeList)| && p != 0 ==> ans == Mapped(p)
      ensures freeList == if k == |old(freeList)| then old(freeList)
                          else CutFrom(old(freeList), k, pages * PAGESIZE + GuardBytes(guard))
      ensures Total(freeList) <= Total(old(freeList)) && SameMarks(old(pd.dirs), pd.dirs)
    {
      hide Core, TopOk, Ready, CutFrom, Unmappable, Total, FreshRegion, MarkAt;
      var i := FindFit(pages * PAGESIZE + GuardBytes(guard));
      p, k, lo, hi := 0, i, 0, 0;
      if i < |freeList| {
        p := FromCache(i, pages);
      }
      if p == 0 {
        p := FromSystem(pages, ans, blockOk);
        lo, hi := PtrToIndex(p), RunEnd(PtrToIndex(p), pages, guard);
      }
    }

    /** malloc_pages: the run is cut from the first free-list entry that is large enough, or mapped. */
    method MallocPages(size: nat, ans: Mmap, blockOk: bool) returns (p: nat, ghost k: nat)
      requires Valid() && 0 < size && PageRound(size) + GuardBytes(guard) < TWO64
      requires FreshRegion(pd.dirs, ans, PageRound(size) / PAGESIZE, guard)
      modifies this, pd
      ensures Valid() && wrapped == old(wrapped)
      ensures k <= |old(freeList)|
      ensures forall i :: 0 <= i < k ==> old(freeList)[i].size < PageRound(size) + GuardBytes(guard)
      ensures k < |old(freeList)| ==>
        p == old(freeList)[k].page && p != 0 && old(freeList)[k].size >= PageRound(size) + GuardBytes(guard)
      ensures k == |old(freeList)| && ans.MapFailed? ==> p == 0
      ensures p == 0 ==> k == |old(freeList)| && (ans.MapFailed? || !blockOk)
      ensures k == |old(freeList)| && p != 0 ==> ans == Mapped(p)
      ensures freeList == if k == |old(freeList)| then old(freeList)
                          else CutFrom(old(freeList), k, PageRound(size) + GuardBytes(guard))
      ensures Total(freeList) <= Total(old(freeList))
      ensures p == 0 <==> old(Refuses(PageRound(size) / PAGESIZE, ans, blockOk))
      ensures p == 0 ==> live == old(live)
      ensures SameChunks(old(pd.dirs), pd.dirs)
      ensures p != 0 ==> MarkAt(pd.dirs, PtrToIndex(p)) == First
      ensures p != 0 ==> Aligned(p)
      ensures p != 0 ==> live == old(live) + [Run(PtrToIndex(p), PageRound(size) / PAGESIZE)]
    {
      hide Core, TopOk, Ready, CutFrom, NeedsDirs, SameMarks, Total, FreshRegion, PageRound, MarkAt;
      var pages := PageRound(size) / PAGESIZE;
      RoundedPages(size);
      ghost var dirs, fl, lo, hi := pd.dirs, freeList, 0, 0;
      p, k, lo, hi := ObtainPages(pages, ans, blockOk);
      NoFit(fl, pages * PAGESIZE + GuardBytes(guard), k);
      SameMarksSame(dirs, pd.dirs);
      if p != 0 {
        EnterPages(p, pages, fl, lo, hi);
      }
    }

    /** Racing ahead to the entry the freed run belongs before, into or behind, and adding up the
        sizes of all entries. */
    method RaceAhead(ptr: nat) returns (k: nat, cachesize: nat)
      requires freeList != [] && Coalesced(freeList)
      ensures Reached(freeList, ptr, k) && cachesize == Total(freeList) && Aligned(cachesize)
    {
      k, cachesize := 0, 0;
      TotalSplit(freeList, 0);
      while ptr > freeList[k].End() && k + 1 < |freeList|
        invariant k < |freeList| && cachesize == Total(freeList[..k])
        invariant forall i :: 0 <= i < k ==> freeList[i].End() < ptr
      {
        TotalPrefix(freeList, k);
        cachesize := cachesize + freeList[k].size;
        k := k + 1;
      }
      var t := k;
      while t < |freeList|
        invariant k <= t <= |freeList| && cachesize == Total(freeList[..t])
      {
        TotalPrefix(freeList, t);
        cachesize := cachesize + freeList[t].size;
        t := t + 1;
      }
      assert freeList[..t] == freeList;
      TotalAligned(freeList);
    }

    /** The part of free_pages that enters a run into the free list: before an entry, at the end of
        one (which may then reach the next and absorb it), at the start of one, or as the last. No
        other case can arise. cachesize bounds the bytes of the other entries; an absorbed entry
        stays counted in it. */
    method AddFree(ptr: nat, l: nat, spi: int) returns (k: nat, cachesize: nat)
      requires Coalesced(freeList) && PdirsOk(freeList) && Apart(freeList, ptr, ptr + l)
      requires Aligned(ptr) && Aligned(l) && l > 0 && spi == PiIdx(PtrToIndex(ptr))
      modifies this`freeList
      ensures RunAdded(old(freeList), freeList, ptr, l, k, cachesize) && PdirsOk(freeList)
      ensures Aligned(cachesize)
    {
      hide Coalesced, Total, Grown, Apart, PdirsOk, RunAdded, Splice;
      var px := FreeRun(ptr, l, spi);
      ghost var fl := freeList;
      if freeList == [] {
        EnterFirst(px);
        freeList := [px];
        return 0, 0;
      }
      var pf, total := RaceAhead(ptr);
      k, cachesize := AddAt(pf, total, px);
      EntrySize(fl, pf);
    }

    method AddAt(pf: nat, total: nat, px: FreeRun) returns (k: nat, cachesize: nat)
      requires Coalesced(freeList) && PdirsOk(freeList) && Apart(freeList, px.page, px.End())
      requires WholePages(px) && px.pdir == PiIdx(PtrToIndex(px.page))
      requires Reached(freeList, px.page, pf) && total == Total(freeList)
      modifies this`freeList
      ensures RunAdded(old(freeList), freeList, px.page, px.size, k, cachesize) && PdirsOk(freeList)
      ensures cachesize == total || cachesize + old(freeList)[pf].size == total
    {
      ghost var fl := freeList;
      var e := freeList[pf];
      k, cachesize := pf, total;
      ApartFrom(fl, pf, px.page, px.End());
      TotalSplit(fl, pf);
      if e.page > px.End() {
        InsertAt(pf, px);
      } else if e.End() == px.page {
        cachesize := cachesize - e.size;
        AppendTo(pf, px.size);
      } else if e.page == px.End() {
        cachesize := cachesize - e.size;
        PrependTo(pf, px);
      } else if pf + 1 == |freeList| {
        k := pf + 1;
        InsertAt(k, px);
      } else {
        // "freelist is destroyed"
        assert false;
      }
    }

    /** Linking in a new entry before position k, or at the end. */
    method InsertAt(k: nat, px: FreeRun)
      requires Coalesced(freeList) && PdirsOk(freeList) && k <= |freeList|
      requires WholePages(px) && px.pdir == PiIdx(PtrToIndex(px.page))
      requires k > 0 ==> freeList[k - 1].End() < px.page
      requires k < |freeList| ==> px.End() < freeList[k].page
      modifies this`freeList
      ensures RunAdded(old(freeList), freeList, px.page, px.size, k, Total(old(freeList)))
      ensures PdirsOk(freeList)
    {
      hide RunAdded;
      EnterBefore(freeList, k, px);
      PdirsSplice(freeList, k, k, px);
      freeList := freeList[..k] + [px] + freeList[k..];
    }

    /** Growing entry k downwards by a run that ends where it starts. */
    method PrependTo(k: nat, px: FreeRun)
      requires Coalesced(freeList) && PdirsOk(freeList) && k < |freeList|
      requires WholePages(px) && px.pdir == PiIdx(PtrToIndex(px.page)) && px.End() == freeList[k].page
      requires k > 0 ==> freeList[k - 1].End() < px.page
      modifies this`freeList
      ensures old(freeList)[k].size <= Total(old(freeList))
      ensures RunAdded(old(freeList), freeList, px.page, px.size, k,
                       Total(old(freeList)) - old(freeList)[k].size)
      ensures PdirsOk(freeList)
    {
      hide RunAdded;
      var joined := FreeRun(px.page, freeList[k].size + px.size, px.pdir);
      assert WholePages(freeList[k]);
      EnterGrow(freeList, k, joined, px.page, px.size);
      PdirsSplice(freeList, k, k + 1, joined);
      freeList := freeList[k := joined];
      assert freeList == Splice(old(freeList), k, k + 1, [joined]);
    }

    /** Growing entry k upwards by l bytes, and collapsing the next entry into it if it is reached. */
    method AppendTo(k: nat, l: nat)
      requires Coalesced(freeList) && PdirsOk(freeList) && k < |freeList| && l > 0 && Aligned(l)
      requires Apart(freeList, freeList[k].End(), freeList[k].End() + l)
      modifies this`freeList
      ensures old(freeList)[k].size <= Total(old(freeList))
      ensures RunAdded(old(freeList), freeList, old(freeList)[k].End(), l, k,
                      Total(old(freeList)) - old(freeList)[k].size)
      ensures PdirsOk(freeList)
    {
      hide InFree, RunAdded, PdirsOk, Total, Grown, Splice;
      ghost var fl := freeList;
      EntrySize(fl, k);
      PdirAt(fl, k);
      var e := freeList[k].(size := freeList[k].size + l);
      if k + 1 < |freeList| {
        ApartFrom(fl, k + 1, fl[k].End(), fl[k].End() + l);
      }
      if k + 1 < |freeList| && freeList[k + 1].page == e.End() {
        e := e.(size := e.size + freeList[k + 1].size);
        EnterBridge(fl, k, e, fl[k].End(), l);
        PdirsSplice(fl, k, k + 2, e);
        SpliceParts(fl, k, k + 2, e);
        freeList := freeList[..k] + [e] + freeList[k + 2..];
      } else {
        EnterGrow(fl, k, e, fl[k].End(), l);
        PdirsSplice(fl, k, k + 1, e);
        SpliceParts(fl, k, k + 1, e);
        freeList := freeList[k := e];
      }
    }

    /** The part of free_pages that returns to the system what the cache has no room for. room is
        malloc_cache - cachesize in size_t. (A comment there says that the entry always keeps a page;
        it keeps none, and is unlinked, exactly if the other entries fill the cache.) The cache is within its bound
        afterwards if and only if the subtraction did not wrap. */
    method ReturnToOs(k: nat, cachesize: nat, munmapOk: bool)
      requires Valid() && k < |freeList| && Total(freeList) <= freeList[k].size + cachesize
      requires Aligned(cachesize)
      modifies this`freeList, this`lastIndex, this`brk, this`wrapped, pd
      ensures Valid() && SameChunks(old(pd.dirs), pd.dirs)
      ensures wrapped <==> old(wrapped) || cachesize > cache
      ensures freeList == if munmapOk then Trimmed(old(freeList), k, Room(cache, cachesize)) else old(freeList)
      ensures NoMoreThan(freeList, old(freeList), 0, 0)
      ensures munmapOk && cachesize <= cache ==> Total(freeList) <= cache
      ensures cachesize <= Total(old(freeList)) && cachesize > cache && Fits(cachesize, old(freeList[k].size)) ==>
                freeList == old(freeList) && Total(freeList) > cache
      ensures munmapOk && cachesize < TWO64 ==> (|freeList| < |old(freeList)| <==> cachesize == cache)
    {
      hide FreeMarked, Owned, RunsHeld, RunsApart, Sound, Coalesced, PdirsOk, TopOk, Total, InFree, Trim, Room;
      var pf := freeList[k];
      EntryOk(pd.dirs, freeList, k);
      if pf.pdir != pd.lastDir {
        pd.SetHints(pf.pdir, pd.lastDir);
      }
      var room := Room(cache, cachesize);
      wrapped := wrapped || cachesize > cache;
      RoomAligned(cache, cachesize);
      TrimResult(freeList, k, cache, cachesize);
      if pf.size <= room || !munmapOk {
        return;
      }
      GiveBack(k, room);
    }

    /** The munmapped end of entry k leaves the directory and the free list. */
    method UnmapEnd(k: nat, room: nat) returns (pi: int, spi: int)
      requires Valid() && k < |freeList| && Aligned(room) && room < freeList[k].size
      requires pd.lastDir == freeList[k].pdir
      modifies this`freeList, pd`dirs, pd`prevDir
      ensures Core() && TopOk(pd.dirs, lastIndex, brk) && SameChunks(old(pd.dirs), pd.dirs)
      ensures freeList == Trim(old(freeList), k, room)
      ensures pd.prevDir == NIL || pd.prevDir in pd.dirs
      ensures room > 0 ==> pd.HintsOk()
      ensures var index := PtrToIndex(old(freeList)[k].page + room);
              && index > PAGESHIFT && IsFloor(pd.dirs, PiIdx(index), spi)
              && (pi == NIL ==> forall j: nat :: MarkAt(pd.dirs, j) != NotMine ==> j < index)
      ensures pi == NIL <==> NothingFrom(pd.dirs, old(freeList)[k].End())
    {
      hide Linked, AllCounted, HeadClear, Coalesced, PdirsOk, FreeMarked, Owned, RunsHeld, RunsApart, Erased, Trim;
      hide SameChunks, TopOk, MarkAt;
      var pf := freeList[k];
      var index, lidx := PtrToIndex(pf.page + room), PtrToIndex(pf.page + pf.size) - 1;
      ghost var dirs, fl := pd.dirs, freeList;
      TrimFacts(dirs, fl, k, room);
      CountedKeyed(dirs, 0, 0);
      pd.ForgetFrom(PiIdx(index));
      pi, spi := pd.Unmap(index, lidx, pf.pdir);
      freeList := Trim(freeList, k, room);
      TrimmedBooks(dirs, pd.dirs, fl, live, guard, k, room);
      TrimmedMarks(dirs, pd.dirs, fl, k, room, lastIndex, brk);
    }

    /** The munmapped end of entry k leaves the allocator's books. */
    method GiveBack(k: nat, room: nat)
      requires Valid() && k < |freeList| && Aligned(room) && room < freeList[k].size
      requires pd.lastDir == freeList[k].pdir && Aligned(freeList[k].page)
      modifies this`freeList, this`lastIndex, this`brk, pd
      ensures Valid() && freeList == Trim(old(freeList), k, room)
      ensures SameChunks(old(pd.dirs), pd.dirs)
      ensures var e := old(freeList)[k];
              var top, index := old(brk) == e.End() && NothingFrom(pd.dirs, e.End()), PtrToIndex(e.page + room);
              && (!top ==> lastIndex == old(lastIndex) && brk == old(brk))
              && (top && (room > 0 || k == 0) ==> lastIndex == index - 1 && brk == e.page + room)
              && (top && room == 0 && k > 0 ==>
                    MarkAt(pd.dirs, lastIndex) != NotMine && PAGESHIFT < lastIndex && brk == IndexToPtr(lastIndex + 1))
    {
      hide Sound, FreeMarked, Owned, RunsHeld, RunsApart, PdirsOk, TotalPages, Total, NothingFrom;
      EndBelowTop(pd.dirs, freeList, k, lastIndex, brk);
      BelowEnd(freeList, k, room);
      var page, tail := freeList[k].page, freeList[k].page + freeList[k].size;
      var index := PtrToIndex(page + room);
      RoundPtr(page + room);
      var pi, spi := UnmapEnd(k, room);
      if pi == NIL && brk == tail {
        lastIndex := index - 1;
        brk := IndexToPtr(index);
      }
      if room == 0 {
        if k > 0 && pi == NIL && lastIndex == index - 1 {
          LowerTop(k, index, spi);
        }
        pd.SetHints(pd.prevDir, NIL);
      }
    }

    /** Entry k is gone with the highest pages: the upper bound falls to the last mapped page. */
    method LowerTop(k: nat, index: nat, spi: int)
      requires Core() && index > PAGESHIFT
      requires 0 < k <= |freeList| && freeList[k - 1].page < IndexToPtr(index)
      requires IsFloor(pd.dirs, PiIdx(index), spi)
      requires forall j: nat :: MarkAt(pd.dirs, j) != NotMine ==> PAGESHIFT < j < index
      modifies this`lastIndex, this`brk
      ensures TopOk(pd.dirs, lastIndex, brk)
      ensures MarkAt(pd.dirs, lastIndex) != NotMine && PAGESHIFT < lastIndex && brk == IndexToPtr(lastIndex + 1)
    {
      hide PdirsOk, Owned, RunsHeld, RunsApart, Total, TotalPages;
      ghost var e := freeList[k - 1];
      assert WholePages(e);
      EntryMarked(pd.dirs, freeList, k - 1, e.page);
      var i := pd.LastMapped(index, spi, PtrToIndex(e.page));
      lastIndex := i;
      brk := IndexToPtr(i + 1);
      RoundIndex(i + 1);
    }

    /** free_pages, where info is the mark that the lookup of index leads to. A page that is not the first of a
        run, or an address inside a page, is refused with a warning. r is the run that starts at index; a
        mark FIRST that is not that of a run's first page is not told apart. The entries that the run does not
        extend decide whether the cache is within its bound afterwards. */
    method FreePages(ptr: nat, index: nat, info: Mark, munmapOk: bool, ghost r: nat) returns (freed: bool)
      requires Valid() && index == PtrToIndex(ptr)
      requires info == First && Aligned(ptr) ==>
                 r < |live| && live[r].start == index && MarkAt(pd.dirs, index) == First
      modifies this, pd
      ensures Valid() && freed == (info == First && Aligned(ptr))
      ensures SameChunks(old(pd.dirs), pd.dirs)
      ensures !freed ==> live == old(live) && freeList == old(freeList) && pd.dirs == old(pd.dirs)
      ensures !freed ==> wrapped == old(wrapped)
      ensures freed ==> live == Without(old(live), r)
      ensures freed ==> NoMoreThan(freeList, old(freeList), ptr, ptr + Length(old(live)[r], guard))
      ensures freed ==>
        (wrapped <==> old(wrapped) || Kept(old(freeList), ptr, ptr + Length(old(live)[r], guard)) > cache)
      ensures freed ==>
        CacheAfter(old(freeList), freeList, ptr, ptr + Length(old(live)[r], guard), cache, munmapOk)
      ensures freed ==> Recached(old(freeList), freeList, ptr, Length(old(live)[r], guard), cache, munmapOk)
      ensures munmapOk && old(Tidy()) ==> Tidy()
    {
      hide Core, TopOk, Total, Grown, Coalesced, Gained, NoMoreThan, Trim, Room, CacheAfter, Recached, Length;
      if info != First || !Aligned(ptr) {
        return false;
      }
      freed := true;
      ghost var fl, l := freeList, Length(live[r], guard);
      var k, cachesize := Release(ptr, index, r);
      ghost var fl' := freeList;
      ReturnToOs(k, cachesize, munmapOk);
      CacheFacts(fl, fl', freeList, ptr, l, k, cache, munmapOk);
      RecachedIs(fl, fl', freeList, ptr, l, k, cache, munmapOk);
      NoMoreGained(fl, fl', freeList, ptr, ptr + l);
    }

    /** free_pages up to the free list: the FOLLOW scan recovers the length of the run, whose pages
        become one entry or part of one. */
    method Release(ptr: nat, index: nat, ghost r: nat) returns (k: nat, cachesize: nat)
      requires Valid() && index == PtrToIndex(ptr) && Aligned(ptr)
      requires r < |live| && live[r].start == index && MarkAt(pd.dirs, index) == First
      modifies this`freeList, this`used, this`guarded, this`live, pd
      ensures Valid() && live == Without(old(live), r) && Aligned(cachesize)
      ensures SameChunks(old(pd.dirs), pd.dirs)
      ensures RunAdded(old(freeList), freeList, ptr, Length(old(live)[r], guard), k, cachesize)
    {
      hide Coalesced, Gained, FreeMarked, Owned, RunsHeld, RunsApart, TopOk, Total, Grown, PdirsOk;
      hide Linked, AllCounted, HeadClear, Freed;
      ghost var dirs, fl, runs := pd.dirs, freeList, live;
      var i, spi := ScanFree(ptr, index, r);
      Discount(i, r);
      k, cachesize := AddFree(ptr, i * PAGESIZE + GuardBytes(guard), spi);
      LeftBooks(dirs, pd.dirs, fl, freeList, runs, guard, r, lastIndex, brk);
    }

    /** The FOLLOW scan: the pages found are those of the run, and they are apart from the free list. */
    method ScanFree(ptr: nat, index: nat, ghost r: nat) returns (i: nat, spi: int)
      requires Valid() && index == PtrToIndex(ptr) && Aligned(ptr)
      requires r < |live| && live[r].start == index && MarkAt(pd.dirs, index) == First
      modifies pd`dirs
      ensures pd.Valid() && spi == PiIdx(index) && i == live[r].pages > 0 && index >= PAGESHIFT
      ensures var l := i * PAGESIZE + GuardBytes(guard);
              Apart(freeList, ptr, ptr + l) && Aligned(l) && ptr == IndexToPtr(index)
      ensures Freed(old(pd.dirs), pd.dirs, index, RunEnd(index, i, guard))
    {
      hide FreeMarked, Owned, RunsHeld, RunsApart, Coalesced, PdirsOk, TopOk, Apart, MarkAt;
      RunIsMaximal(pd.dirs, freeList, live, guard, r);
      LeavingApart(pd.dirs, freeList, live, guard, r);
      RoundPtr(ptr);
      i, spi := pd.FreeMarks(index, guard, live[r].pages);
    }

    /** What a freed run of i pages means for malloc_used and malloc_guarded. */
    method Discount(i: nat, ghost r: nat)
      requires Accounted() && r < |live| && live[r].pages == i
      modifies this`used, this`guarded, this`live
      ensures Accounted() && live == Without(old(live), r)
    {
      TotalPagesWithout(live, r);
      used := used - i * PAGESIZE;
      guarded := guarded - GuardBytes(guard);
      live := Without(live, r);
    }

    /** A run of one page becomes a page of chunks, or stops being one: its mark changes. */
    method Retag(index: nat, m: Mark, ghost r: nat)
      requires Valid() && r < |live| && live[r] == Run(index, 1) && (m == First || m == Chunk)
      modifies pd
      ensures Valid() && Stored(old(pd.dirs), pd.dirs, index, m)
    {
      hide FreeMarked, Owned, RunsHeld, RunsApart, Coalesced, PdirsOk, Apart;
      LeavingApart(pd.dirs, freeList, live, guard, r);
      LiveRunsAreSafe(pd.dirs, freeList, live, guard, r, index);
      CountedKeyed(pd.dirs, 0, 0);
      ghost var dirs := pd.dirs;
      var pi := pd.Touch(index);
      ghost var lo := pd.Store(index, m, 0, 0);
      Remark(dirs, pd.dirs, freeList, live, guard, r, m);
    }

    /** The mark that the lookup of a page leads to, and the page it belongs to: another one if the page has no
        directory page. */
    method ReadMark(index: nat) returns (info: Mark, at: nat)
      requires Valid()
      modifies pd`lastDir, pd`prevDir
      ensures Valid() && at == Shadow(pd.dirs, index) && info == MarkAt(pd.dirs, at)
    {
      hide Coalesced, PdirsOk, Partition, TopOk, AllCounted, HeadClear;
      CountedKeyed(pd.dirs, 0, 0);
      var pi := pd.Touch(index);
      FloorUnique(pd.dirs, PiIdx(index), pi, FloorOf(pd.dirs, PiIdx(index)));
      at := pi * PDI_MOD + PiOff(index);
      ShadowAt(pd.dirs, index);
      info := pd.dirs[pi].base[PiOff(index)];
    }
  }
}
