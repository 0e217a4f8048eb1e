/** Who owns a mapped page: the live runs, the free list and the directory marks agree. */
module PagePartition {
  import opened PageDirectory
  import opened DirectoryPages
  import opened FreeLists

  function PtrToIndex(a: nat): nat { a / PAGESIZE + PAGESHIFT }

  function IndexToPtr(i: nat): nat
    requires i >= PAGESHIFT
  {
    (i - PAGESHIFT) * PAGESIZE
  }

  lemma RoundIndex(i: nat)
    requires i >= PAGESHIFT
    ensures Aligned(IndexToPtr(i)) && PtrToIndex(IndexToPtr(i)) == i
  {
  }

  lemma RoundPtr(a: nat)
    requires Aligned(a)
    ensures IndexToPtr(PtrToIndex(a)) == a
  {
  }

  /** The pages between two aligned addresses are those with an index between theirs. */
  lemma IndexBetween(lo: nat, hi: nat, j: nat)
    requires Aligned(lo) && Aligned(hi) && j >= PAGESHIFT
    ensures lo <= IndexToPtr(j) < hi <==> PtrToIndex(lo) <= j < PtrToIndex(hi)
  {
  }

  /** An allocation of whole pages: the index of the first one and their number, without the guard. */
  datatype Run = Run(start: nat, pages: nat)

  ghost predicate Holds(r: Run, guard: bool, j: nat) {
    r.start <= j < RunEnd(r.start, r.pages, guard)
  }

  ghost predicate InLive(live: seq<Run>, guard: bool, j: nat) {
    exists i :: 0 <= i < |live| && Holds(live[i], guard, j)
  }

  /** The marks of a live run; a page of chunks is a run of one page whose mark is the page's pginfo. */
  ghost predicate RunHeld(dirs: Dirs, r: Run, guard: bool) {
    && r.start >= PAGESHIFT && r.pages > 0
    && (MarkAt(dirs, r.start) == First || (MarkAt(dirs, r.start) == Chunk && r.pages == 1))
    && (forall j: nat :: r.start < j < RunEnd(r.start, r.pages, guard) ==>
          MarkAt(dirs, j) == RunMark(r.start, r.pages, j))
  }

  ghost predicate Disjoint(r: Run, s: Run, guard: bool) {
    RunEnd(r.start, r.pages, guard) <= s.start || RunEnd(s.start, s.pages, guard) <= r.start
  }

  ghost predicate RunsApart(live: seq<Run>, guard: bool) {
    forall i, j :: 0 <= i < j < |live| ==> Disjoint(live[i], live[j], guard)
  }

  ghost predicate RunsHeld(dirs: Dirs, live: seq<Run>, guard: bool) {
    forall i :: 0 <= i < |live| ==> RunHeld(dirs, live[i], guard)
  }

  /** A page is marked free iff it lies in a free-list entry. */
  ghost predicate FreeMarked(dirs: Dirs, fl: seq<FreeRun>) {
    forall j: nat {:trigger MarkAt(dirs, j)} ::
      j >= PAGESHIFT ==> (MarkAt(dirs, j) == Free <==> InFree(fl, IndexToPtr(j)))
  }

  /** A page marked as in use lies in a live run. */
  ghost predicate Owned(dirs: Dirs, live: seq<Run>, guard: bool) {
    forall j: nat {:trigger MarkAt(dirs, j)} ::
      MarkAt(dirs, j) != NotMine && MarkAt(dirs, j) != Free ==> InLive(live, guard, j)
  }

  /** Each mapped page belongs to exactly one live run or one free-list entry, and the marks say which. */
  ghost predicate Partition(dirs: Dirs, fl: seq<FreeRun>, live: seq<Run>, guard: bool) {
    && FreeMarked(dirs, fl) && Owned(dirs, live, guard)
    && RunsHeld(dirs, live, guard) && RunsApart(live, guard)
  }

  /** The same pages are marked as pages of chunks. */
  ghost predicate SameChunks(dirs: Dirs, dirs': Dirs) {
    forall j: nat {:trigger MarkAt(dirs', j)} :: MarkAt(dirs', j) == Chunk <==> MarkAt(dirs, j) == Chunk
  }

  /** No live run overlaps another live run or cached free memory, and all of it is mapped. */
  lemma LiveRunsAreSafe(dirs: Dirs, fl: seq<FreeRun>, live: seq<Run>, guard: bool, i: nat, j: nat)
    requires Partition(dirs, fl, live, guard) && i < |live| && Holds(live[i], guard, j)
    ensures MarkAt(dirs, j) != NotMine && MarkAt(dirs, j) != Free
    ensures j >= PAGESHIFT && !InFree(fl, IndexToPtr(j))
    ensures forall k :: 0 <= k < |live| && Holds(live[k], guard, j) ==> k == i
  {
    assert RunHeld(dirs, live[i], guard);
    if j > live[i].start { assert MarkAt(dirs, j) == RunMark(live[i].start, live[i].pages, j); }
  }

  /** The page behind a run and its guard does not continue it: FOLLOW is always preceded by a page
      of its own run. */
  lemma RunIsMaximal(dirs: Dirs, fl: seq<FreeRun>, live: seq<Run>, guard: bool, i: nat)
    requires Partition(dirs, fl, live, guard) && i < |live|
    ensures MarkAt(dirs, live[i].start + live[i].pages) != Follow
    ensures MarkAt(dirs, live[i].start) == First ==> IsRun(dirs, live[i].start, live[i].pages)
  {
    var r := live[i];
    assert RunHeld(dirs, r, guard);
    var j := r.start + r.pages;
    if InLive(live, guard, j) {
      var k :| 0 <= k < |live| && Holds(live[k], guard, j);
      EndIsNoFollow(dirs, live, guard, i, k);
    }
  }

  lemma EndIsNoFollow(dirs: Dirs, live: seq<Run>, guard: bool, i: nat, k: nat)
    requires RunsHeld(dirs, live, guard) && RunsApart(live, guard) && i < |live| && k < |live|
    requires Holds(live[k], guard, live[i].start + live[i].pages)
    ensures MarkAt(dirs, live[i].start + live[i].pages) != Follow
  {
    var r, j := live[i], live[i].start + live[i].pages;
    assert RunHeld(dirs, r, guard);
    assert RunHeld(dirs, live[k], guard);
    if k == i {
      assert MarkAt(dirs, j) == RunMark(r.start, r.pages, j);
    } else if k < i {
      assert Disjoint(live[k], r, guard);
    } else {
      assert Disjoint(r, live[k], guard);
    }
  }

  // ----- What the operations do to the partition -----

  lemma InLiveAdd(live: seq<Run>, r: Run, guard: bool, j: nat)
    ensures InLive(live + [r], guard, j) <==> InLive(live, guard, j) || Holds(r, guard, j)
  {
    if InLive(live, guard, j) {
      var i :| 0 <= i < |live| && Holds(live[i], guard, j);
      assert Holds((live + [r])[i], guard, j);
    }
    if Holds(r, guard, j) { assert Holds((live + [r])[|live|], guard, j); }
  }

  function Without(live: seq<Run>, k: nat): seq<Run>
    requires k < |live|
  {
    live[..k] + live[k + 1..]
  }

  lemma InLiveWithout(live: seq<Run>, k: nat, guard: bool, j: nat)
    requires k < |live|
    ensures InLive(live, guard, j) ==> InLive(Without(live, k), guard, j) || Holds(live[k], guard, j)
  {
    if InLive(live, guard, j) {
      var i :| 0 <= i < |live| && Holds(live[i], guard, j);
      if i < k {
        assert Holds(Without(live, k)[i], guard, j);
      } else if i > k {
        assert Holds(Without(live, k)[i - 1], guard, j);
      }
    }
  }

  /** Marks that differ only outside a run leave it held. */
  lemma HeldSame(dirs: Dirs, dirs': Dirs, r: Run, guard: bool)
    requires RunHeld(dirs, r, guard)
    requires forall j: nat :: Holds(r, guard, j) ==> MarkAt(dirs', j) == MarkAt(dirs, j)
    ensures RunHeld(dirs', r, guard)
  {
    assert Holds(r, guard, r.start);
    forall j: nat | r.start < j < RunEnd(r.start, r.pages, guard)
      ensures MarkAt(dirs', j) == RunMark(r.start, r.pages, j)
    {
      assert Holds(r, guard, j);
    }
  }

  /** Pages [index, end) that no live run holds are disjoint from every live run. */
  lemma NewIsDisjoint(dirs: Dirs, live: seq<Run>, guard: bool, r: Run, i: nat)
    requires RunsHeld(dirs, live, guard) && i < |live| && r.pages > 0
    requires forall j: nat :: Holds(r, guard, j) ==> MarkAt(dirs, j) == Free || MarkAt(dirs, j) == NotMine
    ensures Disjoint(live[i], r, guard)
  {
    var s := live[i];
    assert RunHeld(dirs, s, guard);
    var j := if s.start < r.start then r.start else s.start;
    if Holds(s, guard, j) {
      assert j == s.start || MarkAt(dirs, j) == RunMark(s.start, s.pages, j);
    }
    assert Holds(r, guard, j) || !Holds(s, guard, j) || j < r.start || j >= RunEnd(r.start, r.pages, guard);
  }

  lemma FreeMarkedAfterEnter(dirs: Dirs, dirs': Dirs, fl: seq<FreeRun>, fl': seq<FreeRun>, r: Run, guard: bool)
    requires FreeMarked(dirs, fl) && r.start >= PAGESHIFT
    requires RunEntered(dirs, dirs', r.start, r.pages, RunEnd(r.start, r.pages, guard))
    requires Lost(fl, fl', IndexToPtr(r.start), IndexToPtr(RunEnd(r.start, r.pages, guard)))
    ensures FreeMarked(dirs', fl')
  {
    var end := RunEnd(r.start, r.pages, guard);
    forall j: nat | j >= PAGESHIFT ensures MarkAt(dirs', j) == Free <==> InFree(fl', IndexToPtr(j)) {
      RoundIndex(r.start);
      RoundIndex(end);
      IndexBetween(IndexToPtr(r.start), IndexToPtr(end), j);
      assert MarkAt(dirs, j) == Free <==> InFree(fl, IndexToPtr(j));
    }
  }

  lemma OwnedAfterEnter(dirs: Dirs, dirs': Dirs, live: seq<Run>, r: Run, guard: bool)
    requires Owned(dirs, live, guard)
    requires RunEntered(dirs, dirs', r.start, r.pages, RunEnd(r.start, r.pages, guard))
    ensures Owned(dirs', live + [r], guard)
  {
    forall j: nat | MarkAt(dirs', j) != NotMine && MarkAt(dirs', j) != Free
      ensures InLive(live + [r], guard, j)
    {
      InLiveAdd(live, r, guard, j);
      if !Holds(r, guard, j) { assert MarkAt(dirs', j) == MarkAt(dirs, j); }
    }
  }

  /** malloc_pages: pages that were free or not mapped become a live run. */
  lemma EnterRun(dirs: Dirs, dirs': Dirs, fl: seq<FreeRun>, fl': seq<FreeRun>, live: seq<Run>, r: Run, guard: bool)
    requires Partition(dirs, fl, live, guard) && r.start >= PAGESHIFT && r.pages > 0
    requires forall j: nat :: Holds(r, guard, j) ==> MarkAt(dirs, j) == Free || MarkAt(dirs, j) == NotMine
    requires RunEntered(dirs, dirs', r.start, r.pages, RunEnd(r.start, r.pages, guard))
    requires Lost(fl, fl', IndexToPtr(r.start), IndexToPtr(RunEnd(r.start, r.pages, guard)))
    ensures Partition(dirs', fl', live + [r], guard)
  {
    FreeMarkedAfterEnter(dirs, dirs', fl, fl', r, guard);
    OwnedAfterEnter(dirs, dirs', live, r, guard);
    forall i | 0 <= i < |live| ensures Disjoint(live[i], r, guard) {
      NewIsDisjoint(dirs, live, guard, r, i);
    }
    RunsHeldAfterEnter(dirs, dirs', live, r, guard);
  }

  lemma RunsHeldAfterEnter(dirs: Dirs, dirs': Dirs, live: seq<Run>, r: Run, guard: bool)
    requires RunsHeld(dirs, live, guard) && r.start >= PAGESHIFT && r.pages > 0
    requires forall i :: 0 <= i < |live| ==> Disjoint(live[i], r, guard)
    requires RunEntered(dirs, dirs', r.start, r.pages, RunEnd(r.start, r.pages, guard))
    ensures RunsHeld(dirs', live + [r], guard)
  {
    var live' := live + [r];
    forall i | 0 <= i < |live'| ensures RunHeld(dirs', live'[i], guard) {
      if i < |live| {
        assert RunHeld(dirs, live[i], guard) && Disjoint(live[i], r, guard);
        HeldSame(dirs, dirs', live[i], guard);
      }
    }
  }

  lemma FreeMarkedAfterLeave(dirs: Dirs, dirs': Dirs, fl: seq<FreeRun>, fl': seq<FreeRun>, index: nat, end: nat)
    requires FreeMarked(dirs, fl) && PAGESHIFT <= index <= end
    requires Freed(dirs, dirs', index, end) && Gained(fl, fl', IndexToPtr(index), IndexToPtr(end))
    ensures FreeMarked(dirs', fl')
  {
    forall j: nat | j >= PAGESHIFT ensures MarkAt(dirs', j) == Free <==> InFree(fl', IndexToPtr(j)) {
      RoundIndex(index);
      RoundIndex(end);
      IndexBetween(IndexToPtr(index), IndexToPtr(end), j);
      assert MarkAt(dirs, j) == Free <==> InFree(fl, IndexToPtr(j));
    }
  }

  lemma OwnedAfterLeave(dirs: Dirs, dirs': Dirs, live: seq<Run>, k: nat, guard: bool)
    requires Owned(dirs, live, guard) && k < |live|
    requires Freed(dirs, dirs', live[k].start, RunEnd(live[k].start, live[k].pages, guard))
    ensures Owned(dirs', Without(live, k), guard)
  {
    forall j: nat | MarkAt(dirs', j) != NotMine && MarkAt(dirs', j) != Free
      ensures InLive(Without(live, k), guard, j)
    {
      InLiveWithout(live, k, guard, j);
      assert !Holds(live[k], guard, j);
    }
  }

  lemma RunsAfterLeave(dirs: Dirs, dirs': Dirs, live: seq<Run>, k: nat, guard: bool)
    requires RunsHeld(dirs, live, guard) && RunsApart(live, guard) && k < |live|
    requires Freed(dirs, dirs', live[k].start, RunEnd(live[k].start, live[k].pages, guard))
    ensures RunsHeld(dirs', Without(live, k), guard) && RunsApart(Without(live, k), guard)
  {
    var live' := Without(live, k);
    forall i | 0 <= i < |live'| ensures live'[i] == live[if i < k then i else i + 1] {
    }
    forall i | 0 <= i < |live'| ensures RunHeld(dirs', live'[i], guard) {
      var m := if i < k then i else i + 1;
      assert RunHeld(dirs, live[m], guard);
      assert if m < k then Disjoint(live[m], live[k], guard) else Disjoint(live[k], live[m], guard);
      HeldSame(dirs, dirs', live[m], guard);
    }
  }

  /** free_pages: a live run becomes cached free memory. */
  lemma LeaveRun(dirs: Dirs, dirs': Dirs, fl: seq<FreeRun>, fl': seq<FreeRun>, live: seq<Run>, k: nat, guard: bool)
    requires Partition(dirs, fl, live, guard) && k < |live| && live[k].start >= PAGESHIFT
    requires Freed(dirs, dirs', live[k].start, RunEnd(live[k].start, live[k].pages, guard))
    requires Gained(fl, fl', IndexToPtr(live[k].start), IndexToPtr(RunEnd(live[k].start, live[k].pages, guard)))
    ensures Partition(dirs', fl', Without(live, k), guard)
  {
    FreeMarkedAfterLeave(dirs, dirs', fl, fl', live[k].start, RunEnd(live[k].start, live[k].pages, guard));
    OwnedAfterLeave(dirs, dirs', live, k, guard);
    RunsAfterLeave(dirs, dirs', live, k, guard);
  }

  /** The trimming of free_pages: cached free memory goes back to the system. */
  lemma ReturnPages(dirs: Dirs, dirs': Dirs, fl: seq<FreeRun>, fl': seq<FreeRun>, live: seq<Run>, guard: bool,
                    index: nat, end: nat)
    requires Partition(dirs, fl, live, guard) && PAGESHIFT <= index <= end
    requires forall j :: index <= j < end ==> MarkAt(dirs, j) == Free
    requires Erased(dirs, dirs', index, end) && Lost(fl, fl', IndexToPtr(index), IndexToPtr(end))
    ensures Partition(dirs', fl', live, guard)
  {
    forall j: nat | j >= PAGESHIFT ensures MarkAt(dirs', j) == Free <==> InFree(fl', IndexToPtr(j)) {
      RoundIndex(index);
      RoundIndex(end);
      IndexBetween(IndexToPtr(index), IndexToPtr(end), j);
      assert MarkAt(dirs, j) == Free <==> InFree(fl, IndexToPtr(j));
    }
    forall i | 0 <= i < |live| ensures RunHeld(dirs', live[i], guard) {
      forall j: nat | Holds(live[i], guard, j) ensures MarkAt(dirs', j) == MarkAt(dirs, j) {
        LiveRunsAreSafe(dirs, fl, live, guard, i, j);
      }
      HeldSame(dirs, dirs', live[i], guard);
    }
  }

  /** malloc_make_chunks and free_bytes: a run of one page becomes a page of chunks, or back. */
  lemma Remark(dirs: Dirs, dirs': Dirs, fl: seq<FreeRun>, live: seq<Run>, guard: bool, k: nat, m: Mark)
    requires Partition(dirs, fl, live, guard) && k < |live| && live[k].pages == 1
    requires m == First || m == Chunk
    requires Stored(dirs, dirs', live[k].start, m)
    ensures Partition(dirs', fl, live, guard)
  {
    assert RunHeld(dirs, live[k], guard);
    assert Holds(live[k], guard, live[k].start);
    LiveRunsAreSafe(dirs, fl, live, guard, k, live[k].start);
    forall j: nat | MarkAt(dirs', j) != NotMine && MarkAt(dirs', j) != Free ensures InLive(live, guard, j) {
      assert MarkAt(dirs, j) != NotMine && MarkAt(dirs, j) != Free;
    }
    forall i | 0 <= i < |live| ensures RunHeld(dirs', live[i], guard) {
      assert RunHeld(dirs, live[i], guard);
      if i != k { HeldSame(dirs, dirs', live[i], guard); }
    }
  }

  // ----- Runs that are page allocations, as opposed to pages of chunks -----

  ghost predicate PageBlock(dirs: Dirs, live: seq<Run>, r: Run) {
    r in live && r.start >= PAGESHIFT && MarkAt(dirs, r.start) == First
  }

  /** Among runs that are held, the first mark is FIRST unless it is a chunk mark. */
  lemma BlockUnlessChunk(dirs: Dirs, live: seq<Run>, guard: bool, r: Run)
    requires RunsHeld(dirs, live, guard)
    ensures PageBlock(dirs, live, r) <==> r in live && MarkAt(dirs, r.start) != Chunk
  {
    if r in live {
      var i :| 0 <= i < |live| && live[i] == r;
      assert RunHeld(dirs, live[i], guard);
    }
  }

  /** A new run adds one page allocation; it was none before. */
  lemma BlocksAfterEnter(dirs: Dirs, dirs': Dirs, live: seq<Run>, r: Run, guard: bool)
    requires RunsHeld(dirs, live, guard) && SameChunks(dirs, dirs')
    requires RunsHeld(dirs', live + [r], guard) && RunsApart(live + [r], guard)
    requires MarkAt(dirs', r.start) == First
    ensures forall s :: PageBlock(dirs', live + [r], s) <==> PageBlock(dirs, live, s) || s == r
    ensures !PageBlock(dirs, live, r)
  {
    forall s ensures PageBlock(dirs', live + [r], s) <==> PageBlock(dirs, live, s) || s == r {
      BlockUnlessChunk(dirs, live, guard, s);
      BlockUnlessChunk(dirs', live + [r], guard, s);
    }
    NotTwice(dirs', live + [r], guard, |live|);
    forall i | 0 <= i < |live| ensures live[i] != r {
      assert (live + [r])[i] == live[i];
    }
  }

  /** No run is listed twice. */
  lemma NotTwice(dirs: Dirs, live: seq<Run>, guard: bool, k: nat)
    requires RunsHeld(dirs, live, guard) && RunsApart(live, guard) && k < |live|
    ensures forall i :: 0 <= i < |live| && live[i] == live[k] ==> i == k
  {
    assert RunHeld(dirs, live[k], guard);
    forall i | 0 <= i < |live| && i != k ensures live[i] != live[k] {
      if i < k { assert Disjoint(live[i], live[k], guard); } else { assert Disjoint(live[k], live[i], guard); }
    }
  }

  /** A run that leaves takes one page allocation away. */
  lemma BlocksAfterLeave(dirs: Dirs, dirs': Dirs, live: seq<Run>, k: nat, guard: bool)
    requires RunsHeld(dirs, live, guard) && RunsApart(live, guard) && SameChunks(dirs, dirs') && k < |live|
    requires RunsHeld(dirs', Without(live, k), guard)
    ensures forall s :: PageBlock(dirs', Without(live, k), s) <==> PageBlock(dirs, live, s) && s != live[k]
  {
    NotTwice(dirs, live, guard, k);
    var live' := Without(live, k);
    forall s ensures PageBlock(dirs', live', s) <==> PageBlock(dirs, live, s) && s != live[k] {
      BlockUnlessChunk(dirs, live, guard, s);
      BlockUnlessChunk(dirs', live', guard, s);
      assert live == live[..k] + [live[k]] + live[k + 1..];
      assert forall i :: 0 <= i < |live'| ==> live'[i] == live[if i < k then i else i + 1];
    }
  }

  /** Changing the mark of one run changes only whether that run is a page allocation. */
  lemma BlocksAfterRetag(dirs: Dirs, dirs': Dirs, live: seq<Run>, guard: bool, k: nat, m: Mark)
    requires RunsHeld(dirs, live, guard) && RunsApart(live, guard) && k < |live|
    requires Stored(dirs, dirs', live[k].start, m)
    ensures forall s :: PageBlock(dirs', live, s) <==> if s == live[k] then m == First else PageBlock(dirs, live, s)
  {
    assert RunHeld(dirs, live[k], guard);
    forall s ensures PageBlock(dirs', live, s) <==> if s == live[k] then m == First else PageBlock(dirs, live, s) {
      if s in live && s != live[k] {
        var i :| 0 <= i < |live| && live[i] == s;
        assert RunHeld(dirs, live[i], guard);
        assert if i < k then Disjoint(live[i], live[k], guard) else Disjoint(live[k], live[i], guard);
      }
    }
  }
}
