/** The global page directory with its two cached references, and the walks over it that
    pdir_lookup, map_pages, malloc_pages, free_pages and irealloc make. */
module DirectoryPages {
  import opened PageDirectory

  function Max(a: int, b: int): int { if a < b then b else a }

  function Min(a: int, b: int): int { if a < b then a else b }

  /** Two directories read the same as flat tables. */
  ghost predicate SameMarks(dirs: Dirs, dirs': Dirs) {
    forall j: nat {:trigger MarkAt(dirs', j)} :: MarkAt(dirs', j) == MarkAt(dirs, j)
  }

  ghost predicate Unmarked(dirs: Dirs, index: nat, lindex: nat) {
    forall j: nat :: index <= j <= lindex ==> MarkAt(dirs, j) == NotMine
  }

  /** How much map_pages adds to the count of directory idx for the region [index, lindex]. */
  function Share(index: nat, lindex: nat, idx: nat): nat
    requires index <= lindex
  {
    if idx > PiIdx(index) && idx < PiIdx(lindex) then PDI_MOD
    else if idx == PiIdx(index) then
      if PiIdx(index) == PiIdx(lindex) then lindex + 1 - index else PDI_MOD - PiOff(index)
    else PiOff(lindex) + 1
  }

  lemma ShareIsOverlap(index: nat, lindex: nat, idx: nat)
    requires index <= lindex && PiIdx(index) <= idx <= PiIdx(lindex)
    ensures Share(index, lindex, idx) == Overlap(idx, index, lindex + 1)
    ensures Overlap(idx, index, lindex + 1) == Overlap(idx, index, Min(lindex + 1, (idx + 1) * PDI_MOD))
    ensures Max(index, idx * PDI_MOD) < Min(lindex + 1, (idx + 1) * PDI_MOD)
  {
  }

  function Renumber(dirs: Dirs, k: int, num: nat): Dirs
    requires k in dirs
  {
    dirs[k := dirs[k].(dirnum := num)]
  }

  function Bump(dirs: Dirs, k: int, n: nat): Dirs
    requires k in dirs
  {
    Renumber(dirs, k, dirs[k].dirnum + n)
  }

  /** Adding the pages of the region that fall to directory k, once, completes its count. */
  lemma BumpCounted(dirs: Dirs, k: nat, lo: nat, hi: nat, hi': nat)
    requires Linked(dirs) && HeadClear(dirs) && k in dirs && PAGESHIFT <= lo <= hi <= hi'
    requires hi == Max(lo, k * PDI_MOD) && hi < hi' <= (k + 1) * PDI_MOD
    requires Unmarked(dirs, lo, hi' - 1)
    requires forall m :: m in dirs && m != k ==> Counted(dirs, m, lo, hi)
    requires dirs[k].dirnum == k * PD_RADIX + PageCount(dirs, k, lo, hi)
    ensures AllCounted(Bump(dirs, k, Overlap(k, lo, hi')), lo, hi')
  {
    var dirs' := Bump(dirs, k, Overlap(k, lo, hi'));
    CountRoom(dirs, k, lo, hi');
    forall m | m in dirs' ensures Counted(dirs', m, lo, hi') {
      if m != k {
        assert Counted(dirs, m, lo, hi);
        OverlapElsewhere(m, k, lo, hi, hi');
      }
    }
  }

  lemma OverlapElsewhere(m: int, k: nat, lo: nat, hi: nat, hi': nat)
    requires m != k && lo <= hi <= hi' && hi == Max(lo, k * PDI_MOD) && hi' <= (k + 1) * PDI_MOD
    ensures Overlap(m, lo, hi) == Overlap(m, lo, hi')
  {
  }

  /** Changing a count leaves links and marks alone. */
  lemma RenumberSame(dirs: Dirs, k: int, num: nat)
    requires Linked(dirs) && k in dirs
    ensures var dirs' := Renumber(dirs, k, num);
            Linked(dirs') && SameMarks(dirs, dirs') && dirs'.Keys == dirs.Keys
  {
    var dirs' := Renumber(dirs, k, num);
    assert dirs'.Keys == dirs.Keys;
    forall m | m in dirs' ensures NodeLinked(dirs', m) {
      assert NodeLinked(dirs, m);
    }
  }

  /** A new directory page starts with nothing to count. */
  lemma InsertReady(dirs: Dirs, k: nat, spi: int, lo: nat, hi: nat)
    requires Linked(dirs) && AllCounted(dirs, lo, hi) && k !in dirs && IsFloor(dirs, k, spi)
    requires hi == Max(lo, k * PDI_MOD)
    ensures dirs[spi].next == NIL || dirs[spi].next in dirs
    ensures var dirs' := InsertDir(dirs, k, spi);
            && Linked(dirs') && dirs'.Keys == dirs.Keys + {k} && SameMarks(dirs, dirs')
            && (forall m :: m in dirs' && m != k ==> Counted(dirs', m, lo, hi))
            && dirs'[k].dirnum == k * PD_RADIX + PageCount(dirs', k, lo, hi)
  {
    InsertLinked(dirs, k, spi);
    InsertShape(dirs, k, spi);
    InsertMarks(dirs, k, spi);
    var dirs' := InsertDir(dirs, k, spi);
    forall m | m in dirs' && m != k ensures Counted(dirs', m, lo, hi) {
      assert Counted(dirs, m, lo, hi) && SamePages(dirs', dirs, m);
    }
  }

  /** The directory after one round of map_pages' loop. */
  function Entered(dirs: Dirs, index: nat, lindex: nat, idx: nat, spi: int): Dirs
    requires index <= lindex
    requires idx in dirs || (spi in dirs && (dirs[spi].next == NIL || dirs[spi].next in dirs))
  {
    Bump(if idx in dirs then dirs else InsertDir(dirs, idx, spi), idx, Share(index, lindex, idx))
  }

  lemma EnterKeeps(dirs: Dirs, index: nat, lindex: nat, idx: nat, spi: int)
    requires PAGESHIFT <= index <= lindex && PiIdx(index) <= idx <= PiIdx(lindex)
    requires Linked(dirs) && HeadClear(dirs) && AllCounted(dirs, index, Max(index, idx * PDI_MOD))
    requires Unmarked(dirs, index, lindex)
    requires idx in dirs || IsFloor(dirs, idx, spi)
    ensures idx in dirs || dirs[spi].next == NIL || dirs[spi].next in dirs
    ensures var dirs' := Entered(dirs, index, lindex, idx, spi);
            && Linked(dirs') && HeadClear(dirs') && SameMarks(dirs, dirs')
            && dirs'.Keys == dirs.Keys + {idx}
            && AllCounted(dirs', index, Min(lindex + 1, (idx + 1) * PDI_MOD))
  {
    hide Mapped, Overlap, Share;
    var hi, hi' := Max(index, idx * PDI_MOD), Min(lindex + 1, (idx + 1) * PDI_MOD);
    ShareIsOverlap(index, lindex, idx);
    var dirs1 := dirs;
    if idx !in dirs {
      InsertReady(dirs, idx, spi, index, hi);
      dirs1 := InsertDir(dirs, idx, spi);
    } else {
      assert Counted(dirs, idx, index, hi);
    }
    BumpCounted(dirs1, idx, index, hi, hi');
    RenumberSame(dirs1, idx, dirs1[idx].dirnum + Share(index, lindex, idx));
  }

  /** One store of a mark that means "mapped", over a mapped page or over the first page of the
      region [lo, hi) that is mapped but unmarked. */
  lemma MarkStep(dirs: Dirs, j: nat, m: Mark, lo: nat, hi: nat)
    requires Linked(dirs) && HeadClear(dirs) && AllCounted(dirs, lo, hi)
    requires PAGESHIFT <= j && PiIdx(j) in dirs && m != NotMine
    requires MarkAt(dirs, j) == NotMine ==> lo == j < hi
    ensures var dirs' := Put(dirs, j, m);
            && Linked(dirs') && HeadClear(dirs') && dirs'.Keys == dirs.Keys
            && AllCounted(dirs', if MarkAt(dirs, j) == NotMine then lo + 1 else lo, hi)
            && Stored(dirs, dirs', j, m)
  {
    PutMark(dirs, j, m);
    PutLinked(dirs, j, m);
    if MarkAt(dirs, j) == NotMine {
      PutCountedFresh(dirs, lo, hi, m);
    } else {
      PutCountedSame(dirs, j, lo, hi, m);
    }
  }

  /** dirs' reads as dirs with m stored at j. */
  ghost predicate Stored(dirs: Dirs, dirs': Dirs, j: nat, m: Mark) {
    forall x: nat {:trigger MarkAt(dirs', x)} :: MarkAt(dirs', x) == if x == j then m else MarkAt(dirs, x)
  }

  lemma NextDir(dirs: Dirs, k: int)
    requires Linked(dirs) && k in dirs && k + 1 in dirs
    ensures dirs[k].next == k + 1
  {
    assert NodeLinked(dirs, k);
  }

  /** What a page of a run of `size` pages, with or without a guard page behind it, is marked. */
  function RunMark(index: nat, size: nat, j: nat): Mark {
    if index < j < index + size then Follow else First
  }

  /** The index behind a run and its guard page. */
  function RunEnd(index: nat, size: nat, guard: bool): nat { index + size + if guard then 1 else 0 }

  lemma NonePending(dirs: Dirs, lo: nat)
    requires AllCounted(dirs, 0, 0)
    ensures AllCounted(dirs, lo, lo)
  {
    forall k | k in dirs ensures Counted(dirs, k, lo, lo) {
      assert Counted(dirs, k, 0, 0);
    }
  }

  lemma NothingPending(dirs: Dirs, lo: int, hi: int)
    requires AllCounted(dirs, lo, hi) && lo >= hi
    ensures AllCounted(dirs, 0, 0)
  {
    forall k | k in dirs ensures Counted(dirs, k, 0, 0) {
      assert Counted(dirs, k, lo, hi);
    }
  }

  /** dirs' reads as dirs with the run, or the part of it below upto, entered. */
  ghost predicate RunEntered(dirs: Dirs, dirs': Dirs, index: nat, size: nat, upto: nat) {
    forall x: nat {:trigger MarkAt(dirs', x)} ::
      MarkAt(dirs', x) == if index <= x < upto then RunMark(index, size, x) else MarkAt(dirs, x)
  }

  /** The marks of a run of n pages that starts at index: FIRST, FOLLOW, and no further FOLLOW. */
  ghost predicate IsRun(dirs: Dirs, index: nat, n: nat) {
    && n > 0 && MarkAt(dirs, index) == First
    && (forall j :: index < j < index + n ==> MarkAt(dirs, j) == Follow)
    && MarkAt(dirs, index + n) != Follow
  }

  /** dirs' reads as dirs with the pages of [index, upto) marked free. */
  ghost predicate Freed(dirs: Dirs, dirs': Dirs, index: nat, upto: nat) {
    forall x: nat {:trigger MarkAt(dirs', x)} ::
      MarkAt(dirs', x) == if index <= x < upto then Free else MarkAt(dirs, x)
  }

  lemma FreedGrows(dirs: Dirs, dirs1: Dirs, dirs2: Dirs, index: nat, upto: nat)
    requires Freed(dirs, dirs1, index, upto) && index <= upto && Stored(dirs1, dirs2, upto, Free)
    ensures Freed(dirs, dirs2, index, upto + 1)
  {
  }

  // ----- Giving pages back -----

  /** The mark of page i is cleared and its directory counts one page less. */
  function Drop(dirs: Dirs, i: nat): Dirs
    requires PiIdx(i) in dirs && |dirs[PiIdx(i)].base| == PDI_MOD && dirs[PiIdx(i)].dirnum > 0
  {
    Renumber(Put(dirs, i, NotMine), PiIdx(i), dirs[PiIdx(i)].dirnum - 1)
  }

  /** Sound, except that directory page pi may have run empty. */
  ghost predicate Draining(dirs: Dirs, pi: int) {
    && Linked(dirs) && HeadClear(dirs)
    && (forall k {:trigger Counted(dirs, k, 0, 0)} :: k in dirs && k != pi ==> Counted(dirs, k, 0, 0))
    && (pi in dirs ==> Packed(dirs, pi, 0, 0))
  }

  lemma SoundDrains(dirs: Dirs, pi: int)
    requires Sound(dirs, 0, 0)
    ensures Draining(dirs, pi)
  {
    if pi in dirs { assert Counted(dirs, pi, 0, 0); }
  }

  lemma DropStep(dirs: Dirs, i: nat)
    requires Draining(dirs, PiIdx(i)) && PAGESHIFT <= i && MarkAt(dirs, i) != NotMine
    ensures dirs[PiIdx(i)].dirnum > 0
    ensures var dirs' := Drop(dirs, i);
            && Draining(dirs', PiIdx(i)) && dirs'.Keys == dirs.Keys && Stored(dirs, dirs', i, NotMine)
  {
    var k := PiIdx(i);
    MappedPut(dirs[k].base, PiOff(i), NotMine);
    PutMark(dirs, i, NotMine);
    PutLinked(dirs, i, NotMine);
    RenumberSame(Put(dirs, i, NotMine), k, dirs[k].dirnum - 1);
    var dirs' := Drop(dirs, i);
    forall m | m in dirs' && m != k ensures Counted(dirs', m, 0, 0) {
      assert Counted(dirs, m, 0, 0);
    }
  }

  /** A directory page that has run empty is told by its count and can be unlinked. */
  lemma DrainedDir(dirs: Dirs, pi: int)
    requires Draining(dirs, pi) && pi in dirs
    ensures PdIdx(dirs[pi].dirnum) == pi
    ensures PdOff(dirs[pi].dirnum) != 0 ==> Sound(dirs, 0, 0)
    ensures PdOff(dirs[pi].dirnum) == 0 ==>
              && Removable(dirs, pi) && Sound(RemoveDir(dirs, pi), 0, 0)
              && RemoveDir(dirs, pi).Keys == dirs.Keys - {pi} && SameMarks(dirs, RemoveDir(dirs, pi))
  {
    Unpack(pi, PageCount(dirs, pi, 0, 0));
    if PdOff(dirs[pi].dirnum) == 0 {
      RemoveLinked(dirs, pi);
      RemoveShape(dirs, pi);
      RemoveMarks(dirs, pi);
      var dirs' := RemoveDir(dirs, pi);
      forall m | m in dirs' ensures Counted(dirs', m, 0, 0) {
        assert Counted(dirs, m, 0, 0) && SamePages(dirs', dirs, m);
      }
    } else {
      assert Counted(dirs, pi, 0, 0);
    }
  }

  /** dirs' reads as dirs with the marks of [index, upto) cleared. */
  ghost predicate Erased(dirs: Dirs, dirs': Dirs, index: nat, upto: nat) {
    forall x: nat {:trigger MarkAt(dirs', x)} ::
      MarkAt(dirs', x) == if index <= x < upto then NotMine else MarkAt(dirs, x)
  }

  /** pi is the first directory page whose index is at least k, or NIL. */
  ghost predicate IsCeiling(dirs: Dirs, k: int, pi: int) {
    && (pi != NIL ==> pi in dirs && pi >= k)
    && (forall m :: m in dirs && m >= k ==> pi != NIL && pi <= m)
  }

  /** The state of the clearing loop of free_pages before page i: below it, all of [index, i) is
      cleared, spi is the floor of the first directory, and pi the directory page to go on with. */
  ghost predicate Sweep(start: Dirs, dirs: Dirs, index: nat, i: nat, pi: int, spi: int) {
    && index <= i && Erased(start, dirs, index, i) && IsFloor(dirs, PiIdx(index), spi)
    && dirs.Keys <= start.Keys && (forall k :: k in start && k < PiIdx(index) ==> k in dirs)
    && if PiOff(i) != 0 || i == index
       then pi == PiIdx(i) && pi in dirs && Draining(dirs, pi)
       else Sound(dirs, 0, 0) && IsCeiling(dirs, PiIdx(i), pi)
  }

  lemma SweepKeyed(start: Dirs, dirs: Dirs, index: nat, i: nat, pi: int, spi: int)
    requires Sweep(start, dirs, index, i, pi, spi)
    ensures pi != NIL ==> pi in dirs && PdIdx(dirs[pi].dirnum) == pi
    ensures pi != NIL && PdOff(dirs[pi].dirnum) != 0 ==> Sound(dirs, 0, 0)
    ensures pi != NIL && PdOff(dirs[pi].dirnum) == 0 ==> PiOff(i) != 0 || i == index
  {
    if PiOff(i) != 0 || i == index {
      DrainedDir(dirs, pi);
    } else {
      CountedKeyed(dirs, 0, 0);
      if pi != NIL { assert Counted(dirs, pi, 0, 0); }
    }
  }

  /** The mark of page i is cleared, in the directory page at hand. */
  lemma SweepDrop(start: Dirs, dirs: Dirs, index: nat, i: nat, pi: int, spi: int)
    requires PAGESHIFT <= index && Sweep(start, dirs, index, i, pi, spi) && MarkAt(start, i) != NotMine
    ensures pi == PiIdx(i) && pi in dirs && |dirs[pi].base| == PDI_MOD && dirs[pi].dirnum > 0
    ensures var dirs' := Drop(dirs, i);
            && Draining(dirs', pi) && dirs'.Keys == dirs.Keys && Erased(start, dirs', index, i + 1)
            && IsFloor(dirs', PiIdx(index), spi)
  {
    assert MarkAt(dirs, i) != NotMine;
    if PiOff(i) == 0 && i > index {
      SoundDrains(dirs, pi);
    }
    DropStep(dirs, i);
  }

  /** Within a directory page, clearing goes on. */
  lemma SweepGoes(start: Dirs, dirs: Dirs, index: nat, i: nat, pi: int, spi: int)
    requires pi == PiIdx(i) && pi in dirs && Draining(dirs, pi) && PiOff(i + 1) != 0 && index <= i
    requires Erased(start, dirs, index, i + 1) && IsFloor(dirs, PiIdx(index), spi)
    requires dirs.Keys <= start.Keys && (forall k :: k in start && k < PiIdx(index) ==> k in dirs)
    ensures Sweep(start, dirs, index, i + 1, pi, spi)
  {
    assert PiIdx(i + 1) == PiIdx(i);
  }

  /** At its end it goes on with the next directory page there is. */
  lemma SweepCrosses(start: Dirs, dirs: Dirs, dirs': Dirs, index: nat, i: nat, pi: int, pi': int, spi: int)
    requires pi == PiIdx(i) && PiOff(i + 1) == 0 && index <= i
    requires Sound(dirs', 0, 0) && SameMarks(dirs, dirs')
    requires IsCeiling(dirs', if pi in dirs' then pi + 1 else pi, pi')
    requires Erased(start, dirs, index, i + 1) && IsFloor(dirs', PiIdx(index), spi)
    requires dirs'.Keys <= start.Keys && (forall k :: k in start && k < PiIdx(index) ==> k in dirs')
    ensures Sweep(start, dirs', index, i + 1, pi', spi)
  {
    assert PiIdx(i + 1) == pi + 1;
  }

  lemma NextIsCeiling(dirs: Dirs, pi: int)
    requires Linked(dirs) && pi in dirs
    ensures IsCeiling(dirs, pi + 1, dirs[pi].next)
  {
    assert NodeLinked(dirs, pi);
  }

  lemma SweepStarts(dirs: Dirs, index: nat)
    requires Sound(dirs, 0, 0) && PiIdx(index) in dirs
    ensures Sweep(dirs, dirs, index, index, PiIdx(index), PiIdx(index))
  {
    SoundDrains(dirs, PiIdx(index));
  }

  lemma StillMarked(start: Dirs, dirs: Dirs, index: nat, i: nat)
    requires Erased(start, dirs, index, i)
    ensures MarkAt(dirs, i) == MarkAt(start, i)
  {
  }

  /** There is no directory page to go on with only behind the last page to be cleared. */
  lemma SweepStops(start: Dirs, dirs: Dirs, index: nat, i: nat, pi: int, spi: int, lidx: nat)
    requires Sweep(start, dirs, index, i, pi, spi) && index < i && PiOff(i) == 0
    requires pi == NIL || pi != PiIdx(i)
    requires i <= lidx ==> MarkAt(start, i) != NotMine
    ensures i > lidx
  {
    if i <= lidx {
      StillMarked(start, dirs, index, i);
      assert false;
    }
  }

  lemma RunGrows(dirs: Dirs, dirs1: Dirs, dirs2: Dirs, index: nat, size: nat, upto: nat)
    requires RunEntered(dirs, dirs1, index, size, upto) && index <= upto
    requires Stored(dirs1, dirs2, upto, RunMark(index, size, upto))
    ensures RunEntered(dirs, dirs2, index, size, upto + 1)
  {
  }

  /** The invariant of the directory, where the pages of [lo, hi) are mapped but not yet marked. */
  ghost predicate Sound(dirs: Dirs, lo: int, hi: int) {
    Linked(dirs) && HeadClear(dirs) && AllCounted(dirs, lo, hi)
  }

  lemma SameDirBetween(lo: nat, j: nat, hi: nat)
    requires lo <= j <= hi && PiIdx(lo) == PiIdx(hi)
    ensures PiIdx(j) == PiIdx(lo)
  {
  }

  /** If something is mapped below index, something is in the last directory page up to that of index. */
  lemma MappedInFloor(dirs: Dirs, index: nat, spi: int, w: nat) returns (low: nat)
    requires Sound(dirs, 0, 0) && IsFloor(dirs, PiIdx(index), spi)
    requires w < index && MarkAt(dirs, w) != NotMine
    requires forall j: nat :: MarkAt(dirs, j) != NotMine ==> j < index
    ensures low < index && PiIdx(low) == spi && MarkAt(dirs, low) != NotMine
  {
    assert PiIdx(w) <= PiIdx(index);
    if PiIdx(w) == spi {
      low := w;
    } else {
      assert Counted(dirs, spi, 0, 0);
      var base := dirs[spi].base;
      MappedNone(base);
      var o :| 0 <= o < |base| && base[o] != NotMine;
      low := spi * PDI_MOD + o;
      assert PiIdx(low) == spi && PiOff(low) == o;
      assert MarkAt(dirs, low) == base[o];
    }
  }

  /** Mapped pages lie up to the end of directory spi, or up to index if that is in it. */
  lemma FloorBound(dirs: Dirs, index: nat, spi: int, top: nat, j: nat)
    requires IsFloor(dirs, PiIdx(index), spi) && MarkAt(dirs, j) != NotMine && j < index && spi >= 0
    requires top == if spi < PiIdx(index) then (spi + 1) * PDI_MOD - 1 else index
    ensures j <= top
  {
    assert PiIdx(j) <= PiIdx(index);
    assert PiIdx(j) <= spi;
  }

  /** The directory page of greatest index not above k, where there is a head page 0. */
  function FloorOf(dirs: Dirs, k: nat): (pi: nat)
    ensures pi <= k && (0 in dirs ==> IsFloor(dirs, k, pi))
  {
    if k in dirs || k == 0 then k else FloorOf(dirs, k - 1)
  }

  /** The page whose mark is read for page `index`: the page itself, or, if its directory page does not
      exist, the one at the same place in the directory page that the lookup ends at. */
  function Shadow(dirs: Dirs, index: nat): nat { FloorOf(dirs, PiIdx(index)) * PDI_MOD + PiOff(index) }

  lemma ShadowAt(dirs: Dirs, index: nat)
    ensures PiIdx(Shadow(dirs, index)) == FloorOf(dirs, PiIdx(index)) && PiOff(Shadow(dirs, index)) == PiOff(index)
    ensures PiIdx(index) in dirs ==> Shadow(dirs, index) == index
    ensures 0 in dirs && Shadow(dirs, index) == index ==> PiIdx(index) in dirs
  {
  }

  /** Entering the pages [index, lindex] takes a new directory page. */
  ghost predicate NeedsDirs(dirs: Dirs, index: nat, lindex: nat) {
    PiIdx(index) < PiIdx(lindex) || PiIdx(index) !in dirs
  }

  class Directory {
    var dirs: Dirs
    /** Caches of the last and the previously referenced directory page. */
    var lastDir: int
    var prevDir: int

    ghost predicate HintsOk()
      reads this
    {
      (lastDir == NIL || lastDir in dirs) && (prevDir == NIL || prevDir in dirs)
    }

    ghost predicate Valid()
      reads this
    {
      Sound(dirs, 0, 0) && HintsOk()
    }

    /** malloc_init: one head directory page, whose count covers the unused indices. */
    constructor ()
      ensures Valid()
      ensures dirs.Keys == {0} && forall j: nat :: MarkAt(dirs, j) == NotMine
    {
      dirs := map[0 := Dir(PAGESHIFT, seq(PDI_MOD, _ => NotMine), NIL, NIL)];
      lastDir, prevDir := 0, NIL;
      new;
      MappedNone(dirs[0].base);
      assert Counted(dirs, 0, 0, 0);
    }

    /** pdir_lookup. The conditional that picks the starting hint parses in C as
        (last > pidx) ? last - pidx : ((pidx - last < (prev > pidx)) ? prev - pidx : pidx - prev),
        so it is not a comparison of distances; the answer does not depend on it. */
    method PdirLookup(index: nat) returns (r: int, pdi: int)
      requires Linked(dirs) && Keyed(dirs) && HintsOk()
      ensures IsFloor(dirs, PiIdx(index), pdi)
      ensures r == if PiIdx(index) in dirs then 0 else -1
    {
      var pidx := PiIdx(index);
      if lastDir != NIL && PdIdx(dirs[lastDir].dirnum) == pidx {
        pdi := lastDir;
      } else if prevDir != NIL && PdIdx(dirs[prevDir].dirnum) == pidx {
        pdi := prevDir;
      } else if lastDir != NIL && prevDir != NIL {
        var last: int := PdIdx(dirs[lastDir].dirnum);
        var prev: int := PdIdx(dirs[prevDir].dirnum);
        var choice: int := if last > pidx then last - pidx
                      else if pidx - last < (if prev > pidx then 1 else 0) then prev - pidx
                      else pidx - prev;
        pdi := if choice != 0 then lastDir else prevDir;
        if PdIdx(dirs[pdi].dirnum) > pidx {
          pdi := ScanDown(pidx, pdi);
        } else {
          pdi := ScanUp(pidx, pdi);
        }
      } else {
        pdi := ScanUp(pidx, 0);
      }
      r := if PdIdx(dirs[pdi].dirnum) == pidx then 0
           else if PdIdx(dirs[pdi].dirnum) > pidx then 1 else -1;
    }

    /** The walk along next, from a directory page not above the target. */
    method ScanUp(pidx: nat, start: int) returns (pdi: int)
      requires Linked(dirs) && Keyed(dirs) && start in dirs && start <= pidx
      ensures IsFloor(dirs, pidx, pdi)
    {
      pdi := start;
      assert NodeLinked(dirs, pdi);
      var spi := dirs[pdi].next;
      while spi != NIL && PdIdx(dirs[spi].dirnum) <= pidx
        invariant pdi in dirs && pdi <= pidx && NodeLinked(dirs, pdi) && spi == dirs[pdi].next
        decreases pidx - pdi
      {
        pdi := spi;
        assert NodeLinked(dirs, pdi);
        spi := dirs[spi].next;
      }
    }

    /** The walk along prev, from a directory page above the target. */
    method ScanDown(pidx: nat, start: int) returns (pdi: int)
      requires Linked(dirs) && Keyed(dirs) && start in dirs && start > pidx
      ensures IsFloor(dirs, pidx, pdi)
    {
      pdi := start;
      assert NodeLinked(dirs, pdi);
      var spi := dirs[pdi].prev;
      while spi != NIL && PdIdx(dirs[spi].dirnum) > pidx
        invariant pdi in dirs && pdi > pidx && NodeLinked(dirs, pdi) && spi == dirs[pdi].prev
        decreases pdi
      {
        pdi := spi;
        assert NodeLinked(dirs, pdi);
        spi := dirs[spi].prev;
      }
      if spi != NIL {
        pdi := spi;
      }
    }

    /** One round of map_pages' loop: the directory page of index idx is the one at hand, pi, or is
        made and linked in after spi; its count grows by the pages of the region that fall to it. */
    method EnterDir(index: nat, lindex: nat, idx: nat, spi: int, pi: int, cnt: nat)
      returns (pi': int, cnt': nat)
      requires PAGESHIFT <= index <= lindex && PiIdx(index) <= idx <= PiIdx(lindex)
      requires Sound(dirs, index, Max(index, idx * PDI_MOD)) && HintsOk()
      requires Unmarked(dirs, index, lindex)
      requires pi == NIL || pi in dirs
      requires if idx in dirs then pi == idx else pi != idx && IsFloor(dirs, idx, spi)
      modifies this
      ensures pi' == idx && HintsOk()
      ensures Sound(dirs, index, Min(lindex + 1, (idx + 1) * PDI_MOD))
      ensures dirs.Keys == old(dirs.Keys) + {idx}
      ensures SameMarks(old(dirs), dirs)
      ensures cnt' == cnt + if idx in old(dirs) then 0 else 1
      ensures if idx == PiIdx(index) && idx != old(lastDir) then lastDir == idx && prevDir == old(lastDir)
              else unchanged(`lastDir, `prevDir)
    {
      hide Linked, AllCounted, HeadClear, SameMarks, Unmarked, Share;
      pi', cnt' := pi, cnt;
      CountedKeyed(dirs, index, Max(index, idx * PDI_MOD));
      EnterKeeps(dirs, index, lindex, idx, spi);
      if pi' == NIL || PdIdx(dirs[pi'].dirnum) != idx {
        cnt' := cnt' + 1;
        dirs := InsertDir(dirs, idx, spi);
        pi' := idx;
      }
      dirs := Bump(dirs, pi', Share(index, lindex, idx));
      assert dirs == Entered(old(dirs), index, lindex, idx, spi);
      if idx == PiIdx(index) && pi' != lastDir {
        prevDir := lastDir;
        lastDir := pi';
      }
    }

    /** The part of map_pages that enters a new region into the directory: directory pages are made
        for the indices that have none, from one block of ndirs pages, and every count is raised by
        the pages that fall to it. The block's request to the system succeeds iff blockOk. */
    method MapRange(index: nat, lindex: nat, blockOk: bool) returns (ok: bool)
      requires Valid() && PAGESHIFT <= index <= lindex
      requires Unmarked(dirs, index, lindex)
      modifies this
      ensures SameMarks(old(dirs), dirs)
      ensures ok ==> Sound(dirs, index, lindex + 1) && HintsOk()
      ensures ok ==> forall k :: PiIdx(index) <= k <= PiIdx(lindex) ==> k in dirs
      ensures !ok ==> dirs == old(dirs) && lastDir == old(lastDir) && prevDir == old(prevDir)
      ensures !ok <==> !blockOk && NeedsDirs(old(dirs), index, lindex)
    {
      var pidx, lidx := PiIdx(index), PiIdx(lindex);
      CountedKeyed(dirs, 0, 0);
      var ndirs := lidx - pidx;
      var r, pi := PdirLookup(index);
      if r != 0 {
        ndirs := ndirs + 1;
      }
      if ndirs > 0 && !blockOk {
        return false;
      }
      var cnt := 0;
      var idx, spi := pidx, pi;
      NonePending(dirs, index);
      while idx <= lidx
        invariant pidx <= idx <= lidx + 1
        invariant Sound(dirs, index, Max(index, Min(lindex + 1, idx * PDI_MOD))) && HintsOk()
        invariant SameMarks(old(dirs), dirs)
        invariant forall k :: pidx <= k < idx ==> k in dirs
        invariant idx == pidx ==> spi == pi && IsFloor(dirs, pidx, pi) && (r == 0 <==> pidx in dirs)
        invariant idx > pidx ==> spi == idx - 1 && pi == dirs[spi].next
        invariant 0 <= cnt <= idx - pidx && (r == 0 && idx > pidx ==> cnt < idx - pidx)
      {
        if idx > pidx { assert NodeLinked(dirs, spi); }
        pi, cnt := EnterDir(index, lindex, idx, spi, pi, cnt);
        spi := pi;
        pi := dirs[spi].next;
        idx := idx + 1;
      }
      assert cnt <= ndirs;
      ok := true;
    }

    /** pd[PI_OFF(j)] = m, for a mark that means "mapped". */
    method Store(j: nat, m: Mark, ghost lo: nat, ghost hi: nat) returns (ghost lo': nat)
      requires Sound(dirs, lo, hi) && PAGESHIFT <= j && PiIdx(j) in dirs && m != NotMine
      requires MarkAt(dirs, j) == NotMine ==> lo == j < hi
      modifies this`dirs
      ensures Sound(dirs, lo', hi) && lo' == if old(MarkAt(dirs, j)) == NotMine then lo + 1 else lo
      ensures dirs.Keys == old(dirs.Keys) && Stored(old(dirs), dirs, j, m)
    {
      MarkStep(dirs, j, m, lo, hi);
      lo' := if MarkAt(dirs, j) == NotMine then lo + 1 else lo;
      dirs := Put(dirs, j, m);
    }

    /** pdir_lookup, after which the result becomes the most recently referenced directory page. */
    method Touch(index: nat) returns (pi: int)
      requires Linked(dirs) && Keyed(dirs) && HintsOk()
      modifies this`lastDir, this`prevDir
      ensures IsFloor(dirs, PiIdx(index), pi) && HintsOk()
      ensures lastDir == pi && prevDir == if pi == old(lastDir) then old(prevDir) else old(lastDir)
    {
      var r;
      r, pi := PdirLookup(index);
      if pi != lastDir {
        prevDir := lastDir;
        lastDir := pi;
      }
    }

    /** Enter the next page of a run, stepping to the next directory page if need be. */
    method Extend(pi: int, j: nat, m: Mark, ghost start: Dirs, ghost index: nat, ghost size: nat,
                  ghost lo: nat, ghost hi: nat)
      returns (pi': int, ghost lo': nat)
      requires Sound(dirs, lo, hi) && PAGESHIFT <= j && PiIdx(j) in dirs && index < j
      requires pi == PiIdx(j - 1) && pi in dirs && m == RunMark(index, size, j)
      requires MarkAt(dirs, j) == NotMine ==> lo == j < hi
      requires RunEntered(start, dirs, index, size, j)
      modifies this`dirs
      ensures Sound(dirs, lo', hi) && lo' == if MarkAt(start, j) == NotMine then lo + 1 else lo
      ensures dirs.Keys == old(dirs.Keys) && pi' == PiIdx(j)
      ensures RunEntered(start, dirs, index, size, j + 1)
    {
      pi' := Advance(pi, j);
      ghost var dirs1 := dirs;
      lo' := Store(j, m, lo, hi);
      RunGrows(start, dirs1, dirs, index, size, j);
    }

    /** The FOLLOW marks of a run, from its second page on. */
    method MarkFollowers(pi: int, index: nat, size: nat, ghost start: Dirs, ghost lo: nat, ghost hi: nat)
      returns (pi': int, ghost lo': nat)
      requires PAGESHIFT <= index && size > 0 && Sound(dirs, lo, hi) && pi == PiIdx(index) && pi in dirs
      requires forall j :: index < j < index + size ==> PiIdx(j) in dirs
      requires forall j :: index < j < index + size ==>
                 if lo < hi then MarkAt(start, j) == NotMine else MarkAt(start, j) != NotMine
      requires lo < hi ==> lo == index + 1 && index + size <= hi
      requires RunEntered(start, dirs, index, size, index + 1)
      modifies this`dirs
      ensures dirs.Keys == old(dirs.Keys) && pi' == PiIdx(index + size - 1)
      ensures Sound(dirs, lo', hi) && lo' == if lo < hi then index + size else lo
      ensures RunEntered(start, dirs, index, size, index + size)
    {
      pi', lo' := pi, lo;
      var i := 1;
      while i < size
        invariant 1 <= i <= size && dirs.Keys == old(dirs.Keys)
        invariant Sound(dirs, lo', hi) && lo' == if lo < hi then index + i else lo
        invariant RunEntered(start, dirs, index, size, index + i)
        invariant pi' == PiIdx(index + i - 1)
      {
        pi', lo' := Extend(pi', index + i, Follow, start, index, size, lo', hi);
        i := i + 1;
      }
    }

    /** The part of malloc_pages that marks a run: FIRST, then FOLLOW, then FIRST for a guard page. */
    method MarkRun(index: nat, size: nat, guard: bool, ghost lo: nat, ghost hi: nat)
      requires PAGESHIFT <= index && size > 0 && HintsOk() && Sound(dirs, lo, hi)
      requires forall j :: index <= j < RunEnd(index, size, guard) ==> PiIdx(j) in dirs
      requires forall j :: index <= j < RunEnd(index, size, guard) ==>
                 if lo < hi then MarkAt(dirs, j) == NotMine else MarkAt(dirs, j) != NotMine
      requires lo < hi ==> lo == index && hi == RunEnd(index, size, guard)
      modifies this
      ensures Valid() && dirs.Keys == old(dirs.Keys)
      ensures RunEntered(old(dirs), dirs, index, size, RunEnd(index, size, guard))
    {
      hide Linked, AllCounted, HeadClear, MarkAt, Keyed;
      CountedKeyed(dirs, lo, hi);
      ghost var start := dirs;
      var pi := Touch(index);
      ghost var at := Store(index, First, lo, hi);
      RunGrows(start, start, dirs, index, size, index);
      pi, at := MarkFollowers(pi, index, size, start, at, hi);
      if guard {
        pi, at := Extend(pi, index + size, First, start, index, size, at, hi);
      }
      NothingPending(dirs, at, hi);
    }

    /** Step the cursor to the directory page of index j, which exists, from that of index j - 1. */
    method Advance(pi: int, j: nat) returns (pi': int)
      requires j > 0 && Linked(dirs) && pi == PiIdx(j - 1) && pi in dirs && PiIdx(j) in dirs
      ensures pi' == PiIdx(j)
    {
      pi' := pi;
      if PiOff(j) == 0 {
        assert PiIdx(j) == PiIdx(j - 1) + 1;
        NextDir(dirs, pi);
        pi' := dirs[pi].next;
      }
    }

    /** Step the cursor to the directory page of index j from that of index j - 1; NIL if there is none. */
    method Cross(pi: int, j: nat) returns (pi': int)
      requires j > 0 && Linked(dirs) && Keyed(dirs) && pi == PiIdx(j - 1) && pi in dirs
      ensures pi' == if PiIdx(j) in dirs then PiIdx(j) else NIL
    {
      pi' := pi;
      if PiOff(j) == 0 {
        assert PiIdx(j) == PiIdx(j - 1) + 1;
        assert NodeLinked(dirs, pi);
        pi' := dirs[pi].next;
        if pi' == NIL || PdIdx(dirs[pi'].dirnum) != PiIdx(j) {
          pi' := NIL;
        }
      }
    }

    /** The FOLLOW scan of irealloc: the size in bytes of the run at index. */
    method RunBytes(index: nat, ghost n: nat) returns (osize: nat)
      requires Valid() && IsRun(dirs, index, n)
      ensures osize == n * PAGESIZE
    {
      CountedKeyed(dirs, 0, 0);
      var r, pi := PdirLookup(index);
      var i := index + 1;
      osize := PAGESIZE;
      pi := Cross(pi, i);
      while pi != NIL && dirs[pi].base[PiOff(i)] == Follow
        invariant index < i <= index + n && osize == (i - index) * PAGESIZE
        invariant pi == if PiIdx(i) in dirs then PiIdx(i) else NIL
        decreases index + n - i
      {
        assert MarkAt(dirs, i) == Follow;
        osize := osize + PAGESIZE;
        i := i + 1;
        pi := Cross(pi, i);
      }
      assert MarkAt(dirs, i) != Follow;
    }

    /** The FOLLOW scan of free_pages, which marks the run at index and its guard page free; i is the
        number of pages found and spi the directory page of the first. */
    method FreeMarks(index: nat, guard: bool, ghost n: nat) returns (i: nat, spi: int)
      requires Valid() && PAGESHIFT <= index && IsRun(dirs, index, n)
      requires guard ==> MarkAt(dirs, index + n) != NotMine
      modifies this`dirs
      ensures Valid() && dirs.Keys == old(dirs.Keys)
      ensures i == n && spi == PiIdx(index)
      ensures Freed(old(dirs), dirs, index, RunEnd(index, n, guard))
    {
      CountedKeyed(dirs, 0, 0);
      var r, pi := PdirLookup(index);
      spi := pi;
      i, pi := FreeFollowers(pi, index, n);
      if guard {
        ghost var dirs1 := dirs;
        ghost var lo := Store(index + i, Free, 0, 0);
        FreedGrows(old(dirs), dirs1, dirs, index, index + n);
      }
    }

    /** The loop of that scan: pi ends as the directory page of the page behind the run, if any. */
    method FreeFollowers(pi: int, index: nat, ghost n: nat) returns (i: nat, pi': int)
      requires Sound(dirs, 0, 0) && PAGESHIFT <= index && IsRun(dirs, index, n)
      requires pi == PiIdx(index)
      modifies this`dirs
      ensures Sound(dirs, 0, 0) && dirs.Keys == old(dirs.Keys) && i == n
      ensures pi' == if PiIdx(index + n) in dirs then PiIdx(index + n) else NIL
      ensures Freed(old(dirs), dirs, index, index + n)
    {
      ghost var start := dirs;
      ghost var dirs1 := dirs;
      ghost var lo := Store(index, Free, 0, 0);
      FreedGrows(start, dirs1, dirs, index, index);
      i, pi' := 1, pi;
      CountedKeyed(dirs, 0, 0);
      pi' := Cross(pi', index + i);
      while pi' != NIL && dirs[pi'].base[PiOff(index + i)] == Follow
        invariant 0 < i <= n && Sound(dirs, 0, 0) && dirs.Keys == start.Keys
        invariant pi' == if PiIdx(index + i) in dirs then PiIdx(index + i) else NIL
        invariant Freed(start, dirs, index, index + i)
        decreases n - i
      {
        assert MarkAt(dirs, index + i) == Follow;
        i, pi' := FreeOne(pi', index, i, start);
      }
      assert MarkAt(dirs, index + i) != Follow;
    }

    method FreeOne(pi: int, index: nat, i: nat, ghost start: Dirs) returns (i': nat, pi': int)
      requires Sound(dirs, 0, 0) && PAGESHIFT <= index && MarkAt(dirs, index + i) == Follow
      requires pi == PiIdx(index + i) && Freed(start, dirs, index, index + i)
      modifies this`dirs
      ensures Sound(dirs, 0, 0) && dirs.Keys == old(dirs.Keys) && i' == i + 1
      ensures pi' == if PiIdx(index + i') in dirs then PiIdx(index + i') else NIL
      ensures Freed(start, dirs, index, index + i')
    {
      ghost var dirs1 := dirs;
      ghost var lo := Store(index + i, Free, 0, 0);
      FreedGrows(start, dirs1, dirs, index, index + i);
      i' := i + 1;
      CountedKeyed(dirs, 0, 0);
      pi' := Cross(pi, index + i');
    }

    /** The search for directory pidx, which exists, along next from an earlier directory page. */
    method FindFrom(start: int, pidx: nat) returns (pi: int)
      requires Linked(dirs) && Keyed(dirs) && start in dirs && start <= pidx && pidx in dirs
      ensures pi == pidx
    {
      pi := start;
      while pi != NIL && PdIdx(dirs[pi].dirnum) < pidx
        invariant pi in dirs && pi <= pidx
        decreases pidx - pi
      {
        assert NodeLinked(dirs, pi);
        pi := dirs[pi].next;
      }
    }

    /** Unlink directory page pi; spi follows if it was the same page. */
    method Unlink(pi: int, spi: int, ghost pidx: nat) returns (pi': int, spi': int)
      requires Draining(dirs, pi) && pi in dirs && PdOff(dirs[pi].dirnum) == 0
      requires IsFloor(dirs, pidx, spi) && pi >= pidx
      modifies this`dirs
      ensures Sound(dirs, 0, 0) && dirs.Keys == old(dirs.Keys) - {pi} && SameMarks(old(dirs), dirs)
      ensures IsFloor(dirs, pidx, spi') && IsCeiling(dirs, pi, pi')
    {
      DrainedDir(dirs, pi);
      assert NodeLinked(dirs, pi);
      spi' := if spi == pi then dirs[pi].prev else spi;
      pi' := dirs[pi].next;
      dirs := RemoveDir(dirs, pi);
    }

    /** One round of the clearing loop of free_pages. */
    method SweepOne(index: nat, i: nat, pi: int, spi: int, ghost start: Dirs) returns (pi': int, spi': int)
      requires PAGESHIFT <= index && Sweep(start, dirs, index, i, pi, spi) && MarkAt(start, i) != NotMine
      modifies this`dirs
      ensures Sweep(start, dirs, index, i + 1, pi', spi')
    {
      hide Linked, AllCounted, HeadClear, Draining, Erased, IsFloor, MarkAt;
      pi', spi' := pi, spi;
      SweepDrop(start, dirs, index, i, pi, spi);
      dirs := Drop(dirs, i);
      ghost var dropped := dirs;
      if PiOff(i + 1) != 0 {
        SweepGoes(start, dirs, index, i, pi, spi);
      } else {
        DrainedDir(dirs, pi);
        if PdOff(dirs[pi].dirnum) == 0 {
          pi', spi' := Unlink(pi, spi, PiIdx(index));
        } else {
          NextIsCeiling(dirs, pi);
          pi' := dirs[pi].next;
        }
        SweepCrosses(start, dropped, dirs, index, i, pi, pi', spi');
      }
    }

    /** The part of free_pages that takes the pages [index, lidx], which are unmapped, out of the
        directory; first is a directory page not behind that of index. pi is NIL if nothing mapped is
        left behind lidx, and spi is the last directory page up to that of index. */
    method Unmap(index: nat, lidx: nat, first: int) returns (pi: int, spi: int)
      requires Sound(dirs, 0, 0) && PAGESHIFT <= index <= lidx && first in dirs && first <= PiIdx(index)
      requires forall j :: index <= j <= lidx ==> MarkAt(dirs, j) != NotMine
      modifies this`dirs
      ensures Sound(dirs, 0, 0) && Erased(old(dirs), dirs, index, lidx + 1)
      ensures forall k :: k in old(dirs) && k < PiIdx(index) ==> k in dirs
      ensures IsFloor(dirs, PiIdx(index), spi)
      ensures IsCeiling(dirs, PiIdx(lidx + 1), pi)
      ensures pi == NIL ==> forall j :: j > lidx ==> MarkAt(dirs, j) == NotMine
    {
      hide Counted, NodeLinked, HeadClear, Linked, AllCounted, Sweep;
      ghost var start := dirs;
      var pidx := PiIdx(index);
      CountedKeyed(dirs, 0, 0);
      assert MarkAt(dirs, index) != NotMine;
      pi := FindFrom(first, pidx);
      spi := pi;
      SweepStarts(dirs, index);
      var i := index;
      while i <= lidx
        invariant index <= i <= lidx + 1 && Sweep(start, dirs, index, i, pi, spi)
      {
        pi, spi := SweepOne(index, i, pi, spi, start);
        i := i + 1;
        SweepKeyed(start, dirs, index, i, pi, spi);
        if PiOff(i) == 0 && (pi == NIL || PdIdx(dirs[pi].dirnum) != PiIdx(i)) {
          SweepStops(start, dirs, index, i, pi, spi, lidx);
          break;
        }
      }
      pi, spi := SweepEnd(index, i, pi, spi, start);
    }

    /** Behind the loop, the directory page at hand may have run empty. */
    method SweepEnd(index: nat, i: nat, pi: int, spi: int, ghost start: Dirs) returns (pi': int, spi': int)
      requires index < i && Sweep(start, dirs, index, i, pi, spi)
      modifies this`dirs
      ensures Sound(dirs, 0, 0) && Erased(start, dirs, index, i)
      ensures forall k :: k in start && k < PiIdx(index) ==> k in dirs
      ensures IsFloor(dirs, PiIdx(index), spi') && IsCeiling(dirs, PiIdx(i), pi')
      ensures pi' == NIL ==> forall j :: j >= i ==> MarkAt(dirs, j) == NotMine
    {
      pi', spi' := pi, spi;
      SweepKeyed(start, dirs, index, i, pi, spi);
      if pi != NIL && PdOff(dirs[pi].dirnum) == 0 {
        pi', spi' := Unlink(pi, spi, PiIdx(index));
      }
    }

    method SetHints(last: int, prev: int)
      modifies this`lastDir, this`prevDir
      ensures lastDir == last && prevDir == prev
    {
      lastDir, prevDir := last, prev;
    }

    /** Forget the older reference if its directory page may be unlinked. */
    method ForgetFrom(pidx: nat)
      requires Keyed(dirs) && HintsOk()
      modifies this`prevDir
      ensures prevDir == if old(prevDir) >= pidx then NIL else old(prevDir)
    {
      if prevDir != NIL && PdIdx(dirs[prevDir].dirnum) >= pidx {
        prevDir := NIL;
      }
    }

    /** The greatest mapped page, searched downwards in directory page spi, the last one up to that of
        index, when nothing from index on is mapped but something below is. */
    method LastMapped(index: nat, spi: int, ghost w: nat) returns (i: nat)
      requires Sound(dirs, 0, 0) && IsFloor(dirs, PiIdx(index), spi)
      requires w < index && MarkAt(dirs, w) != NotMine
      requires forall j: nat :: MarkAt(dirs, j) != NotMine ==> j < index
      ensures MarkAt(dirs, i) != NotMine
      ensures forall j: nat :: MarkAt(dirs, j) != NotMine ==> j <= i
    {
      ghost var low := MappedInFloor(dirs, index, spi, w);
      CountedKeyed(dirs, 0, 0);
      i := if PdIdx(dirs[spi].dirnum) < PiIdx(index) then (PdIdx(dirs[spi].dirnum) + 1) * PDI_MOD - 1 else index;
      assert PiIdx(i) == spi;
      ghost var top := i;
      while dirs[spi].base[PiOff(i)] == NotMine
        invariant low <= i <= top && PiIdx(i) == spi
        invariant forall j: nat :: i < j <= top ==> MarkAt(dirs, j) == NotMine
        decreases i
      {
        assert MarkAt(dirs, i) == NotMine;
        SameDirBetween(low, i - 1, top);
        i := i - 1;
      }
      assert MarkAt(dirs, i) != NotMine;
      forall j: nat | MarkAt(dirs, j) != NotMine ensures j <= i {
        FloorBound(dirs, index, spi, top, j);
      }
    }
  }
}
