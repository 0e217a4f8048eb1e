/** The two-level page directory of the allocator: directory pages (`struct pdinfo`) that sit in a
    doubly linked list, each holding the marks of pdi_mod consecutive pages. */
module PageDirectory {

  const PAGESIZE := 4096
  const PAGESHIFT := 12
  /** How many marks one directory page holds: (4096 - sizeof(struct pdinfo)) / sizeof(void *). */
  const PDI_MOD := 508
  /** The radix with which dirnum packs a directory index and a page count. */
  const PD_RADIX := 512
  /** The NULL pointer among directory pages. */
  const NIL := -1

  /** What a directory slot says of its page. Chunk stands for a pointer to a struct pginfo. */
  datatype Mark = NotMine | Free | First | Follow | Chunk

  /** One directory page; directory pages are named by the key under which they are stored, and
      prev and next are such keys or NIL. */
  datatype Dir = Dir(dirnum: nat, base: seq<Mark>, prev: int, next: int)

  type Dirs = map<int, Dir>

  /** A directory page is a page of 8-byte slots, as many as the 32 bytes of a struct pdinfo leave. dirnum counts in
      units of all the slots that a page has room for. */
  lemma SlotsOfPage()
    ensures 8 * PDI_MOD + 32 == 8 * PD_RADIX == PAGESIZE == 4096 && PAGESHIFT == 12
  {
  }

  function PdIdx(num: nat): nat { num / PD_RADIX }

  function PdOff(num: nat): nat { num % PD_RADIX }

  function PiIdx(index: nat): nat { index / PDI_MOD }

  function PiOff(index: nat): (r: nat)
    ensures r < PDI_MOD
  {
    index % PDI_MOD
  }

  /** The directory as a flat table: the mark of page `index`, NotMine when it has no directory. */
  function MarkAt(dirs: Dirs, index: nat): Mark {
    var k := PiIdx(index);
    if k in dirs && |dirs[k].base| == PDI_MOD then dirs[k].base[PiOff(index)] else NotMine
  }

  /** Store mark m for page `index`, which has a directory. */
  function Put(dirs: Dirs, index: nat, m: Mark): Dirs
    requires PiIdx(index) in dirs && |dirs[PiIdx(index)].base| == PDI_MOD
  {
    var d := dirs[PiIdx(index)];
    dirs[PiIdx(index) := d.(base := d.base[PiOff(index) := m])]
  }

  // ----- The list of directory pages -----

  /** Among keys, prev and next are the nearest smaller and the nearest greater neighbour of k. */
  ghost predicate Between(keys: set<int>, prev: int, k: int, next: int) {
    && (next == NIL || (next in keys && next > k))
    && (prev == NIL || (prev in keys && prev < k))
    && (forall m :: m in keys && m > k ==> next != NIL && next <= m)
    && (forall m :: m in keys && m < k ==> prev != NIL && m <= prev)
  }

  ghost predicate NodeLinked(dirs: Dirs, k: int)
    requires k in dirs
  {
    Between(dirs.Keys, dirs[k].prev, k, dirs[k].next)
  }

  /** The list runs through all directory pages in strictly increasing order, from the head page 0. */
  ghost predicate Linked(dirs: Dirs) {
    && 0 in dirs
    && (forall k :: k in dirs ==> k >= 0 && |dirs[k].base| == PDI_MOD)
    && (forall k {:trigger NodeLinked(dirs, k)} :: k in dirs ==> NodeLinked(dirs, k))
  }

  /** The greatest key not above pidx. */
  ghost predicate IsFloor(dirs: Dirs, pidx: nat, k: int) {
    k in dirs && k <= pidx && forall m :: m in dirs && m <= pidx ==> m <= k
  }

  // ----- Page counts -----

  /** How many pages of a directory page are mapped according to its marks. */
  function Mapped(base: seq<Mark>): nat {
    if base == [] then 0 else (if base[0] == NotMine then 0 else 1) + Mapped(base[1..])
  }

  /** How many pages of [lo, hi) fall to directory k. */
  function Overlap(k: int, lo: int, hi: int): nat {
    var a := if lo < k * PDI_MOD then k * PDI_MOD else lo;
    var b := if hi < k * PDI_MOD + PDI_MOD then hi else k * PDI_MOD + PDI_MOD;
    if a < b then b - a else 0
  }

  /** The head directory counts the pages that index arithmetic never produces. */
  function HeadCount(k: int): nat { if k == 0 then PAGESHIFT else 0 }

  /** The pages of directory k that are mapped, those of [lo, hi) being mapped but still unmarked. */
  function PageCount(dirs: Dirs, k: int, lo: int, hi: int): nat
    requires k in dirs
  {
    Mapped(dirs[k].base) + Overlap(k, lo, hi) + HeadCount(k)
  }

  /** dirnum packs the key and the page count, and the count leaves the key intact. */
  ghost predicate Packed(dirs: Dirs, k: int, lo: int, hi: int)
    requires k in dirs
  {
    && dirs[k].dirnum == k * PD_RADIX + PageCount(dirs, k, lo, hi)
    && PageCount(dirs, k, lo, hi) <= PDI_MOD
  }

  /** As Packed, and there is a page to count. */
  ghost predicate Counted(dirs: Dirs, k: int, lo: int, hi: int)
    requires k in dirs
  {
    Packed(dirs, k, lo, hi) && PageCount(dirs, k, lo, hi) > 0
  }

  ghost predicate AllCounted(dirs: Dirs, lo: int, hi: int) {
    forall k {:trigger Counted(dirs, k, lo, hi)} :: k in dirs ==> Counted(dirs, k, lo, hi)
  }

  lemma {:induction false} MappedConcat(a: seq<Mark>, b: seq<Mark>)
    ensures Mapped(a + b) == Mapped(a) + Mapped(b)
  {
    if a == [] {
      assert a + b == b;
    } else {
      assert (a + b)[1..] == a[1..] + b;
      MappedConcat(a[1..], b);
    }
  }

  lemma {:induction false} MappedPut(base: seq<Mark>, i: nat, m: Mark)
    requires i < |base|
    ensures Mapped(base[i := m]) + (if base[i] == NotMine then 0 else 1)
         == Mapped(base) + (if m == NotMine then 0 else 1)
  {
    assert base == base[..i] + ([base[i]] + base[i + 1..]);
    assert base[i := m] == base[..i] + ([m] + base[i + 1..]);
    MappedConcat(base[..i], [base[i]] + base[i + 1..]);
    MappedConcat(base[..i], [m] + base[i + 1..]);
  }

  lemma {:induction false} MappedNone(base: seq<Mark>)
    ensures Mapped(base) == 0 <==> forall i :: 0 <= i < |base| ==> base[i] == NotMine
    ensures Mapped(base) <= |base|
  {
    if base != [] {
      MappedNone(base[1..]);
      assert forall i :: 0 < i < |base| ==> base[i] == base[1..][i - 1];
      assert forall i :: 0 <= i < |base| - 1 ==> base[1..][i] == base[i + 1];
    }
  }

  /** Pages without a mark leave that many slots uncounted. */
  lemma MappedRoom(base: seq<Mark>, a: nat, b: nat)
    requires a <= b <= |base|
    requires forall i :: a <= i < b ==> base[i] == NotMine
    ensures Mapped(base) + (b - a) <= |base|
  {
    assert base == base[..a] + (base[a..b] + base[b..]);
    MappedConcat(base[..a], base[a..b] + base[b..]);
    MappedConcat(base[a..b], base[b..]);
    MappedNone(base[..a]);
    MappedNone(base[a..b]);
    MappedNone(base[b..]);
  }

  lemma IndexSplit(i: nat, j: nat)
    requires PiIdx(i) == PiIdx(j) && PiOff(i) == PiOff(j)
    ensures i == j
  {
  }

  /** A store changes one entry of the flat table, and the count of one directory page. */
  lemma PutMark(dirs: Dirs, index: nat, m: Mark)
    requires PiIdx(index) in dirs && |dirs[PiIdx(index)].base| == PDI_MOD
    ensures forall j: nat :: MarkAt(Put(dirs, index, m), j) == if j == index then m else MarkAt(dirs, j)
  {
    forall j: nat ensures MarkAt(Put(dirs, index, m), j) == if j == index then m else MarkAt(dirs, j) {
      if PiIdx(j) == PiIdx(index) && PiOff(j) == PiOff(index) {
        IndexSplit(index, j);
      }
    }
  }

  lemma PutLinked(dirs: Dirs, index: nat, m: Mark)
    requires Linked(dirs) && PiIdx(index) in dirs
    ensures Linked(Put(dirs, index, m))
  {
    var dirs' := Put(dirs, index, m);
    assert dirs'.Keys == dirs.Keys;
    forall k | k in dirs' ensures NodeLinked(dirs', k) {
      assert NodeLinked(dirs, k);
    }
  }

  /** The slots of the head directory below the first page index hold no marks. */
  ghost predicate HeadClear(dirs: Dirs) {
    forall j: nat :: j < PAGESHIFT ==> MarkAt(dirs, j) == NotMine
  }

  /** PD_IDX recovers the key under which a directory page is stored. */
  ghost predicate Keyed(dirs: Dirs) {
    forall k :: k in dirs ==> k >= 0 && PdIdx(dirs[k].dirnum) == k
  }

  lemma CountedKeyed(dirs: Dirs, lo: int, hi: int)
    requires Linked(dirs) && AllCounted(dirs, lo, hi)
    ensures Keyed(dirs)
    ensures forall k :: k in dirs ==> PdOff(dirs[k].dirnum) == PageCount(dirs, k, lo, hi)
  {
    forall k | k in dirs
      ensures k >= 0 && PdIdx(dirs[k].dirnum) == k
      ensures PdOff(dirs[k].dirnum) == PageCount(dirs, k, lo, hi)
    {
      assert Counted(dirs, k, lo, hi);
      Unpack(k, PageCount(dirs, k, lo, hi));
    }
  }

  lemma Unpack(k: nat, n: nat)
    requires n <= PDI_MOD
    ensures PdIdx(k * PD_RADIX + n) == k && PdOff(k * PD_RADIX + n) == n
  {
  }

  lemma FloorUnique(dirs: Dirs, pidx: nat, a: int, b: int)
    requires IsFloor(dirs, pidx, a) && IsFloor(dirs, pidx, b)
    ensures a == b
  {
  }

  /** The first n slots of a directory page hold no marks, so they are not counted. */
  lemma SkipUnmarked(base: seq<Mark>, n: nat)
    requires n <= |base| && forall i :: 0 <= i < n ==> base[i] == NotMine
    ensures Mapped(base) == Mapped(base[n..])
  {
    assert base == base[..n] + base[n..];
    MappedConcat(base[..n], base[n..]);
    MappedNone(base[..n]);
  }

  /** The slots of directory k that stand for unused indices hold no marks. */
  lemma HeadUnmarked(dirs: Dirs, k: int)
    requires k in dirs && k >= 0 && |dirs[k].base| == PDI_MOD && HeadClear(dirs)
    ensures forall i :: 0 <= i < HeadCount(k) ==> dirs[k].base[i] == NotMine
  {
    forall i | 0 <= i < HeadCount(k) ensures dirs[k].base[i] == NotMine {
      assert MarkAt(dirs, i) == dirs[k].base[i];
    }
  }

  /** The slots of directory k for pages of [lo, hi) hold no marks if those pages have none. */
  lemma SlotsUnmarked(dirs: Dirs, k: int, lo: nat, hi: nat, i: nat)
    requires k in dirs && k >= 0 && |dirs[k].base| == PDI_MOD && i < PDI_MOD
    requires forall j: nat :: lo <= j < hi && PiIdx(j) == k ==> MarkAt(dirs, j) == NotMine
    requires lo <= k * PDI_MOD + i < hi
    ensures dirs[k].base[i] == NotMine
  {
    var j: nat := k * PDI_MOD + i;
    assert PiIdx(j) == k && PiOff(j) == i;
    assert MarkAt(dirs, j) == dirs[k].base[i];
  }

  /** Slots of directory k outside [lo, hi), for a region of unmarked pages, bound the page count. */
  lemma CountRoom(dirs: Dirs, k: int, lo: nat, hi: nat)
    requires k in dirs && k >= 0 && |dirs[k].base| == PDI_MOD && HeadClear(dirs)
    requires lo >= PAGESHIFT
    requires forall j: nat :: lo <= j < hi && PiIdx(j) == k ==> MarkAt(dirs, j) == NotMine
    ensures PageCount(dirs, k, lo, hi) <= PDI_MOD
  {
    hide Mapped, MarkAt, HeadClear, PiIdx;
    var base, skip := dirs[k].base, HeadCount(k);
    HeadUnmarked(dirs, k);
    SkipUnmarked(base, skip);
    var n := Overlap(k, lo, hi);
    if n > 0 {
      var a := if lo < k * PDI_MOD + skip then 0 else lo - k * PDI_MOD - skip;
      forall i | a <= i < a + n ensures base[skip..][i] == NotMine {
        SlotsUnmarked(dirs, k, lo, hi, skip + i);
      }
      MappedRoom(base[skip..], a, a + n);
    } else {
      MappedNone(base[skip..]);
    }
  }

  // ----- Stores and counts -----

  /** Marking the first unmarked page of a fresh region keeps the counts. */
  lemma PutCountedFresh(dirs: Dirs, lo: nat, hi: nat, m: Mark)
    requires Linked(dirs) && AllCounted(dirs, lo, hi) && lo < hi && PiIdx(lo) in dirs
    requires MarkAt(dirs, lo) == NotMine && m != NotMine
    ensures AllCounted(Put(dirs, lo, m), lo + 1, hi)
  {
    var dirs' := Put(dirs, lo, m);
    MappedPut(dirs[PiIdx(lo)].base, PiOff(lo), m);
    forall k | k in dirs' ensures Counted(dirs', k, lo + 1, hi) {
      assert Counted(dirs, k, lo, hi);
      OverlapStep(k, lo, hi);
    }
  }

  lemma OverlapStep(k: int, lo: nat, hi: nat)
    requires lo < hi && k >= 0
    ensures Overlap(k, lo, hi) == Overlap(k, lo + 1, hi) + if k == PiIdx(lo) then 1 else 0
  {
  }

  /** Changing a mark between two values that both mean "mapped" keeps the counts. */
  lemma PutCountedSame(dirs: Dirs, index: nat, lo: int, hi: int, m: Mark)
    requires Linked(dirs) && AllCounted(dirs, lo, hi) && PiIdx(index) in dirs
    requires MarkAt(dirs, index) != NotMine && m != NotMine
    ensures AllCounted(Put(dirs, index, m), lo, hi)
  {
    var dirs' := Put(dirs, index, m);
    MappedPut(dirs[PiIdx(index)].base, PiOff(index), m);
    forall k | k in dirs' ensures Counted(dirs', k, lo, hi) {
      assert Counted(dirs, k, lo, hi);
    }
  }

  // ----- Linking and unlinking directory pages -----

  /** A cleared directory page for index k, linked in after spi. */
  function InsertDir(dirs: Dirs, k: nat, spi: int): Dirs
    requires spi in dirs && (dirs[spi].next == NIL || dirs[spi].next in dirs)
  {
    var next := dirs[spi].next;
    var blank := Dir(k * PD_RADIX, seq(PDI_MOD, _ => NotMine), spi, next);
    var dirs1 := if next == NIL then dirs else dirs[next := dirs[next].(prev := k)];
    dirs1[spi := dirs1[spi].(next := k)][k := blank]
  }

  lemma InsertShape(dirs: Dirs, k: nat, spi: int)
    requires k !in dirs && spi in dirs && (dirs[spi].next == NIL || dirs[spi].next in dirs)
    ensures InsertDir(dirs, k, spi).Keys == dirs.Keys + {k}
    ensures forall m :: m in dirs ==> SamePages(InsertDir(dirs, k, spi), dirs, m)
    ensures |InsertDir(dirs, k, spi)[k].base| == PDI_MOD && Mapped(InsertDir(dirs, k, spi)[k].base) == 0
    ensures InsertDir(dirs, k, spi)[k].dirnum == k * PD_RADIX
  {
    MappedNone(InsertDir(dirs, k, spi)[k].base);
  }

  ghost predicate SamePages(dirs': Dirs, dirs: Dirs, m: int) {
    m in dirs && m in dirs' && dirs'[m].base == dirs[m].base && dirs'[m].dirnum == dirs[m].dirnum
  }

  lemma InsertMarks(dirs: Dirs, k: nat, spi: int)
    requires k !in dirs && spi in dirs && (dirs[spi].next == NIL || dirs[spi].next in dirs)
    ensures forall j: nat :: MarkAt(InsertDir(dirs, k, spi), j) == MarkAt(dirs, j)
  {
    var dirs' := InsertDir(dirs, k, spi);
    InsertShape(dirs, k, spi);
    MappedNone(dirs'[k].base);
    forall j: nat ensures MarkAt(dirs', j) == MarkAt(dirs, j) {
      if PiIdx(j) in dirs { assert SamePages(dirs', dirs, PiIdx(j)); }
    }
  }

  lemma InsertLinks(dirs: Dirs, k: nat, spi: int, m: int)
    requires k !in dirs && spi in dirs && (dirs[spi].next == NIL || dirs[spi].next in dirs)
    requires dirs[spi].next != spi && m in dirs && m != NIL
    ensures InsertDir(dirs, k, spi)[m].next == if m == spi then k else dirs[m].next
    ensures InsertDir(dirs, k, spi)[m].prev == if m == dirs[spi].next then k else dirs[m].prev
    ensures InsertDir(dirs, k, spi)[k].next == dirs[spi].next
    ensures InsertDir(dirs, k, spi)[k].prev == spi
  {
  }

  lemma InsertNode(dirs: Dirs, k: nat, spi: int, m: int)
    requires Linked(dirs) && k !in dirs && IsFloor(dirs, k, spi)
    requires dirs[spi].next == NIL || dirs[spi].next in dirs
    requires m in dirs || m == k
    requires InsertDir(dirs, k, spi).Keys == dirs.Keys + {k}
    ensures NodeLinked(InsertDir(dirs, k, spi), m)
  {
    assert NodeLinked(dirs, spi);
    var next := dirs[spi].next;
    InsertLinks(dirs, k, spi, spi);
    if m == k {
      BetweenNew(dirs.Keys, dirs[spi].prev, spi, next, k);
    } else {
      assert NodeLinked(dirs, m);
      InsertLinks(dirs, k, spi, m);
      BetweenOld(dirs.Keys, dirs[spi].prev, spi, next, k, dirs[m].prev, m, dirs[m].next);
    }
  }

  lemma BetweenNew(keys: set<int>, prev: int, spi: int, next: int, k: int)
    requires Between(keys, prev, spi, next) && 0 <= spi < k && k !in keys && spi in keys
    requires forall m :: m in keys && m <= k ==> m <= spi
    ensures Between(keys + {k}, spi, k, next)
  {
  }

  lemma BetweenOld(keys: set<int>, prev: int, spi: int, next: int, k: int, p: int, m: int, n: int)
    requires Between(keys, prev, spi, next) && 0 <= spi < k && k !in keys && spi in keys
    requires forall x :: x in keys && x <= k ==> x <= spi
    requires forall x :: x in keys ==> x >= 0
    requires m in keys && Between(keys, p, m, n)
    ensures Between(keys + {k}, if m == next then k else p, m, if m == spi then k else n)
  {
  }

  lemma BetweenDrop(keys: set<int>, prev: int, k: int, next: int, p: int, m: int, n: int)
    requires Between(keys, prev, k, next) && k in keys && m in keys && m != k && Between(keys, p, m, n)
    requires forall x :: x in keys ==> x >= 0
    ensures Between(keys - {k}, if m == next then prev else p, m, if m == prev then next else n)
  {
  }

  /** A new directory page after the greatest smaller one keeps the list sorted and complete. */
  lemma InsertLinked(dirs: Dirs, k: nat, spi: int)
    requires Linked(dirs) && k !in dirs && IsFloor(dirs, k, spi)
    ensures dirs[spi].next == NIL || dirs[spi].next in dirs
    ensures Linked(InsertDir(dirs, k, spi))
  {
    assert NodeLinked(dirs, spi);
    var dirs' := InsertDir(dirs, k, spi);
    InsertShape(dirs, k, spi);
    forall m | m in dirs' ensures m >= 0 && |dirs'[m].base| == PDI_MOD && NodeLinked(dirs', m) {
      if m != k { assert SamePages(dirs', dirs, m); }
      InsertNode(dirs, k, spi, m);
    }
  }

  /** Directory page k is unlinked and returned to the system. */
  function RemoveDir(dirs: Dirs, k: int): Dirs
    requires k in dirs
    requires dirs[k].prev == NIL || dirs[k].prev in dirs
    requires dirs[k].next == NIL || dirs[k].next in dirs
  {
    var d := dirs[k];
    var dirs1 := if d.prev == NIL then dirs else dirs[d.prev := dirs[d.prev].(next := d.next)];
    var dirs2 := if d.next == NIL then dirs1 else dirs1[d.next := dirs1[d.next].(prev := d.prev)];
    dirs2 - {k}
  }

  ghost predicate Removable(dirs: Dirs, k: int) {
    && k in dirs && k != 0 && Mapped(dirs[k].base) == 0
    && (dirs[k].prev == NIL || dirs[k].prev in dirs)
    && (dirs[k].next == NIL || dirs[k].next in dirs)
  }

  lemma RemoveShape(dirs: Dirs, k: int)
    requires Removable(dirs, k)
    ensures RemoveDir(dirs, k).Keys == dirs.Keys - {k}
    ensures forall m :: m in dirs && m != k ==> SamePages(RemoveDir(dirs, k), dirs, m)
  {
  }

  lemma RemoveMarks(dirs: Dirs, k: int)
    requires Removable(dirs, k)
    ensures forall j: nat :: MarkAt(RemoveDir(dirs, k), j) == MarkAt(dirs, j)
  {
    RemoveShape(dirs, k);
    MappedNone(dirs[k].base);
    forall j: nat ensures MarkAt(RemoveDir(dirs, k), j) == MarkAt(dirs, j) {
      if PiIdx(j) in dirs && PiIdx(j) != k { assert SamePages(RemoveDir(dirs, k), dirs, PiIdx(j)); }
    }
  }

  lemma RemoveLinks(dirs: Dirs, k: int, m: int)
    requires Removable(dirs, k) && m in dirs && m != k && m != NIL
    requires dirs[k].prev != dirs[k].next || dirs[k].prev == NIL
    ensures RemoveDir(dirs, k)[m].next == if m == dirs[k].prev then dirs[k].next else dirs[m].next
    ensures RemoveDir(dirs, k)[m].prev == if m == dirs[k].next then dirs[k].prev else dirs[m].prev
  {
  }

  lemma RemoveNode(dirs: Dirs, k: int, m: int)
    requires Linked(dirs) && Removable(dirs, k) && m in dirs && m != k
    requires RemoveDir(dirs, k).Keys == dirs.Keys - {k}
    ensures NodeLinked(RemoveDir(dirs, k), m)
  {
    assert NodeLinked(dirs, k);
    assert NodeLinked(dirs, m);
    RemoveLinks(dirs, k, m);
    BetweenDrop(dirs.Keys, dirs[k].prev, k, dirs[k].next, dirs[m].prev, m, dirs[m].next);
  }

  /** Unlinking an empty directory page other than the head keeps the list sorted and complete. */
  lemma RemoveLinked(dirs: Dirs, k: int)
    requires Linked(dirs) && k in dirs && k != 0 && Mapped(dirs[k].base) == 0
    ensures Removable(dirs, k)
    ensures Linked(RemoveDir(dirs, k))
  {
    assert NodeLinked(dirs, k);
    var dirs' := RemoveDir(dirs, k);
    RemoveShape(dirs, k);
    forall m | m in dirs' ensures m >= 0 && |dirs'[m].base| == PDI_MOD && NodeLinked(dirs', m) {
      assert SamePages(dirs', dirs, m);
      RemoveNode(dirs, k, m);
    }
  }
}
