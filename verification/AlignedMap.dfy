/** MMAP_A: an aligned region cut out of a larger one. */
module AlignedMap {
  import opened PageDirectory
  import opened DirectoryPages
  import opened FreeLists
  import opened PageHeaps

  /** A call of munmap. */
  datatype Gone = Gone(addr: nat, bytes: nat)

  /** What a call of munmap takes: whole pages from an aligned address on. It fails, and takes nothing, if the address
      is not aligned or the pages are not all in the address space. */
  predicate Takes(g: Gone, a: nat) {
    Aligned(g.addr) && g.addr + PageRound(g.bytes) < TWO64 && g.addr <= a < g.addr + PageRound(g.bytes)
  }

  predicate InGone(gone: seq<Gone>, a: nat) {
    exists i :: 0 <= i < |gone| && Takes(gone[i], a)
  }

  /** MAP_FAILED is the greatest address there is. */
  const MAP_FAILED: nat := TWO64 - 1

  function AddressOf(ans: Mmap): nat { if ans.Mapped? then ans.addr else MAP_FAILED }

  /** A value in size_t. */
  function Word(x: int): nat { x % TWO64 }

  lemma WordIs(x: int)
    requires 0 <= x + TWO64 && x < 2 * TWO64
    ensures Word(x) == if x < 0 then x + TWO64 else if x < TWO64 then x else x - TWO64
  {
  }

  /** The size of the region that is mapped at first. */
  function FirstSize(bytes: nat, alignment: nat): nat
    requires alignment >= PAGESIZE
  {
    PageRound(bytes) + alignment - PAGESIZE
  }

  /** The first multiple of m from p on. */
  function AlignUp(p: nat, m: nat): nat
    requires m > 0
  {
    var rest := p % m;
    if rest == 0 then p else p + m - rest
  }

  lemma UpIsNear(p: nat, m: nat)
    requires Aligned(p) && m >= PAGESIZE && m % PAGESIZE == 0
    ensures AlignUp(p, m) % m == 0 && p <= AlignUp(p, m) <= p + m - PAGESIZE
  {
    NextMultiple(p, m);
    Near(p, m);
  }

  /** MMAP_A. Of what was mapped, the aligned region of the size asked for, rounded to pages, stays, and the rest is
      given back. But a failure of mmap is not noticed. Then the result is NULL, not MAP_FAILED, and whatever is mapped
      behind the address that is the rounded size is taken, as much as the alignment is more than a page. */
  method MmapA(bytes: nat, alignment: nat, ans: Mmap) returns (j: nat, gone: seq<Gone>)
    requires alignment >= PAGESIZE && alignment % PAGESIZE == 0 && TWO64 % alignment == 0
    requires AddressIn(ans) + FirstSize(bytes, alignment) < TWO64
    requires ans.Mapped? ==> Aligned(ans.addr)
    ensures ans.Mapped? ==> j % alignment == 0 && ans.addr <= j
    ensures ans.Mapped? ==> j + PageRound(bytes) <= ans.addr + FirstSize(bytes, alignment)
    ensures ans.Mapped? ==> forall a: nat :: InGone(gone, a) <==>
      (ans.addr <= a < ans.addr + FirstSize(bytes, alignment)) && !(j <= a < j + PageRound(bytes))
    ensures ans.MapFailed? ==> j == 0
    ensures ans.MapFailed? ==>
      gone == [Gone(MAP_FAILED, 1), Gone(PageRound(bytes), Word(alignment - PAGESIZE - 1))]
    ensures ans.MapFailed? ==> forall a: nat :: InGone(gone, a) <==>
      PageRound(bytes) <= a < PageRound(bytes) + alignment - PAGESIZE
  {
    hide PageRound, AlignUp, InGone, Word, Aligned;
    var pages := bytes;
    if pages % PAGESIZE != 0 {
      pages := pages - pages % PAGESIZE + PAGESIZE;
    }
    RoundsUp(bytes);
    SumAligned(pages, alignment);
    var firstSize := pages + alignment - PAGESIZE;
    var p := AddressOf(ans);
    j := Word(AlignUp(p, alignment));
    if ans.Mapped? {
      UpIsNear(p, alignment);
      WordIs(AlignUp(p, alignment));
      AlignedUp(j, alignment);
    } else {
      LastAddress(alignment);
    }
    WordIs(j - p);
    WordIs(j + pages);
    WordIs(p + firstSize - (j + pages));
    WordIs(alignment - PAGESIZE - 1);
    gone := [];
    var begin := Word(j - p);
    if begin != 0 { gone := gone + [Gone(p, begin)]; }
    var end := Word(p + firstSize - (j + pages));
    if end != 0 { gone := gone + [Gone(Word(j + pages), end)]; }
    if ans.Mapped? {
      BothAligned(p, firstSize);
      BothAligned(j, pages);
      CutOff(p, firstSize, j, pages, gone);
    } else {
      CutWrong(pages, alignment, gone);
    }
  }

  function AddressIn(ans: Mmap): nat { if ans.Mapped? then ans.addr else 0 }

  lemma AlignedUp(j: nat, alignment: nat)
    requires alignment >= PAGESIZE && alignment % PAGESIZE == 0 && j % alignment == 0
    ensures Aligned(j)
  {
    var q, k := j / alignment, alignment / PAGESIZE;
    assert j == q * (k * PAGESIZE) == (q * k) * PAGESIZE;
  }

  lemma WholeGone(lo: nat, hi: nat)
    requires Aligned(lo) && Aligned(hi) && lo <= hi
    ensures PageRound(hi - lo) == hi - lo
  {
    RoundsUp(hi - lo);
  }

  /** What is before and behind the region at j is given back. */
  lemma CutOff(p: nat, firstSize: nat, j: nat, pages: nat, gone: seq<Gone>)
    requires p <= j && j + pages <= p + firstSize < TWO64
    requires Aligned(p) && Aligned(p + firstSize) && Aligned(j) && Aligned(j + pages)
    requires gone == (if j - p != 0 then [Gone(p, j - p)] else [])
                     + (if p + firstSize - (j + pages) != 0 then [Gone(j + pages, p + firstSize - (j + pages))] else [])
    ensures forall a: nat :: InGone(gone, a) <==> (p <= a < p + firstSize) && !(j <= a < j + pages)
  {
    WholeGone(p, j);
    WholeGone(j + pages, p + firstSize);
    hide PageRound, Aligned;
    forall a: nat ensures InGone(gone, a) <==> (p <= a < p + firstSize) && !(j <= a < j + pages) {
      if p <= a < j { assert Takes(gone[0], a); }
      if j + pages <= a < p + firstSize { assert Takes(gone[|gone| - 1], a); }
    }
  }

  /** What is given back when there was nothing. */
  lemma CutWrong(pages: nat, alignment: nat, gone: seq<Gone>)
    requires alignment >= PAGESIZE && Aligned(alignment) && Aligned(pages) && pages + alignment - PAGESIZE < TWO64
    requires gone == [Gone(MAP_FAILED, 1), Gone(pages, Word(alignment - PAGESIZE - 1))]
    ensures forall a: nat :: InGone(gone, a) <==> pages <= a < pages + alignment - PAGESIZE
  {
    assert !Aligned(MAP_FAILED);
    LastBytes(alignment);
    hide PageRound, Word;
    forall a: nat ensures InGone(gone, a) <==> pages <= a < pages + alignment - PAGESIZE {
      assert InGone(gone, a) <==> Takes(gone[0], a) || Takes(gone[1], a);
    }
  }

  /** A byte less than whole pages takes up the same pages. */
  lemma LastBytes(alignment: nat)
    requires alignment >= PAGESIZE && Aligned(alignment) && alignment - PAGESIZE < TWO64
    ensures PageRound(Word(alignment - PAGESIZE - 1)) == if alignment == PAGESIZE then TWO64 else alignment - PAGESIZE
  {
  }

  lemma BothAligned(a: nat, b: nat)
    requires Aligned(a) && Aligned(b)
    ensures Aligned(a + b)
  {
  }

  lemma SumAligned(a: nat, b: nat)
    requires Aligned(a) && b % PAGESIZE == 0 && b >= PAGESIZE
    ensures Aligned(a + b - PAGESIZE) && Aligned(b)
  {
  }

  lemma RoundsUp(bytes: nat)
    ensures Aligned(PageRound(bytes))
    ensures PageRound(bytes) == if bytes % PAGESIZE == 0 then bytes else bytes - bytes % PAGESIZE + PAGESIZE
  {
  }

  lemma NextMultiple(p: nat, m: nat)
    requires m > 0
    ensures var rest := p % m; rest > 0 ==> (p + m - rest) % m == 0
  {
    if p % m > 0 {
      assert p + m - p % m == (p / m + 1) * m;
      MultipleOf(p / m + 1, m);
    }
  }

  lemma MultipleOf(q: nat, m: nat)
    requires m > 0
    ensures q * m % m == 0
  {
    Remainder(q, m, 0);
  }

  /** The next multiple of the alignment is at most a page less than the alignment away. */
  lemma Near(p: nat, alignment: nat)
    requires Aligned(p) && alignment >= PAGESIZE && alignment % PAGESIZE == 0
    ensures p % alignment > 0 ==> p % alignment >= PAGESIZE
  {
    var q, k := p / alignment, alignment / PAGESIZE;
    assert p % alignment == p - q * (k * PAGESIZE) == (p / PAGESIZE - q * k) * PAGESIZE;
  }

  lemma LastAddress(alignment: nat)
    requires alignment >= PAGESIZE && TWO64 % alignment == 0
    ensures Word(AlignUp(MAP_FAILED, alignment)) == 0
  {
    LastRemainder(alignment);
  }

  lemma LastRemainder(alignment: nat)
    requires alignment >= PAGESIZE && TWO64 % alignment == 0
    ensures MAP_FAILED % alignment == alignment - 1
  {
    var q := TWO64 / alignment;
    assert TWO64 == q * alignment && MAP_FAILED == (q - 1) * alignment + (alignment - 1);
    Remainder(q - 1, alignment, alignment - 1);
  }

  lemma Remainder(q: nat, m: nat, r: nat)
    requires r < m
    ensures (q * m + r) % m == r
  {
    var x := q * m + r;
    if x / m < q { Product(x / m + 1, q, m); } else if x / m > q { Product(q + 1, x / m, m); }
  }

  lemma Product(a: nat, b: nat, m: nat)
    requires a <= b
    ensures a * m <= b * m
  {
  }
}
