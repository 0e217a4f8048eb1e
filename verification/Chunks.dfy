/** Pages of chunks: a page cut into chunks of a power of two, with its struct pginfo. */
module Chunks {
  import opened PageDirectory
  import opened FreeLists
  import opened Bitmaps

  const MINSIZE := 16
  const MAXSIZE := 2048
  /** How many bucket lists page_dir starts with: sizes up to 2^11, and bucket 0 for malloc(0). */
  const BUCKETS := 12

  function Pow2(n: nat): nat { if n == 0 then 1 else 2 * Pow2(n - 1) }

  lemma {:induction false} Pow2Monotone(m: nat, n: nat)
    requires m <= n
    ensures 0 < Pow2(m) <= Pow2(n)
    ensures m < n ==> Pow2(m) < Pow2(n)
  {
    if m < n {
      Pow2Monotone(m, n - 1);
    } else if n > 0 {
      Pow2Monotone(m - 1, n - 1);
    }
  }

  /** The small powers, worked out. */
  lemma Pow2Table()
    ensures Pow2(3) == 8 && Pow2(4) == 16 && Pow2(5) == 32 && Pow2(6) == 64 && Pow2(7) == 128
    ensures Pow2(8) == 256 && Pow2(9) == 512 && Pow2(10) == 1024 && Pow2(11) == 2048
  {
    assert Pow2(3) == 8;
    assert Pow2(5) == 32;
    assert Pow2(7) == 128;
    assert Pow2(9) == 512;
  }

  /** The loop that malloc_bytes and malloc_good_size use: the exponent of the least power of two, from
      2 on, that is at least size. */
  method Log2Up(size: nat) returns (j: nat)
    requires size > 0
    ensures j >= 1 && size <= Pow2(j)
    ensures j == 1 || Pow2(j - 1) < size
  {
    j := 1;
    var ii := (size - 1) / 2;
    while ii > 0
      invariant j == 1 || Pow2(j - 1) <= size - 1
      invariant j >= 1 && ii * Pow2(j) <= size - 1 < (ii + 1) * Pow2(j)
      decreases ii
    {
      Halve(ii, Pow2(j), size - 1);
      PowerBelow(ii, Pow2(j), size - 1);
      ii := ii / 2;
      j := j + 1;
    }
  }

  lemma Halve(ii: nat, p: nat, n: nat)
    requires ii * p <= n < (ii + 1) * p
    ensures ii / 2 * (2 * p) <= n < (ii / 2 + 1) * (2 * p)
  {
    var h := ii / 2;
    assert h * (2 * p) == 2 * h * p;
    assert 2 * h <= ii <= 2 * h + 1;
    MulMonotone(2 * h, ii, p);
    MulMonotone(ii + 1, 2 * h + 2, p);
  }

  lemma MulMonotone(a: nat, b: nat, p: nat)
    requires a <= b
    ensures a * p <= b * p
  {
  }

  lemma PowerBelow(ii: nat, p: nat, n: nat)
    requires ii > 0 && ii * p <= n
    ensures p <= n
  {
    MulMonotone(1, ii, p);
  }

  // ----- Geometry -----

  /** How many chunks of 2^shift bytes fit in a page. */
  function Slots(shift: nat): nat
    requires shift <= PAGESHIFT
  {
    Pow2(PAGESHIFT - shift)
  }

  /** Chunk pages have shifts from 4 (16 bytes, also for malloc(0)) to 11. */
  predicate ShiftOk(shift: nat) { 4 <= shift <= 11 }

  lemma SlotsTable(shift: nat)
    requires ShiftOk(shift)
    ensures Slots(shift) * Pow2(shift) == PAGESIZE
    ensures Slots(shift) == if shift == 4 then 256 else if shift == 5 then 128 else if shift == 6 then 64
      else if shift == 7 then 32 else if shift == 8 then 16 else if shift == 9 then 8
      else if shift == 10 then 4 else 2
  {
    Pow2Table();
    assert Pow2(1) == 2 && Pow2(2) == 4;
  }

  /** The words a bitmap of n bits takes. */
  function WordsFor(n: nat): nat { (n + BITS - 1) / BITS }

  /** The length of a struct pginfo for chunks of 2^bits bytes; bits = 0 stands for malloc(0). */
  function HeaderLen(bits: nat): nat
    requires bits <= PAGESHIFT
  {
    24 + 8 * WordsFor(Slots(bits))
  }

  /** Does the struct pginfo sit in the page it describes? It does unless it takes more than two chunks. */
  predicate InPage(bits: nat)
    requires bits <= PAGESHIFT
  {
    bits != 0 && Pow2(bits) <= 2 * HeaderLen(bits)
  }

  /** The header is kept in the page for chunks of 16, 32 and 64 bytes; elsewhere it is itself a small
      allocation, of 32 bytes, or of 536 for malloc(0), so that making a page of chunks asks for at
      most two further ones: 0 leads to 10, 7 to 11 lead to 5, and 5 to none. */
  lemma HeaderNesting(bits: nat)
    requires bits == 0 || ShiftOk(bits)
    ensures InPage(bits) <==> 4 <= bits <= 6
    ensures bits == 0 ==> Pow2(9) < HeaderLen(bits) <= Pow2(10)
    ensures bits > 6 ==> Pow2(4) < HeaderLen(bits) <= Pow2(5)
  {
    Pow2Table();
    if bits == 0 {
      assert Pow2(12) == 2 * Pow2(11);
    } else {
      SlotsTable(bits);
    }
  }

  // ----- struct pginfo -----

  /** A page of chunks at address `page`; size is 0 for the page that serves malloc(0). */
  datatype PgInfo = PgInfo(page: nat, size: nat, shift: nat, free: nat, total: nat, bits: Bitmap)

  /** The bucket list a page belongs to. */
  function Bucket(info: PgInfo): nat { if info.size == 0 then 0 else info.shift }

  /** The slots at the start of the page that the header occupies. */
  function Stolen(info: PgInfo): int
    requires info.shift <= PAGESHIFT
  {
    Slots(info.shift) - info.total
  }

  /** free counts the set bits of the slots; the header's slots are never free. Bits behind the last slot
      may hold anything: a pginfo outside its page is not cleared before its bits are set. */
  ghost predicate InfoOk(info: PgInfo) {
    && ShiftOk(info.shift) && Aligned(info.page) && info.page > 0
    && (if info.size == 0 then info.shift == 4 else info.size == Pow2(info.shift))
    && 1 < info.total <= Slots(info.shift) <= |info.bits| * BITS
    && (forall i :: 0 <= i < Stolen(info) ==> !Bit(info.bits, i))
    && info.free == Count(info.bits, Slots(info.shift))
    && (if InPage(Bucket(info)) then HeaderLen(Bucket(info)) <= Stolen(info) * Pow2(info.shift)
        else Stolen(info) == 0)
  }

  /** Chunk i is in use. */
  ghost predicate LiveChunk(info: PgInfo, i: nat)
    requires InfoOk(info)
  {
    Stolen(info) <= i < Slots(info.shift) && !Bit(info.bits, i)
  }

  function ChunkAddr(info: PgInfo, i: nat): (r: nat)
    ensures r >= info.page
  {
    MulMonotone(0, i, Pow2(info.shift));
    info.page + i * Pow2(info.shift)
  }

  /** No more than total chunks are free. */
  lemma FreeBound(info: PgInfo)
    requires InfoOk(info)
    ensures info.free <= info.total
    ensures info.free == info.total <==> forall i :: 0 <= i < Slots(info.shift) ==> !LiveChunk(info, i)
  {
    var s, n := Stolen(info), Slots(info.shift);
    CountMonotone(info.bits, 0, s);
    CountMonotone(info.bits, s, n);
    AllSet(info.bits, s, n);
    assert forall i :: s <= i < n ==> (LiveChunk(info, i) <==> !Bit(info.bits, i));
  }

  lemma {:induction false} AllSet(bits: Bitmap, m: nat, n: nat)
    requires m <= n <= |bits| * BITS
    ensures Count(bits, n) == Count(bits, m) + (n - m) <==> forall i :: m <= i < n ==> Bit(bits, i)
  {
    if m < n {
      AllSet(bits, m, n - 1);
      CountMonotone(bits, m, n - 1);
    }
  }

  lemma MulOrder(i: nat, j: nat, c: nat)
    requires i < j
    ensures i * c + c <= j * c
  {
    MulMonotone(i + 1, j, c);
  }

  lemma SlotInPage(info: PgInfo, i: nat)
    requires ShiftOk(info.shift) && i < Slots(info.shift)
    ensures info.page <= ChunkAddr(info, i) && ChunkAddr(info, i) + Pow2(info.shift) <= info.page + PAGESIZE
  {
    SlotsTable(info.shift);
    MulOrder(i, Slots(info.shift), Pow2(info.shift));
  }

  /** Live chunks of a page are disjoint, inside the page, and behind a header that sits in it. */
  lemma ChunksAreSafe(info: PgInfo, i: nat, j: nat)
    requires InfoOk(info) && LiveChunk(info, i) && LiveChunk(info, j) && i != j
    ensures ChunkAddr(info, i) + Pow2(info.shift) <= ChunkAddr(info, j)
         || ChunkAddr(info, j) + Pow2(info.shift) <= ChunkAddr(info, i)
    ensures ChunkAddr(info, i) + Pow2(info.shift) <= info.page + PAGESIZE
    ensures InPage(Bucket(info)) ==> info.page + HeaderLen(Bucket(info)) <= ChunkAddr(info, i)
  {
    var c := Pow2(info.shift);
    SlotsTable(info.shift);
    MulOrder(i, Slots(info.shift), c);
    MulMonotone(Stolen(info), i, c);
    if i < j { MulOrder(i, j, c); } else { MulOrder(j, i, c); }
  }

  /** free_bytes finds the chunk of an address that malloc_bytes returned. */
  lemma AddrOfChunk(info: PgInfo, i: nat)
    requires InfoOk(info) && i < Slots(info.shift)
    ensures var a, c := ChunkAddr(info, i), Pow2(info.shift);
            && c > 0 && a / PAGESIZE == info.page / PAGESIZE && a % PAGESIZE / c == i && a % c == 0
  {
    var c, n := Pow2(info.shift), Slots(info.shift);
    Pow2Monotone(0, info.shift);
    SlotsTable(info.shift);
    MulOrder(i, n, c);
    InThePage(info.page, i * c);
    DivMul(i, c);
    var q := info.page / PAGESIZE;
    Regroup(q, n, c, i);
    DivMul(q * n + i, c);
  }

  lemma InThePage(page: nat, off: nat)
    requires Aligned(page) && off < PAGESIZE
    ensures (page + off) / PAGESIZE == page / PAGESIZE && (page + off) % PAGESIZE == off
    ensures page == page / PAGESIZE * PAGESIZE
  {
  }

  lemma Regroup(q: nat, n: nat, c: nat, i: nat)
    ensures q * (n * c) + i * c == (q * n + i) * c
  {
    assert q * (n * c) == q * n * c;
  }

  lemma DivMul(i: nat, c: nat)
    requires c > 0
    ensures i * c / c == i && i * c % c == 0
  {
    var q := i * c / c;
    assert i * c == q * c + i * c % c;
    if q < i { MulOrder(q, i, c); } else if i < q { MulOrder(i, q, c); }
  }

  // ----- malloc_make_chunks: the struct pginfo of a new page -----

  const ONES: Word := seq(BITS, _ => true)

  /** The first n bits of bits are set, and nothing is known of the others. */
  ghost predicate Filled(bits: Bitmap, n: nat) {
    n <= |bits| * BITS && forall i :: 0 <= i < n ==> Bit(bits, i)
  }

  lemma FillWord(bits: Bitmap, lp: nat)
    requires lp < |bits| && Filled(bits, lp * BITS)
    ensures Filled(bits[lp := ONES], (lp + 1) * BITS)
  {
    var bits' := bits[lp := ONES];
    forall i | 0 <= i < (lp + 1) * BITS ensures Bit(bits', i) {
      if i < lp * BITS {
        assert i / BITS < lp && Bit(bits, i);
      } else {
        assert i / BITS == lp;
      }
    }
  }

  /** Setting all valid bits, a word at a time and then bit by bit; junk is what the memory held. */
  method FillBits(junk: Bitmap, k: nat) returns (bits: Bitmap)
    requires k <= |junk| * BITS
    ensures |bits| == |junk| && Filled(bits, k)
  {
    bits := junk;
    var i := 0;
    while k - i >= BITS
      invariant 0 <= i <= k && i % BITS == 0 && |bits| == |junk| && Filled(bits, i)
    {
      FillWord(bits, i / BITS);
      bits := bits[i / BITS := ONES];
      i := i + BITS;
    }
    while i < k
      invariant 0 <= i <= k && |bits| == |junk| && Filled(bits, i)
    {
      SetBitAt(bits, i, true);
      bits := SetBit(bits, i, true);
      i := i + 1;
    }
  }

  /** Marking the slots of a header of l bytes: s of them, the least number that covers it. */
  method Steal(info0: PgInfo, l: nat) returns (info: PgInfo)
    requires ShiftOk(info0.shift) && info0.free == info0.total == Slots(info0.shift) <= |info0.bits| * BITS
    requires Filled(info0.bits, Slots(info0.shift)) && l + 3 * Pow2(info0.shift) <= PAGESIZE
    ensures info.page == info0.page && info.size == info0.size && info.shift == info0.shift
    ensures |info.bits| == |info0.bits| && 1 < info.free == info.total <= Slots(info.shift)
    ensures var s := Stolen(info);
            && l <= s * Pow2(info.shift) < l + Pow2(info.shift)
            && (forall i :: 0 <= i < Slots(info.shift) ==> Bit(info.bits, i) == (i >= s))
  {
    info := info0;
    var i, k: int := 0, l;
    var c: int := Pow2(info0.shift);
    ghost var n := Slots(info0.shift);
    SlotsTable(info0.shift);
    Pow2Monotone(0, info0.shift);
    while k > 0
      invariant 0 <= i < n && k == l - i * c && k > -c
      invariant info == info0.(bits := info.bits, free := info0.free - i, total := info0.total - i)
      invariant |info.bits| == |info0.bits|
      invariant forall m :: 0 <= m < n ==> Bit(info.bits, m) == (m >= i)
      decreases k
    {
      RoomForHeader(i, c, n, l);
      SetBitAt(info.bits, i, false);
      info := info.(bits := SetBit(info.bits, i, false), free := info.free - 1, total := info.total - 1);
      k := k - c;
      i := i + 1;
    }
    ManyLeft(i, c, n, l);
  }

  lemma ManyLeft(i: nat, c: nat, n: nat, l: nat)
    requires i * c < l + c && l + 3 * c <= n * c
    ensures i + 1 < n
  {
    assert (i + 1) * c == i * c + c;
    if n <= i + 1 { MulMonotone(n, i + 1, c); }
  }

  lemma RoomForHeader(i: nat, c: nat, n: nat, l: nat)
    requires i * c < l && l + c <= n * c && c > 0
    ensures i + 1 < n && (i + 1) * c == i * c + c
  {
    assert (i + 1) * c == i * c + c;
    if n <= i + 1 { MulMonotone(n, i + 1, c); }
  }

  /** malloc_make_chunks, once the page is there: the struct pginfo for chunks of 2^bucket bytes, or for
      malloc(0). All chunks but the header's are free. */
  method MakeInfo(page: nat, bucket: nat, junk: Bitmap) returns (info: PgInfo)
    requires (bucket == 0 || ShiftOk(bucket)) && Aligned(page) && page > 0
    requires |junk| == WordsFor(Slots(bucket))
    ensures InfoOk(info) && info.page == page && Bucket(info) == bucket && info.free == info.total
    ensures info.total == ChunksFor(bucket)
  {
    Geometry(bucket);
    var l := HeaderLen(bucket);
    var size, shift := 0, 0;
    if bucket == 0 {
      shift := Log2Up(MINSIZE);
      MinShift(shift);
    } else {
      size, shift := Pow2(bucket), bucket;
    }
    info := Fresh(page, size, shift, junk);
    if InPage(bucket) {
      info := Steal(info, l);
    }
    FilledCount(info.bits, Stolen(info), Slots(shift));
    TotalIs(bucket, Stolen(info), shift);
  }

  /** How many chunks a new page has: 256 for malloc(0); of 16, 32 and 64 bytes those that the header, of 56, 40 or 32
      bytes, leaves of 256, 128 and 64; of 128 bytes 32, and so on down to 2 of 2048. */
  function ChunksFor(bucket: nat): nat {
    if bucket == 0 then 256 else if bucket == 4 then 252 else if bucket == 5 then 126 else if bucket == 6 then 63
    else if bucket == 7 then 32 else if bucket == 8 then 16 else if bucket == 9 then 8 else if bucket == 10 then 4 else 2
  }

  lemma TotalIs(bucket: nat, s: nat, shift: nat)
    requires if bucket == 0 then shift == 4 else ShiftOk(bucket) && shift == bucket
    requires if InPage(bucket) then HeaderLen(bucket) <= s * Pow2(shift) < HeaderLen(bucket) + Pow2(shift) else s == 0
    ensures Slots(shift) - s == ChunksFor(bucket)
  {
    SlotsTable(shift);
    Pow2Table();
    HeaderNesting(bucket);
  }

  /** The struct pginfo of a page whose chunks are all free. */
  method Fresh(page: nat, size: nat, shift: nat, junk: Bitmap) returns (info: PgInfo)
    requires ShiftOk(shift) && Slots(shift) <= |junk| * BITS
    ensures info == PgInfo(page, size, shift, Slots(shift), Slots(shift), info.bits)
    ensures |info.bits| == |junk| && Filled(info.bits, Slots(shift))
  {
    var n := Slots(shift);
    var bits := FillBits(junk, n);
    info := PgInfo(page, size, shift, n, n, bits);
  }

  lemma MinShift(shift: nat)
    requires shift >= 1 && MINSIZE <= Pow2(shift) && (shift == 1 || Pow2(shift - 1) < MINSIZE)
    ensures shift == 4
  {
    Pow2Table();
    if shift < 4 { Pow2Monotone(shift, 3); } else if shift > 4 { Pow2Monotone(4, shift - 1); }
  }

  lemma Geometry(bucket: nat)
    requires bucket == 0 || ShiftOk(bucket)
    ensures ShiftOk(if bucket == 0 then 4 else bucket)
    ensures 1 < Slots(if bucket == 0 then 4 else bucket) <= WordsFor(Slots(bucket)) * BITS
    ensures Pow2(if bucket == 0 then 4 else bucket) > 0
    ensures InPage(bucket) ==> HeaderLen(bucket) + 3 * Pow2(bucket) <= PAGESIZE
    ensures bucket == 0 ==> !InPage(bucket)
  {
    HeaderNesting(bucket);
    Pow2Table();
    SlotsTable(4);
    if bucket == 0 { assert Slots(0) == Pow2(12) == 4096; } else { SlotsTable(bucket); }
  }

  lemma FilledCount(bits: Bitmap, s: nat, n: nat)
    requires s <= n <= |bits| * BITS
    requires forall i :: 0 <= i < n ==> Bit(bits, i) == (i >= s)
    ensures Count(bits, n) == n - s
  {
    CountMonotone(bits, 0, s);
    AllSet(bits, s, n);
  }
}
