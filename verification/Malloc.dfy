/** Small allocations: pages of chunks on bucket lists, on top of the page allocator. */
module Mallocs {
  import opened PageDirectory
  import opened DirectoryPages
  import opened FreeLists
  import opened PagePartition
  import opened PageHeaps
  import opened Bitmaps
  import opened Chunks

  /** The struct pginfo of every page of chunks, by page index. */
  type Infos = map<nat, PgInfo>

  /** The bucket lists at the start of page_dir; a list holds the indices of pages. */
  type Buckets = seq<seq<nat>>

  /** Chunk i of the page at index p is in use. */
  ghost predicate LiveAt(infos: Infos, p: nat, i: nat) {
    p in infos && InfoOk(infos[p]) && LiveChunk(infos[p], i)
  }

  ghost predicate InfosOk(infos: Infos) {
    forall p :: p in infos ==> p >= PAGESHIFT && InfoOk(infos[p]) && infos[p].page == IndexToPtr(p)
  }

  ghost predicate NoDuplicates(s: seq<nat>) {
    forall i, j :: 0 <= i < j < |s| ==> s[i] != s[j]
  }

  /** Bucket list b holds, once each, exactly the pages of its size that have a free chunk. */
  ghost predicate BucketOk(infos: Infos, list: seq<nat>, b: nat) {
    && NoDuplicates(list)
    && forall p: nat :: p in list <==> p in infos && Bucket(infos[p]) == b && infos[p].free > 0
  }

  ghost predicate BucketsOk(infos: Infos, buckets: Buckets) {
    |buckets| == BUCKETS && forall b :: 0 <= b < BUCKETS ==> BucketOk(infos, buckets[b], b)
  }

  /** No page of chunks, except maybe one, is wholly free. */
  ghost predicate InUse(infos: Infos, except: int) {
    forall p :: p in infos && p != except ==> infos[p].free < infos[p].total
  }

  /** The pages marked as pages of chunks are those with a struct pginfo. */
  ghost predicate ChunksMarked(dirs: Dirs, infos: Infos) {
    forall j: nat {:trigger MarkAt(dirs, j)} :: MarkAt(dirs, j) == Chunk <==> j in infos
  }

  /** A page that changes within its bucket, and keeps a free chunk iff it had one, needs no relisting. */
  lemma BucketsSame(infos: Infos, buckets: Buckets, p: nat, info: PgInfo)
    requires BucketsOk(infos, buckets) && p in infos && Bucket(info) == Bucket(infos[p])
    requires info.free > 0 <==> infos[p].free > 0
    ensures BucketsOk(infos[p := info], buckets)
  {
    forall b | 0 <= b < BUCKETS ensures BucketOk(infos[p := info], buckets[b], b) {
      assert BucketOk(infos, buckets[b], b);
    }
  }

  /** A page whose last free chunk goes is taken off the front of its list. */
  lemma BucketsPop(infos: Infos, buckets: Buckets, b: nat, info: PgInfo)
    requires BucketsOk(infos, buckets) && b < BUCKETS && buckets[b] != []
    requires buckets[b][0] in infos && Bucket(info) == b && info.free == 0
    ensures BucketsOk(infos[buckets[b][0] := info], buckets[b := buckets[b][1..]])
  {
    var p := buckets[b][0];
    assert BucketOk(infos, buckets[b], b);
    assert p in buckets[b];
    var infos', buckets' := infos[p := info], buckets[b := buckets[b][1..]];
    forall c | 0 <= c < BUCKETS ensures BucketOk(infos', buckets'[c], c) {
      assert BucketOk(infos, buckets[c], c);
      if c == b {
        assert buckets[b] == [p] + buckets'[b];
      }
    }
  }

  function InsertAt(s: seq<nat>, k: nat, p: nat): seq<nat>
    requires k <= |s|
  {
    s[..k] + [p] + s[k..]
  }

  lemma InsertNew(s: seq<nat>, k: nat, p: nat)
    requires NoDuplicates(s) && p !in s && k <= |s|
    ensures NoDuplicates(InsertAt(s, k, p))
    ensures forall x: nat :: x in InsertAt(s, k, p) <==> x in s || x == p
  {
    var s' := InsertAt(s, k, p);
    assert s == s[..k] + s[k..];
    forall i, j | 0 <= i < j < |s'| ensures s'[i] != s'[j] {
      var a := if i < k then i else i - 1;
      var b := if j < k then j else j - 1;
      assert i != k ==> s'[i] == s[a];
      assert j != k ==> s'[j] == s[b];
    }
  }

  /** A page gets on its list, anywhere in it, with its first free chunk. */
  lemma BucketsInsert(infos: Infos, buckets: Buckets, p: nat, info: PgInfo, k: nat)
    requires BucketsOk(infos, buckets) && Bucket(info) < BUCKETS && info.free > 0
    requires k <= |buckets[Bucket(info)]|
    requires p !in infos || (infos[p].free == 0 && Bucket(infos[p]) == Bucket(info))
    ensures BucketsOk(infos[p := info], buckets[Bucket(info) := InsertAt(buckets[Bucket(info)], k, p)])
  {
    var b := Bucket(info);
    assert BucketOk(infos, buckets[b], b);
    assert p !in buckets[b];
    InsertNew(buckets[b], k, p);
    var infos', buckets' := infos[p := info], buckets[b := InsertAt(buckets[b], k, p)];
    forall c | 0 <= c < BUCKETS ensures BucketOk(infos', buckets'[c], c) {
      assert BucketOk(infos, buckets[c], c);
    }
  }

  /** How far free_bytes goes along a list before it links page p in: to the first entry that has no successor, or
      one that is not below p. */
  function Steps(s: seq<nat>, p: nat): (k: nat)
    ensures k <= |s| && (s != [] ==> k < |s|)
    ensures forall i :: 0 < i <= k ==> s[i] < p
  {
    if |s| < 2 || s[1] >= p then 0 else 1 + Steps(s[1..], p)
  }

  lemma {:induction false} StepsFrom(s: seq<nat>, p: nat, k: nat)
    requires k < |s| && forall i :: 0 < i <= k ==> s[i] < p
    requires k + 1 < |s| ==> s[k + 1] >= p
    ensures Steps(s, p) == k
  {
    if k > 0 {
      assert forall i :: 0 <= i < |s| - 1 ==> s[1..][i] == s[i + 1];
      StepsFrom(s[1..], p, k - 1);
    }
  }

  ghost predicate InAddressOrder(s: seq<nat>) {
    forall i, j :: 0 <= i < j < |s| ==> s[i] < s[j]
  }

  lemma InsertedAt(s: seq<nat>, k: nat, p: nat)
    requires k <= |s|
    ensures |InsertAt(s, k, p)| == |s| + 1 && InsertAt(s, k, p)[k] == p
    ensures forall i :: 0 <= i < k ==> InsertAt(s, k, p)[i] == s[i]
    ensures forall i :: k <= i < |s| ==> InsertAt(s, k, p)[i + 1] == s[i]
  {
  }

  /** A list that is in order with p in it is in order without. */
  lemma OrderWithout(s: seq<nat>, k: nat, p: nat)
    requires k <= |s| && InAddressOrder(InsertAt(s, k, p))
    ensures InAddressOrder(s)
  {
    InsertedAt(s, k, p);
    var s' := InsertAt(s, k, p);
    hide InsertAt;
    forall i, j | 0 <= i < j < |s| ensures s[i] < s[j] {
      assert s'[if i < k then i else i + 1] < s'[if j < k then j else j + 1];
    }
  }

  /** "Insert in address order" does so only for a page below all that are on the list. */
  lemma OrderKept(s: seq<nat>, p: nat)
    ensures InAddressOrder(InsertAt(s, Steps(s, p), p)) <==> InAddressOrder(s) && (s == [] || p < s[0])
  {
    var k := Steps(s, p);
    var s' := InsertAt(s, k, p);
    InsertedAt(s, k, p);
    if InAddressOrder(s') {
      OrderWithout(s, k, p);
      if s != [] { assert s'[k] < s'[k + 1]; }
    }
    if InAddressOrder(s) && s != [] && p < s[0] {
      assert k == 0;
      FirstInOrder(s, p);
    }
  }

  lemma FirstInOrder(s: seq<nat>, p: nat)
    requires InAddressOrder(s) && s != [] && p < s[0]
    ensures InAddressOrder(InsertAt(s, 0, p))
  {
    assert InsertAt(s, 0, p) == [p] + s;
    assert forall i :: 0 <= i < |s| ==> s[0] <= s[i];
  }

  /** A page above the only one on the list comes before it. */
  lemma OrderLost(a: nat, p: nat)
    requires a < p
    ensures InsertAt([a], Steps([a], p), p) == [p, a] && !InAddressOrder([p, a])
  {
    assert [p, a][0] > [p, a][1];
  }

  lemma PagesInOrder(infos: Infos, p: nat)
    requires InfosOk(infos) && p in infos
    ensures forall q :: q in infos ==> (infos[q].page < infos[p].page <==> q < p)
  {
    hide InfoOk;
  }

  lemma BucketInRange(infos: Infos, p: nat)
    requires InfosOk(infos) && p in infos
    ensures Bucket(infos[p]) < BUCKETS
  {
  }

  function RemoveAt(s: seq<nat>, k: nat): seq<nat>
    requires k < |s|
  {
    s[..k] + s[k + 1..]
  }

  lemma RemoveOne(s: seq<nat>, k: nat)
    requires NoDuplicates(s) && k < |s|
    ensures NoDuplicates(RemoveAt(s, k))
    ensures forall x: nat :: x in RemoveAt(s, k) <==> x in s && x != s[k]
  {
    var s' := RemoveAt(s, k);
    assert s == s[..k] + [s[k]] + s[k + 1..];
    forall i | 0 <= i < |s'| ensures s'[i] == s[if i < k then i else i + 1] {
    }
  }

  /** A page that is given up leaves its list and the table. */
  lemma BucketsRemove(infos: Infos, buckets: Buckets, p: nat, k: nat)
    requires BucketsOk(infos, buckets) && p in infos && Bucket(infos[p]) < BUCKETS
    requires k < |buckets[Bucket(infos[p])]| && buckets[Bucket(infos[p])][k] == p
    ensures var b := Bucket(infos[p]);
            BucketsOk(infos - {p}, buckets[b := RemoveAt(buckets[b], k)])
  {
    var b := Bucket(infos[p]);
    assert BucketOk(infos, buckets[b], b);
    RemoveOne(buckets[b], k);
    var infos', buckets' := infos - {p}, buckets[b := RemoveAt(buckets[b], k)];
    forall c | 0 <= c < BUCKETS ensures BucketOk(infos', buckets'[c], c) {
      assert BucketOk(infos, buckets[c], c);
    }
  }

  /** The chunk an address falls to, in the page described by info. */
  function ChunkOf(info: PgInfo, ptr: nat): nat
    requires ShiftOk(info.shift)
  {
    Pow2Monotone(0, info.shift);
    QuotientNat(ptr % PAGESIZE, Pow2(info.shift));
    ptr % PAGESIZE / Pow2(info.shift)
  }

  lemma QuotientNat(a: nat, c: nat)
    requires c > 0
    ensures a / c >= 0
  {
  }

  // ----- Taking and giving back one chunk -----

  function Take(info: PgInfo, c: nat): PgInfo
    requires c < |info.bits| * BITS && info.free > 0
  {
    info.(bits := SetBit(info.bits, c, false), free := info.free - 1)
  }

  function Give(info: PgInfo, c: nat): PgInfo
    requires c < |info.bits| * BITS
  {
    info.(bits := SetBit(info.bits, c, true), free := info.free + 1)
  }

  lemma CountOne(bits: Bitmap, c: nat, n: nat)
    requires c < n <= |bits| * BITS && Bit(bits, c)
    ensures Count(bits, n) > 0
  {
    CountMonotone(bits, c + 1, n);
  }

  lemma TakeOk(info: PgInfo, c: nat)
    requires InfoOk(info) && c < Slots(info.shift) && Bit(info.bits, c)
    ensures info.free > 0 && InfoOk(Take(info, c)) && !LiveChunk(info, c)
    ensures forall i :: LiveChunk(Take(info, c), i) <==> LiveChunk(info, i) || i == c
  {
    hide Pow2, InPage, Count, Slots, HeaderLen;
    CountOne(info.bits, c, Slots(info.shift));
    CountSet(info.bits, c, false, Slots(info.shift));
    SetBitAt(info.bits, c, false);
  }

  lemma GiveOk(info: PgInfo, c: nat)
    requires InfoOk(info) && LiveChunk(info, c)
    ensures InfoOk(Give(info, c)) && info.free < info.total
    ensures forall i :: LiveChunk(Give(info, c), i) <==> LiveChunk(info, i) && i != c
  {
    hide Pow2, InPage;
    CountSet(info.bits, c, true, Slots(info.shift));
    SetBitAt(info.bits, c, true);
    FreeBound(Give(info, c));
  }

  /** Exactly one more chunk is in use, the chunk c of page p. */
  ghost predicate Gained1(infos: Infos, infos': Infos, p: nat, c: nat) {
    forall q: nat, i: nat :: LiveAt(infos', q, i) <==> LiveAt(infos, q, i) || (q == p && i == c)
  }

  ghost predicate SameLive(infos: Infos, infos': Infos) {
    forall q: nat, i: nat :: LiveAt(infos', q, i) <==> LiveAt(infos, q, i)
  }

  /** The same runs are page allocations. */
  ghost predicate SameBlocks(dirs: Dirs, live: seq<Run>, dirs': Dirs, live': seq<Run>) {
    forall s :: PageBlock(dirs', live', s) <==> PageBlock(dirs, live, s)
  }

  ghost predicate SamePlace(info: PgInfo, info': PgInfo) {
    info'.page == info.page && info'.shift == info.shift && info'.size == info.size
  }

  /** Pages that stay pages of chunks keep their place and chunk size. */
  ghost predicate SameShape(infos: Infos, infos': Infos) {
    forall q :: q in infos && q in infos' ==> SamePlace(infos[q], infos'[q])
  }

  lemma AddrPositive(infos: Infos, p: nat, c: nat)
    requires InfosOk(infos) && p in infos
    ensures ChunkAddr(infos[p], c) > 0
  {
  }

  /** Exactly one chunk less is in use. */
  ghost predicate Lost1(infos: Infos, infos': Infos, p: nat, c: nat) {
    forall q: nat, i: nat :: LiveAt(infos', q, i) <==> LiveAt(infos, q, i) && !(q == p && i == c)
  }

  /** The bucket malloc_bytes serves a size from. */
  ghost predicate BucketFor(size: nat, j: nat) {
    if size == 0 then j == 0 else ShiftOk(j) && size <= Pow2(j) && (j == 4 || Pow2(j - 1) < size)
  }

  /** The size malloc_bytes serves: the minimal one if a smaller one, but not 0, is asked for. */
  function Served(size: nat): nat { if size == 0 then 0 else Max(size, MINSIZE) }

  lemma OneBucket(size: nat, i: nat, j: nat)
    requires BucketFor(size, i) && BucketFor(size, j)
    ensures i == j
  {
    if size > 0 {
      if i < j { Pow2Monotone(i, j - 1); } else if j < i { Pow2Monotone(j, i - 1); }
    }
  }

  lemma OnlyList(size: nat, j: nat)
    requires BucketFor(size, j)
    ensures forall i: nat :: BucketFor(size, i) ==> i == j
  {
    forall i: nat | BucketFor(size, i) ensures i == j { OneBucket(size, i, j); }
  }

  lemma BucketBound(size: nat, j: nat)
    requires MINSIZE <= size <= MAXSIZE && j >= 1 && size <= Pow2(j) && (j == 1 || Pow2(j - 1) < size)
    ensures ShiftOk(j)
  {
    Pow2Table();
    if j < 4 { Pow2Monotone(j, 3); } else if j > 11 { Pow2Monotone(11, j - 1); }
  }

  lemma InfosAdd(infos: Infos, p: nat, info: PgInfo)
    requires InfosOk(infos) && InfoOk(info) && p >= PAGESHIFT && info.page == IndexToPtr(p)
    ensures InfosOk(infos[p := info])
    ensures InUse(infos, -1) ==> InUse(infos[p := info], p)
  {
  }

  lemma FirstListed(infos: Infos, buckets: Buckets, j: nat)
    requires InfosOk(infos) && BucketsOk(infos, buckets) && j < BUCKETS && buckets[j] != []
    ensures var p := buckets[j][0];
            p in infos && InfoOk(infos[p]) && Bucket(infos[p]) == j && infos[p].free > 0
  {
    hide InfoOk;
    assert BucketOk(infos, buckets[j], j);
    assert buckets[j][0] in buckets[j];
  }

  lemma TakenInUse(infos: Infos, p: nat, c: nat, except: int)
    requires InfosOk(infos) && p in infos && c < Slots(infos[p].shift) && Bit(infos[p].bits, c)
    requires InUse(infos, except) && (except == -1 || except == p)
    ensures infos[p].free > 0
    ensures var infos' := infos[p := Take(infos[p], c)];
            && InfosOk(infos') && InUse(infos', -1) && SameShape(infos, infos')
            && Gained1(infos, infos', p, c) && !LiveAt(infos, p, c) && LiveAt(infos', p, c)
  {
    hide Pow2, InPage, Count;
    TakeOk(infos[p], c);
    FreeBound(infos[p]);
    var infos' := infos[p := Take(infos[p], c)];
    forall q: nat, i: nat ensures LiveAt(infos', q, i) <==> LiveAt(infos, q, i) || (q == p && i == c) {
    }
  }

  /** A page whose chunks are all free adds none that is in use. */
  lemma FreshPageIdle(infos: Infos, infos': Infos, p: nat)
    requires InfosOk(infos') && p !in infos && p in infos' && infos' == infos[p := infos'[p]]
    requires infos'[p].free == infos'[p].total
    ensures SameLive(infos, infos')
  {
    FreeBound(infos'[p]);
  }

  /** A new page of free chunks makes no difference to what is in use. */
  lemma StockedGained(infos: Infos, stocked: Infos, infos': Infos, p: nat, c: nat)
    requires SameLive(infos, stocked) && Gained1(stocked, infos', p, c) && !LiveAt(stocked, p, c)
    requires SameShape(infos, stocked) && SameShape(stocked, infos')
    requires infos.Keys <= stocked.Keys && stocked.Keys == infos'.Keys
    ensures Gained1(infos, infos', p, c) && !LiveAt(infos, p, c) && SameShape(infos, infos')
  {
    hide LiveAt;
    forall q | q in infos && q in infos' ensures SamePlace(infos[q], infos'[q]) {
      assert q in stocked && SamePlace(infos[q], stocked[q]) && SamePlace(stocked[q], infos'[q]);
    }
  }

  lemma MarkedChunk(dirs: Dirs, infos: Infos, p: nat)
    requires ChunksMarked(dirs, infos) && InfosOk(infos) && p in infos
    ensures MarkAt(dirs, p) == Chunk && p >= PAGESHIFT && infos[p].total > 1
  {
  }

  lemma DroppedOk(infos: Infos, p: nat)
    requires InfosOk(infos) && InUse(infos, -1)
    ensures InfosOk(infos - {p}) && InUse(infos - {p}, -1)
  {
  }

  lemma AllLists(infos: Infos, buckets: Buckets)
    requires BucketsOk(infos, buckets)
    ensures |buckets| == BUCKETS
  {
  }

  lemma BitmapFits(j: nat)
    requires j == 0 || ShiftOk(j)
    ensures WordsFor(Slots(j)) <= BITS
  {
    Pow2Table();
    if j == 0 { assert Slots(0) == Pow2(12) == 4096; } else { SlotsTable(j); }
  }

  lemma GivenInUse(infos: Infos, p: nat, c: nat)
    requires InfosOk(infos) && InUse(infos, -1) && p in infos && LiveChunk(infos[p], c)
    ensures Lost1(infos, infos[p := Give(infos[p], c)], p, c) && InfosOk(infos[p := Give(infos[p], c)])
    ensures Give(infos[p], c).free < infos[p].total ==> InUse(infos[p := Give(infos[p], c)], -1)
    ensures Give(infos[p], c).free == infos[p].total ==> Lost1(infos, infos - {p}, p, c)
    ensures SameShape(infos, infos[p := Give(infos[p], c)])
  {
    hide Pow2, InPage, Count;
    GiveOk(infos[p], c);
    var infos' := infos[p := Give(infos[p], c)];
    forall q: nat, i: nat ensures LiveAt(infos', q, i) <==> LiveAt(infos, q, i) && !(q == p && i == c) {
    }
    FreeBound(Give(infos[p], c));
    assert forall i: nat :: LiveAt(infos', p, i) ==> i < Slots(infos[p].shift);
  }

  /** What free_bytes accepts in a page of chunks: the start of a slot whose bit is not set. */
  predicate Releases(info: PgInfo, ptr: nat)
    requires InfoOk(info)
  {
    SlotOf(info, ptr);
    ptr % Pow2(info.shift) == 0 && !Bit(info.bits, ChunkOf(info, ptr))
  }

  lemma SlotOf(info: PgInfo, ptr: nat)
    requires InfoOk(info)
    ensures Pow2(info.shift) > 0
    ensures 0 <= ChunkOf(info, ptr) < Slots(info.shift) <= |info.bits| * BITS
  {
    hide Count, InPage;
    Pow2Monotone(0, info.shift);
    SlotsTable(info.shift);
    var c, n := Pow2(info.shift), Slots(info.shift);
    var i := ptr % PAGESIZE / c;
    if n <= i { MulMonotone(n, i, c); }
  }

  /** A slot of the header of page p has been set free: the page's books are wrong, or the page is gone with a chunk
      of it in use. */
  ghost predicate HeaderLost(infos: Infos, infos': Infos, p: nat) {
    if p in infos' then !InfosOk(infos') else exists i :: LiveAt(infos, p, i)
  }

  /** What setting slot c of page p free does to the table. */
  lemma GivenAt(infos: Infos, p: nat, c: nat)
    requires InfosOk(infos) && InUse(infos, -1) && p in infos
    requires c < Slots(infos[p].shift) && !Bit(infos[p].bits, c)
    ensures infos[p].free < infos[p].total && SameShape(infos, infos[p := Give(infos[p], c)])
    ensures var infos' := infos[p := Give(infos[p], c)];
            if c < Stolen(infos[p]) then HeaderLost(infos, infos', p) && HeaderLost(infos, infos - {p}, p)
            else
              && Lost1(infos, infos', p, c) && InfosOk(infos')
              && (infos'[p].free < infos[p].total ==> InUse(infos', -1))
              && (infos'[p].free == infos[p].total ==> Lost1(infos, infos - {p}, p, c))
  {
    hide Pow2, InPage, Count;
    FreeBound(infos[p]);
    if c >= Stolen(infos[p]) {
      GivenInUse(infos, p, c);
    } else {
      SetBitAt(infos[p].bits, c, true);
      assert !InfoOk(infos[p := Give(infos[p], c)][p]);
      var i :| 0 <= i < Slots(infos[p].shift) && LiveChunk(infos[p], i);
      assert LiveAt(infos, p, i);
    }
  }

  /** The address is in the page, and its chunk number is that of a slot. */
  lemma ChunkInPage(info: PgInfo, ptr: nat, index: nat)
    requires InfoOk(info) && index >= PAGESHIFT && info.page == IndexToPtr(index) && index == PtrToIndex(ptr)
    ensures Pow2(info.shift) > 0 && ChunkOf(info, ptr) < Slots(info.shift)
    ensures ptr % Pow2(info.shift) == 0 <==> ptr == ChunkAddr(info, ChunkOf(info, ptr))
  {
    hide InPage, Count;
    Pow2Monotone(0, info.shift);
    SlotsTable(info.shift);
    AddrOfChunk(info, 0);
    OffsetInPage(info.page, ptr, Pow2(info.shift), Slots(info.shift));
  }

  lemma OffsetInPage(page: nat, ptr: nat, c: nat, n: nat)
    requires c > 0 && n * c == PAGESIZE && page % c == 0 && page <= ptr < page + PAGESIZE && Aligned(page)
    ensures var i := ptr % PAGESIZE / c; i < n && (ptr % c == 0 <==> ptr == page + i * c)
  {
    var off := ptr - page;
    assert ptr % PAGESIZE == off;
    var i, d := off / c, off % c;
    assert off == i * c + d;
    if n <= i { MulMonotone(n, i, c); }
    DivMul(i, c);
    SumMod(page, i * c, c);
    SplitMod(page + i * c, d, c);
  }

  lemma SumMod(a: nat, b: nat, c: nat)
    requires c > 0 && a % c == 0 && b % c == 0
    ensures (a + b) % c == 0
  {
    var p, q := a / c, b / c;
    assert a == p * c && b == q * c;
    assert a + b == (p + q) * c;
    DivMul(p + q, c);
  }

  lemma SplitMod(a: nat, b: nat, c: nat)
    requires c > 0 && a % c == 0 && b < c
    ensures (a + b) % c == b
  {
    var q := a / c;
    assert a == q * c;
    var q', r := (a + b) / c, (a + b) % c;
    assert a + b == q' * c + r;
    if q' < q { MulOrder(q', q, c); } else if q < q' { MulOrder(q, q', c); }
  }

  /** A page of chunks is a live run of one page. */
  lemma ChunkRun(dirs: Dirs, fl: seq<FreeRun>, live: seq<Run>, guard: bool, index: nat) returns (r: nat)
    requires Partition(dirs, fl, live, guard) && MarkAt(dirs, index) == Chunk
    ensures r < |live| && live[r] == Run(index, 1)
  {
    assert InLive(live, guard, index);
    r :| 0 <= r < |live| && Holds(live[r], guard, index);
    assert RunHeld(dirs, live[r], guard);
    assert index == live[r].start || MarkAt(dirs, index) == RunMark(live[r].start, live[r].pages, index);
  }

  lemma BlocksSame(dirs: Dirs, dirs': Dirs, live: seq<Run>, guard: bool)
    requires RunsHeld(dirs, live, guard) && RunsHeld(dirs', live, guard) && SameChunks(dirs, dirs')
    ensures SameBlocks(dirs, live, dirs', live)
  {
    forall s ensures PageBlock(dirs', live, s) <==> PageBlock(dirs, live, s) {
      BlockUnlessChunk(dirs, live, guard, s);
      BlockUnlessChunk(dirs', live, guard, s);
    }
  }

  /** One page allocation is added. */
  ghost predicate BlockAdded(dirs: Dirs, live: seq<Run>, dirs': Dirs, live': seq<Run>, r: Run) {
    && !PageBlock(dirs, live, r)
    && forall s :: PageBlock(dirs', live', s) <==> PageBlock(dirs, live, s) || s == r
  }

  /** One page allocation is taken away. */
  ghost predicate BlockDropped(dirs: Dirs, live: seq<Run>, dirs': Dirs, live': seq<Run>, r: Run) {
    forall s :: PageBlock(dirs', live', s) <==> PageBlock(dirs, live, s) && s != r
  }

  /** malloc_pages, in terms of the page allocations there are. */
  method NewRun(heap: PageHeap, size: nat, ans: Mmap, blockOk: bool) returns (p: nat)
    requires heap.Valid() && 0 < size && PageRound(size) + GuardBytes(heap.guard) < TWO64
    requires FreshRegion(heap.pd.dirs, ans, PageRound(size) / PAGESIZE, heap.guard)
    modifies heap, heap.pd
    ensures heap.Valid() && SameChunks(old(heap.pd.dirs), heap.pd.dirs)
    ensures old(heap.Tidy()) ==> heap.Tidy()
    ensures p == 0 <==> old(heap.Refuses(PageRound(size) / PAGESIZE, ans, blockOk))
    ensures p == 0 ==> SameBlocks(old(heap.pd.dirs), old(heap.live), heap.pd.dirs, heap.live)
    ensures p != 0 ==> Aligned(p) && |heap.live| > 0
    ensures p != 0 ==> heap.live[|heap.live| - 1] == Run(PtrToIndex(p), PageRound(size) / PAGESIZE)
    ensures p != 0 ==> BlockAdded(old(heap.pd.dirs), old(heap.live), heap.pd.dirs, heap.live,
                                  Run(PtrToIndex(p), PageRound(size) / PAGESIZE))
  {
    ghost var dirs, live := heap.pd.dirs, heap.live;
    ghost var k;
    p, k := heap.MallocPages(size, ans, blockOk);
    if p == 0 {
      BlocksSame(dirs, heap.pd.dirs, live, heap.guard);
    } else {
      BlocksAfterEnter(dirs, heap.pd.dirs, live, Run(PtrToIndex(p), PageRound(size) / PAGESIZE), heap.guard);
    }
  }

  /** free_pages, in terms of the page allocations there are. */
  method DropRun(heap: PageHeap, ptr: nat, index: nat, info: Mark, munmapOk: bool, ghost r: nat) returns (freed: bool)
    requires heap.Valid() && index == PtrToIndex(ptr)
    requires info == First && Aligned(ptr) ==>
               r < |heap.live| && heap.live[r].start == index && MarkAt(heap.pd.dirs, index) == First
    modifies heap, heap.pd
    ensures heap.Valid() && SameChunks(old(heap.pd.dirs), heap.pd.dirs)
    ensures munmapOk && old(heap.Tidy()) ==> heap.Tidy()
    ensures freed == (info == First && Aligned(ptr))
    ensures if freed
      then BlockDropped(old(heap.pd.dirs), old(heap.live), heap.pd.dirs, heap.live, old(heap.live)[r])
      else SameBlocks(old(heap.pd.dirs), old(heap.live), heap.pd.dirs, heap.live)
  {
    ghost var dirs, live := heap.pd.dirs, heap.live;
    freed := heap.FreePages(ptr, index, info, munmapOk, r);
    if freed {
      BlocksAfterLeave(dirs, heap.pd.dirs, live, r, heap.guard);
    }
  }

  /** Changing the mark of a run of one page, in terms of the page allocations there are. */
  method TagRun(heap: PageHeap, index: nat, m: Mark, ghost r: nat)
    requires heap.Valid() && r < |heap.live| && heap.live[r] == Run(index, 1) && (m == First || m == Chunk)
    modifies heap.pd
    ensures heap.Valid() && MarkAt(heap.pd.dirs, index) == m
    ensures forall j: nat :: j != index ==> MarkAt(heap.pd.dirs, j) == old(MarkAt(heap.pd.dirs, j))
    ensures forall s :: PageBlock(heap.pd.dirs, heap.live, s)
                   <==> if s == Run(index, 1) then m == First else old(PageBlock(heap.pd.dirs, heap.live, s))
  {
    ghost var dirs := heap.pd.dirs;
    heap.Retag(index, m, r);
    BlocksAfterRetag(dirs, heap.pd.dirs, heap.live, heap.guard, r, m);
  }

  class Malloc {
    const heap: PageHeap
    var infos: Infos
    var buckets: Buckets

    ghost predicate ValidBut(except: int)
      reads this, heap, heap.pd
    {
      && heap.Valid() && InfosOk(infos) && BucketsOk(infos, buckets)
      && ChunksMarked(heap.pd.dirs, infos) && InUse(infos, except)
    }

    ghost predicate Valid()
      reads this, heap, heap.pd
    {
      ValidBut(-1)
    }

    constructor (guard: bool, cachePages: nat)
      requires cachePages < TWO64 / PAGESIZE
      ensures Valid() && infos == map[] && heap.live == [] && heap.guard == guard && heap.Tidy()
      ensures heap.cache == if cachePages == 0 then PAGESIZE else cachePages * PAGESIZE
      ensures fresh(heap) && fresh(heap.pd)
    {
      heap := new PageHeap(guard, cachePages);
      infos, buckets := map[], seq(BUCKETS, _ => []);
    }

    /** malloc_make_chunks: a page of free chunks, put at the head of its bucket list, which was empty. */
    method MakeChunks(bucket: nat, junk: Bitmap, ans: Mmap, blockOk: bool) returns (p: nat)
      requires Valid() && (bucket == 0 || ShiftOk(bucket)) && buckets[bucket] == []
      requires |junk| == WordsFor(Slots(bucket)) && FreshRegion(heap.pd.dirs, ans, 1, heap.guard)
      modifies this, heap, heap.pd
      ensures p == 0 <==> old(heap.Refuses(1, ans, blockOk))
      ensures old(heap.Tidy()) ==> heap.Tidy()
      ensures p == 0 ==> Valid() && infos == old(infos) && buckets == old(buckets)
      ensures p != 0 ==> ValidBut(p) && p !in old(infos) && buckets[bucket] == [p] && p in infos
      ensures p != 0 ==> infos == old(infos)[p := infos[p]] && infos[p].free == infos[p].total
      ensures p != 0 ==> Bucket(infos[p]) == bucket
      ensures SameBlocks(old(heap.pd.dirs), old(heap.live), heap.pd.dirs, heap.live)
    {
      hide PageHeap.Valid, PageHeap.Tidy, PageHeap.Refuses, FreshRegion, SameBlocks, MarkAt;
      p := ChunkPage(ans, blockOk);
      if p == 0 {
        return;
      }
      ListPage(p, bucket, junk);
    }

    /** The new page's struct pginfo, put at the head of its bucket list. */
    method ListPage(p: nat, bucket: nat, junk: Bitmap)
      requires InfosOk(infos) && BucketsOk(infos, buckets) && InUse(infos, -1)
      requires p > PAGESHIFT && p !in infos && (bucket == 0 || ShiftOk(bucket)) && buckets[bucket] == []
      requires |junk| == WordsFor(Slots(bucket))
      modifies this`infos, this`buckets
      ensures InfosOk(infos) && BucketsOk(infos, buckets) && InUse(infos, p)
      ensures p in infos && infos == old(infos)[p := infos[p]] && infos[p].free == infos[p].total
      ensures buckets[bucket] == [p] && Bucket(infos[p]) == bucket
    {
      RoundIndex(p);
      var info := MakeInfo(IndexToPtr(p), bucket, junk);
      BucketsInsert(infos, buckets, p, info, 0);
      InfosAdd(infos, p, info);
      buckets := buckets[bucket := InsertAt(buckets[bucket], 0, p)];
      infos := infos[p := info];
    }

    /** A page from malloc_pages whose mark says that it is a page of chunks. */
    method ChunkPage(ans: Mmap, blockOk: bool) returns (p: nat)
      requires heap.Valid() && ChunksMarked(heap.pd.dirs, infos) && FreshRegion(heap.pd.dirs, ans, 1, heap.guard)
      modifies heap, heap.pd
      ensures heap.Valid()
      ensures p == 0 <==> old(heap.Refuses(1, ans, blockOk))
      ensures old(heap.Tidy()) ==> heap.Tidy()
      ensures p == 0 ==> ChunksMarked(heap.pd.dirs, infos)
      ensures p != 0 ==> p > PAGESHIFT && p !in infos && Run(p, 1) in heap.live
      ensures p != 0 ==> forall j: nat :: MarkAt(heap.pd.dirs, j) == Chunk <==> j in infos || j == p
      ensures SameBlocks(old(heap.pd.dirs), old(heap.live), heap.pd.dirs, heap.live)
    {
      hide Sound, Partition, Coalesced, PdirsOk;
      ghost var dirs, live := heap.pd.dirs, heap.live;
      var pp := NewRun(heap, PAGESIZE, ans, blockOk);
      if pp == 0 {
        return 0;
      }
      p := PtrToIndex(pp);
      TagRun(heap, p, Chunk, |heap.live| - 1);
    }

    /** The end of malloc_bytes: a free chunk of the first page on list j is found, and taken. With
        guard pages on it is the one a random number picks, otherwise the first. */
    method TakeFrom(j: nat, rnd: nat, ghost except: int) returns (a: nat, ghost p: nat, ghost c: nat)
      requires InfosOk(infos) && BucketsOk(infos, buckets) && InUse(infos, except)
      requires j < BUCKETS && buckets[j] != [] && (except == -1 || except == buckets[j][0])
      modifies this`infos, this`buckets
      ensures InfosOk(infos) && BucketsOk(infos, buckets) && InUse(infos, -1)
      ensures infos.Keys == old(infos).Keys && p in infos && Bucket(infos[p]) == j
      ensures Gained1(old(infos), infos, p, c) && !LiveAt(old(infos), p, c) && LiveAt(infos, p, c)
      ensures a == ChunkAddr(infos[p], c) && SameShape(old(infos), infos)
      ensures p == old(buckets[j][0]) && p in old(infos) && old(infos)[p].free > 0
      ensures IsNth(old(infos)[p].bits, if heap.guard then rnd % old(infos)[p].free else 0, c)
      ensures buckets == if old(infos)[p].free == 1 then old(buckets)[j := old(buckets)[j][1..]] else old(buckets)
    {
      hide InfosOk, BucketsOk, InUse, InfoOk, LiveAt, Gained1, SameShape, Count, Pow2;
      AllLists(infos, buckets);
      FirstListed(infos, buckets, j);
      var page := buckets[j][0];
      var bp := infos[page];
      p := page;
      var pos := PickChunk(bp, if heap.guard then rnd % bp.free else 0);
      c := pos;
      TakenInUse(infos, p, pos, except);
      if bp.free == 1 {
        BucketsPop(infos, buckets, j, Take(bp, pos));
        buckets := buckets[j := buckets[j][1..]];
      } else {
        BucketsSame(infos, buckets, p, Take(bp, pos));
      }
      infos := infos[page := Take(bp, pos)];
      a := ChunkAddr(bp, pos);
    }

    method PickChunk(bp: PgInfo, r: nat) returns (pos: nat)
      requires InfoOk(bp) && r < bp.free
      ensures bp.shift <= PAGESHIFT && pos < Slots(bp.shift) && IsNth(bp.bits, r, pos)
    {
      var lp, k := Walk(bp.bits, r, Slots(bp.shift));
      pos := k + lp * BITS;
    }

    /** The list for the size is empty, and there is no page to be had. */
    ghost predicate Refuses(size: nat, ans: Mmap, blockOk: bool)
      reads this, heap, heap.pd
    {
      exists j :: 0 <= j < |buckets| && BucketFor(Served(size), j) && buckets[j] == [] && heap.Refuses(1, ans, blockOk)
    }

    /** malloc_bytes: a chunk of the least size that fits, which was not in use, is now; no other is
        affected. 0 is returned, and nothing has changed, exactly if a page is needed and not to be had. */
    method MallocBytes(size: nat, rnd: nat, junk: Bitmap, ans: Mmap, blockOk: bool)
      returns (a: nat, ghost p: nat, ghost c: nat)
      requires Valid() && size <= MAXSIZE && |junk| >= BITS && FreshRegion(heap.pd.dirs, ans, 1, heap.guard)
      modifies this, heap, heap.pd
      ensures Valid()
      ensures a == 0 <==> old(Refuses(size, ans, blockOk))
      ensures old(heap.Tidy()) ==> heap.Tidy()
      ensures a == 0 ==> infos == old(infos)
      ensures a != 0 ==> Gained1(old(infos), infos, p, c) && !LiveAt(old(infos), p, c) && LiveAt(infos, p, c)
      ensures a != 0 ==> a == ChunkAddr(infos[p], c)
      ensures a != 0 ==> BucketFor(Served(size), Bucket(infos[p]))
      ensures forall j :: 0 <= j < BUCKETS && BucketFor(Served(size), j) && old(buckets)[j] != [] ==>
        && a != 0 && p == old(buckets)[j][0] && p in old(infos) && old(infos)[p].free > 0
        && IsNth(old(infos)[p].bits, if heap.guard then rnd % old(infos)[p].free else 0, c)
        && unchanged(heap) && unchanged(heap.pd)
      ensures forall j :: 0 <= j < BUCKETS && BucketFor(Served(size), j) && old(buckets)[j] == [] && a != 0 ==>
        p !in old(infos) && infos.Keys == old(infos).Keys + {p}
      ensures SameShape(old(infos), infos) && old(infos).Keys <= infos.Keys
      ensures SameBlocks(old(heap.pd.dirs), old(heap.live), heap.pd.dirs, heap.live)
    {
      hide InfosOk, BucketsOk, InUse, SameLive, Gained1, SameShape, LiveAt, Pow2, MarkAt;
      hide PageHeap.Valid, PageHeap.Refuses, PageHeap.Tidy, FreshRegion, IsNth, BucketFor, SameBlocks, InfoOk;
      hide ChunkAddr;
      p, c := 0, 0;
      var size' := if size != 0 && size < MINSIZE then MINSIZE else size;
      var j := BucketOf(size');
      OnlyList(size', j);
      AllLists(infos, buckets);
      ghost var infos0 := infos;
      var ok, except := Stock(j, junk, ans, blockOk);
      if !ok {
        return 0, 0, 0;
      }
      ghost var stocked := infos;
      a, p, c := TakeFrom(j, rnd, except);
      AddrPositive(infos, p, c);
      StockedGained(infos0, stocked, infos, p, c);
    }

    /** Making a page of chunks for bucket list j if it is empty. */
    method Stock(j: nat, junk: Bitmap, ans: Mmap, blockOk: bool) returns (ok: bool, ghost except: int)
      requires Valid() && (j == 0 || ShiftOk(j)) && |junk| >= BITS && FreshRegion(heap.pd.dirs, ans, 1, heap.guard)
      modifies this, heap, heap.pd
      ensures ValidBut(except)
      ensures !ok <==> old(buckets[j] == [] && heap.Refuses(1, ans, blockOk))
      ensures old(heap.Tidy()) ==> heap.Tidy()
      ensures !ok ==> except == -1 && infos == old(infos)
      ensures ok ==> buckets[j] != [] && (except == -1 || except == buckets[j][0])
      ensures old(buckets)[j] != [] ==> infos == old(infos) && buckets == old(buckets)
      ensures old(buckets)[j] != [] ==> unchanged(heap) && unchanged(heap.pd)
      ensures ok && old(buckets)[j] == [] ==>
        buckets[j][0] !in old(infos) && infos.Keys == old(infos).Keys + {buckets[j][0]}
      ensures SameLive(old(infos), infos)
      ensures SameShape(old(infos), infos) && old(infos).Keys <= infos.Keys
      ensures SameBlocks(old(heap.pd.dirs), old(heap.live), heap.pd.dirs, heap.live)
    {
      ok, except := true, -1;
      ghost var infos0 := infos;
      if buckets[j] == [] {
        BitmapFits(j);
        var page := MakeChunks(j, junk[..WordsFor(Slots(j))], ans, blockOk);
        if page == 0 {
          ok := false;
        } else {
          except := page;
          FreshPageIdle(infos0, infos, page);
        }
      }
    }

    method BucketOf(size: nat) returns (j: nat)
      requires size == 0 || MINSIZE <= size <= MAXSIZE
      ensures BucketFor(size, j) && j < BUCKETS && (j == 0 || ShiftOk(j))
    {
      if size == 0 {
        j := 0;
      } else {
        j := Log2Up(size);
        BucketBound(size, j);
      }
    }

    /** free_bytes, for a pointer whose lookup leads to the page of chunks p. An address inside a chunk, or of a chunk
        that is free, is refused with a warning. Otherwise the chunk at the same place in page p is no longer in
        use, and the page goes back to the page allocator with its last chunk. But a slot that the header of the
        page occupies is taken for a chunk in use: it is set free, and the count of free chunks is then wrong. */
    method FreeBytes(ptr: nat, p: nat, munmapOk: bool) returns (freed: bool)
      requires Valid() && p in infos
      modifies this, heap, heap.pd
      ensures heap.Valid() && BucketsOk(infos, buckets) && ChunksMarked(heap.pd.dirs, infos)
      ensures munmapOk && old(heap.Tidy()) ==> heap.Tidy()
      ensures freed == old(Releases(infos[p], ptr))
      ensures !freed ==> Valid() && infos == old(infos)
      ensures freed && old(ChunkOf(infos[p], ptr) >= Stolen(infos[p])) ==>
        Valid() && Lost1(old(infos), infos, p, old(ChunkOf(infos[p], ptr)))
      ensures freed && old(ChunkOf(infos[p], ptr) < Stolen(infos[p])) ==> HeaderLost(old(infos), infos, p)
      ensures SameShape(old(infos), infos)
      ensures SameBlocks(old(heap.pd.dirs), old(heap.live), heap.pd.dirs, heap.live)
    {
      hide PageHeap.Valid, Count, Pow2;
      var info := infos[p];
      Pow2Monotone(0, info.shift);
      var i := ptr % PAGESIZE / Pow2(info.shift);
      SlotOf(info, ptr);
      if ptr % Pow2(info.shift) != 0 {
        return false;
      }
      if Bit(info.bits, i) {
        return false;
      }
      freed := true;
      GiveBackChunk(p, i, munmapOk);
    }

    /** Chunk i of a page is set free: the page is listed, or stays listed, or is given up. */
    method GiveBackChunk(index: nat, i: nat, munmapOk: bool)
      requires Valid() && index in infos && i < Slots(infos[index].shift) && !Bit(infos[index].bits, i)
      modifies this, heap, heap.pd
      ensures heap.Valid() && BucketsOk(infos, buckets) && ChunksMarked(heap.pd.dirs, infos)
      ensures munmapOk && old(heap.Tidy()) ==> heap.Tidy()
      ensures i >= Stolen(old(infos)[index]) ==> Valid() && Lost1(old(infos), infos, index, i)
      ensures i < Stolen(old(infos)[index]) ==> HeaderLost(old(infos), infos, index)
      ensures SameShape(old(infos), infos)
      ensures SameBlocks(old(heap.pd.dirs), old(heap.live), heap.pd.dirs, heap.live)
    {
      hide PageHeap.Valid, PageHeap.Tidy, Count, Pow2, Bit;
      var info := infos[index];
      var info' := Give(info, i);
      GivenAt(infos, index, i);
      if info'.free == 1 {
        Relist(index, info');
      } else if info'.free != info'.total {
        BucketsSame(infos, buckets, index, info');
        infos := infos[index := info'];
      } else {
        DropPage(index, munmapOk);
      }
    }

    /** A page became non-full: it is linked in again, before the first entry that has no successor, or one with an
        address not below the page's. */
    method Relist(index: nat, info: PgInfo)
      requires BucketsOk(infos, buckets) && InfosOk(infos) && index in infos && info.free > 0
      requires infos[index].free == 0 && Bucket(info) == Bucket(infos[index]) && info.page == infos[index].page
      modifies this`infos, this`buckets
      ensures infos == old(infos)[index := info] && BucketsOk(infos, buckets)
      ensures var b := Bucket(info);
              buckets == old(buckets)[b := InsertAt(old(buckets)[b], Steps(old(buckets)[b], index), index)]
    {
      hide Count, Pow2, InfoOk, Steps, InsertAt, InfosOk;
      var b := Bucket(info);
      BucketInRange(infos, index);
      assert BucketOk(infos, buckets[b], b);
      PagesInOrder(infos, index);
      var k := 0;
      while k + 1 < |buckets[b]| && infos[buckets[b][k + 1]].page < info.page
        invariant 0 <= k <= |buckets[b]| && (buckets[b] != [] ==> k < |buckets[b]|)
        invariant forall i :: 0 <= i < |buckets[b]| ==> buckets[b][i] in infos
        invariant forall i :: 0 < i <= k ==> buckets[b][i] < index
      {
        k := k + 1;
      }
      if buckets[b] != [] { StepsFrom(buckets[b], index, k); }
      BucketsInsert(infos, buckets, index, info, k);
      buckets := buckets[b := InsertAt(buckets[b], k, index)];
      infos := infos[index := info];
    }

    /** The last chunk of a page is free again: the page leaves its list, is marked as a run of one page
        and freed. */
    method DropPage(index: nat, munmapOk: bool)
      requires Valid() && index in infos && infos[index].free + 1 == infos[index].total
      modifies this, heap, heap.pd
      ensures Valid() && infos == old(infos) - {index}
      ensures munmapOk && old(heap.Tidy()) ==> heap.Tidy()
      ensures SameBlocks(old(heap.pd.dirs), old(heap.live), heap.pd.dirs, heap.live)
    {
      hide PageHeap.Valid, PageHeap.Tidy, SameBlocks, MarkAt, InfosOk, InUse, BucketsOk;
      MarkedChunk(heap.pd.dirs, infos, index);
      DroppedOk(infos, index);
      Unlist(index);
      FreeChunkPage(index, munmapOk);
    }

    method FreeChunkPage(index: nat, munmapOk: bool)
      requires heap.Valid() && MarkAt(heap.pd.dirs, index) == Chunk && index >= PAGESHIFT
      modifies heap, heap.pd
      ensures heap.Valid()
      ensures munmapOk && old(heap.Tidy()) ==> heap.Tidy()
      ensures forall j: nat :: MarkAt(heap.pd.dirs, j) == Chunk <==> old(MarkAt(heap.pd.dirs, j)) == Chunk && j != index
      ensures SameBlocks(old(heap.pd.dirs), old(heap.live), heap.pd.dirs, heap.live)
    {
      ghost var dirs, live := heap.pd.dirs, heap.live;
      ghost var r := ChunkRun(dirs, heap.freeList, live, heap.guard, index);
      TagRun(heap, index, First, r);
      RoundIndex(index);
      var done := DropRun(heap, IndexToPtr(index), index, First, munmapOk, r);
      assert MarkAt(dirs, live[r].start) == Chunk;
    }

    /** Finding the page on its list, and removing it. */
    method Unlist(index: nat)
      requires BucketsOk(infos, buckets) && InfosOk(infos) && index in infos && infos[index].free > 0
      modifies this`infos, this`buckets
      ensures BucketsOk(infos, buckets) && infos == old(infos) - {index}
    {
      var b := Bucket(infos[index]);
      assert BucketOk(infos, buckets[b], b);
      assert index in buckets[b];
      ghost var o :| 0 <= o < |buckets[b]| && buckets[b][o] == index;
      var k := 0;
      while buckets[b][k] != index
        invariant 0 <= k <= o
        decreases o - k
      {
        k := k + 1;
      }
      BucketsRemove(infos, buckets, index, k);
      buckets := buckets[b := RemoveAt(buckets[b], k)];
      infos := infos - {index};
    }
  }
}
