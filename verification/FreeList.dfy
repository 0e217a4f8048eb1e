/** The list of cached free memory: runs of whole pages, each with the directory page of its start. */
module FreeLists {
  import opened PageDirectory

  /** A struct pgfree: `size` free bytes at address `page`. */
  datatype FreeRun = FreeRun(page: nat, size: nat, pdir: int) {
    function End(): nat { page + size }
  }

  function Aligned(a: nat): bool { a % PAGESIZE == 0 }

  ghost predicate WholePages(e: FreeRun) {
    Aligned(e.page) && Aligned(e.size) && e.size > 0
  }

  /** Strictly sorted by address, and no two entries touch: the list is fully coalesced. */
  ghost predicate Coalesced(fl: seq<FreeRun>) {
    && (forall i :: 0 <= i < |fl| ==> WholePages(fl[i]))
    && (forall i, j :: 0 <= i < j < |fl| ==> fl[i].End() < fl[j].page)
  }

  ghost predicate Covers(e: FreeRun, a: nat) { e.page <= a < e.End() }

  /** Address a lies in cached free memory. */
  ghost predicate InFree(fl: seq<FreeRun>, a: nat) {
    exists i :: 0 <= i < |fl| && Covers(fl[i], a)
  }

  /** The bytes of all entries. */
  function Total(fl: seq<FreeRun>): nat {
    if fl == [] then 0 else fl[0].size + Total(fl[1..])
  }

  lemma {:induction false} TotalConcat(a: seq<FreeRun>, b: seq<FreeRun>)
    ensures Total(a + b) == Total(a) + Total(b)
  {
    if a == [] {
      assert a + b == b;
    } else {
      assert (a + b)[1..] == a[1..] + b;
      TotalConcat(a[1..], b);
    }
  }

  lemma {:induction false} TotalAligned(fl: seq<FreeRun>)
    requires forall i :: 0 <= i < |fl| ==> Aligned(fl[i].size)
    ensures Aligned(Total(fl))
  {
    if fl != [] { TotalAligned(fl[1..]); }
  }

  /** The sizes split at position k. */
  lemma TotalSplit(fl: seq<FreeRun>, k: nat)
    requires k < |fl|
    ensures Total(fl) == Total(fl[..k]) + fl[k].size + Total(fl[k + 1..])
  {
    var rest := [fl[k]] + fl[k + 1..];
    assert fl == fl[..k] + rest;
    assert rest[1..] == fl[k + 1..];
    TotalConcat(fl[..k], rest);
  }

  lemma InFreeConcat(x: seq<FreeRun>, y: seq<FreeRun>, a: nat)
    ensures InFree(x + y, a) <==> InFree(x, a) || InFree(y, a)
  {
    if InFree(x, a) {
      var i :| 0 <= i < |x| && Covers(x[i], a);
      assert Covers((x + y)[i], a);
    }
    if InFree(y, a) {
      var i :| 0 <= i < |y| && Covers(y[i], a);
      assert Covers((x + y)[|x| + i], a);
    }
  }

  lemma InFreeOne(e: FreeRun, a: nat)
    ensures InFree([e], a) <==> Covers(e, a)
  {
    if Covers(e, a) { assert Covers([e][0], a); }
  }

  /** Membership, split at the entries in positions [k, m). */
  lemma InFreeSplit(fl: seq<FreeRun>, k: nat, m: nat, a: nat)
    requires k <= m <= |fl|
    ensures InFree(fl, a) <==> InFree(fl[..k], a) || InFree(fl[k..m], a) || InFree(fl[m..], a)
  {
    assert fl == fl[..k] + (fl[k..m] + fl[m..]);
    InFreeConcat(fl[..k], fl[k..m] + fl[m..], a);
    InFreeConcat(fl[k..m], fl[m..], a);
  }

  /** The list with the entries in positions [k, m) replaced by mid. */
  function Splice(fl: seq<FreeRun>, k: nat, m: nat, mid: seq<FreeRun>): seq<FreeRun>
    requires k <= m <= |fl|
  {
    fl[..k] + mid + fl[m..]
  }

  lemma InFreeSplice(fl: seq<FreeRun>, k: nat, m: nat, mid: seq<FreeRun>, a: nat)
    requires k <= m <= |fl|
    ensures InFree(Splice(fl, k, m, mid), a)
       <==> InFree(fl[..k], a) || InFree(mid, a) || InFree(fl[m..], a)
  {
    InFreeConcat(fl[..k] + mid, fl[m..], a);
    InFreeConcat(fl[..k], mid, a);
  }

  lemma TotalSplice(fl: seq<FreeRun>, k: nat, m: nat, mid: seq<FreeRun>)
    requires k <= m <= |fl|
    ensures Total(Splice(fl, k, m, mid)) + Total(fl[k..m]) == Total(fl) + Total(mid)
  {
    TotalConcat(fl[..k] + mid, fl[m..]);
    TotalConcat(fl[..k], mid);
    assert fl == fl[..k] + (fl[k..m] + fl[m..]);
    TotalConcat(fl[..k], fl[k..m] + fl[m..]);
    TotalConcat(fl[k..m], fl[m..]);
  }

  lemma SpliceAt(fl: seq<FreeRun>, k: nat, m: nat, e: FreeRun)
    requires k <= m <= |fl|
    ensures |Splice(fl, k, m, [e])| == |fl| - m + k + 1 && Splice(fl, k, m, [e])[k] == e
    ensures forall i :: 0 <= i < k ==> Splice(fl, k, m, [e])[i] == fl[i]
    ensures forall i :: k < i < |fl| - m + k + 1 ==> Splice(fl, k, m, [e])[i] == fl[i - k - 1 + m]
  {
  }

  /** A splice of one entry stays coalesced if it keeps clear of its neighbours. */
  lemma CoalescedSplice(fl: seq<FreeRun>, k: nat, m: nat, e: FreeRun)
    requires Coalesced(fl) && k <= m <= |fl| && WholePages(e)
    requires k > 0 ==> fl[k - 1].End() < e.page
    requires m < |fl| ==> e.End() < fl[m].page
    ensures Coalesced(Splice(fl, k, m, [e]))
  {
    var fl' := Splice(fl, k, m, [e]);
    SpliceAt(fl, k, m, e);
    hide Splice;
    ClearOf(fl, k, m, e);
    forall i, j | 0 <= i < j < |fl'| ensures fl'[i].End() < fl'[j].page {
    }
  }

  /** The entries before position k end below e, and those from m on start above it. */
  lemma ClearOf(fl: seq<FreeRun>, k: nat, m: nat, e: FreeRun)
    requires Coalesced(fl) && k <= m <= |fl|
    requires k > 0 ==> fl[k - 1].End() < e.page
    requires m < |fl| ==> e.End() < fl[m].page
    ensures forall i :: 0 <= i < k ==> fl[i].End() < e.page
    ensures forall i :: m <= i < |fl| ==> e.End() < fl[i].page
  {
  }

  lemma CoalescedDrop(fl: seq<FreeRun>, k: nat)
    requires Coalesced(fl) && k < |fl|
    ensures Coalesced(Splice(fl, k, k + 1, []))
  {
    var fl' := Splice(fl, k, k + 1, []);
    forall i | 0 <= i < |fl'| ensures fl'[i] == if i < k then fl[i] else fl[i + 1] {
    }
  }

  // ----- What malloc_pages and free_pages do to the list -----

  /** Every address of [lo, hi) is free afterwards, and nothing else changes. */
  ghost predicate Gained(fl: seq<FreeRun>, fl': seq<FreeRun>, lo: nat, hi: nat) {
    forall a: nat :: InFree(fl', a) <==> InFree(fl, a) || lo <= a < hi
  }

  /** No address of [lo, hi) is free afterwards, and nothing else changes. */
  ghost predicate Lost(fl: seq<FreeRun>, fl': seq<FreeRun>, lo: nat, hi: nat) {
    forall a: nat :: InFree(fl', a) <==> InFree(fl, a) && !(lo <= a < hi)
  }

  /** Entries other than k hold no address of entry k. */
  lemma OthersApart(fl: seq<FreeRun>, k: nat, a: nat)
    requires Coalesced(fl) && k < |fl| && Covers(fl[k], a)
    ensures !InFree(fl[..k], a) && !InFree(fl[k + 1..], a)
  {
  }

  /** Taking the first `size` bytes of entry k: the entry is unlinked or keeps its tail. */
  function Carve(fl: seq<FreeRun>, k: nat, size: nat, pdir: int): seq<FreeRun>
    requires k < |fl| && size <= fl[k].size
  {
    Splice(fl, k, k + 1,
           if fl[k].size == size then [] else [FreeRun(fl[k].page + size, fl[k].size - size, pdir)])
  }

  lemma CarveKeeps(fl: seq<FreeRun>, k: nat, size: nat, pdir: int)
    requires Coalesced(fl) && k < |fl| && 0 < size <= fl[k].size && Aligned(size)
    ensures Coalesced(Carve(fl, k, size, pdir))
    ensures Lost(fl, Carve(fl, k, size, pdir), fl[k].page, fl[k].page + size)
    ensures Total(Carve(fl, k, size, pdir)) + size == Total(fl)
  {
    var e := FreeRun(fl[k].page + size, fl[k].size - size, pdir);
    var mid := if fl[k].size == size then [] else [e];
    hide Splice, InFree, Total, Lost, Coalesced, Aligned;
    CutTotal(fl, k, mid);
    CarveCoalesced(fl, k, size, pdir);
    CutOne(fl, k, mid, fl[k].page, fl[k].page + size);
  }

  /** Giving the bytes of entry k from address cut on back to the system. */
  function Trim(fl: seq<FreeRun>, k: nat, room: nat): seq<FreeRun>
    requires k < |fl| && room <= fl[k].size
  {
    Splice(fl, k, k + 1, if room == 0 then [] else [fl[k].(size := room)])
  }

  lemma TrimKeeps(fl: seq<FreeRun>, k: nat, room: nat)
    requires Coalesced(fl) && k < |fl| && room <= fl[k].size && Aligned(room)
    ensures Coalesced(Trim(fl, k, room))
    ensures Lost(fl, Trim(fl, k, room), fl[k].page + room, fl[k].End())
    ensures Total(Trim(fl, k, room)) + (fl[k].size - room) == Total(fl)
  {
    var e := fl[k].(size := room);
    var mid := if room == 0 then [] else [e];
    CutTotal(fl, k, mid);
    if room == 0 { CoalescedDrop(fl, k); } else { CoalescedSplice(fl, k, k + 1, e); }
    CutOne(fl, k, mid, fl[k].page + room, fl[k].End());
  }

  lemma CarveCoalesced(fl: seq<FreeRun>, k: nat, size: nat, pdir: int)
    requires Coalesced(fl) && k < |fl| && 0 < size <= fl[k].size && Aligned(size)
    ensures Coalesced(Carve(fl, k, size, pdir))
  {
    hide Splice, Aligned;
    CutWhole(fl[k], size);
    if fl[k].size == size {
      CoalescedDrop(fl, k);
    } else {
      CoalescedSplice(fl, k, k + 1, FreeRun(fl[k].page + size, fl[k].size - size, pdir));
    }
  }

  lemma CutWhole(e: FreeRun, size: nat)
    requires WholePages(e) && size <= e.size && Aligned(size)
    ensures Aligned(e.page + size) && Aligned(e.size - size)
  {
  }

  lemma CutTotal(fl: seq<FreeRun>, k: nat, mid: seq<FreeRun>)
    requires k < |fl| && |mid| <= 1
    ensures Total(Splice(fl, k, k + 1, mid)) + fl[k].size == Total(fl) + if |mid| == 1 then mid[0].size else 0
  {
    assert fl[k..k + 1] == [fl[k]];
    TotalSplice(fl, k, k + 1, mid);
  }

  /** Replacing entry k by mid, which covers it except for [lo, hi). */
  lemma CutOne(fl: seq<FreeRun>, k: nat, mid: seq<FreeRun>, lo: nat, hi: nat)
    requires Coalesced(fl) && k < |fl| && fl[k].page <= lo <= hi <= fl[k].End()
    requires |mid| <= 1
    requires forall a: nat :: (|mid| == 1 && Covers(mid[0], a)) <==> Covers(fl[k], a) && !(lo <= a < hi)
    ensures Lost(fl, Splice(fl, k, k + 1, mid), lo, hi)
  {
    forall a: nat ensures InFree(Splice(fl, k, k + 1, mid), a) <==> InFree(fl, a) && !(lo <= a < hi) {
      InFreeSplice(fl, k, k + 1, mid, a);
      InFreeSplit(fl, k, k + 1, a);
      assert fl[k..k + 1] == [fl[k]];
      InFreeOne(fl[k], a);
      if |mid| == 1 {
        assert mid == [mid[0]];
        InFreeOne(mid[0], a);
      }
      if Covers(fl[k], a) { OthersApart(fl, k, a); }
    }
  }

  /** Replacing entries [k, m) by one that covers them and [lo, hi). */
  lemma JoinInto(fl: seq<FreeRun>, k: nat, m: nat, e: FreeRun, lo: nat, hi: nat)
    requires k <= m <= |fl|
    requires forall a: nat :: Covers(e, a) <==> InFree(fl[k..m], a) || lo <= a < hi
    ensures Gained(fl, Splice(fl, k, m, [e]), lo, hi)
  {
    forall a: nat ensures InFree(Splice(fl, k, m, [e]), a) <==> InFree(fl, a) || lo <= a < hi {
      InFreeSplice(fl, k, m, [e], a);
      InFreeSplit(fl, k, m, a);
      InFreeOne(e, a);
    }
  }

  /** The run [ptr, tail) shares no address with the list. */
  ghost predicate Apart(fl: seq<FreeRun>, ptr: nat, tail: nat) {
    forall a: nat :: ptr <= a < tail ==> !InFree(fl, a)
  }

  lemma ApartFrom(fl: seq<FreeRun>, i: nat, ptr: nat, tail: nat)
    requires Coalesced(fl) && i < |fl| && Apart(fl, ptr, tail) && ptr < tail
    ensures tail <= fl[i].page || fl[i].End() <= ptr
  {
    var a := if ptr < fl[i].page then fl[i].page else ptr;
    if a < tail && a < fl[i].End() {
      assert Covers(fl[i], a);
      assert InFree(fl, a);
      assert false;
    }
  }

  /** The run [lo, hi) continues the entry, or the entry continues the run. */
  predicate Touches(e: FreeRun, lo: nat, hi: nat) { e.End() == lo || e.page == hi }

  /** The bytes of the entry that free_pages extends by the run [lo, hi): the first that touches it. */
  function Grown(fl: seq<FreeRun>, lo: nat, hi: nat): (r: nat)
    ensures r <= Total(fl)
  {
    if fl == [] then 0 else if Touches(fl[0], lo, hi) then fl[0].size else Grown(fl[1..], lo, hi)
  }

  /** The bytes of the entries that are left as they are. */
  function Kept(fl: seq<FreeRun>, lo: nat, hi: nat): nat { Total(fl) - Grown(fl, lo, hi) }

  lemma {:induction false} GrownAt(fl: seq<FreeRun>, k: nat, lo: nat, hi: nat)
    requires k <= |fl| && forall i :: 0 <= i < k ==> !Touches(fl[i], lo, hi)
    requires k < |fl| ==> Touches(fl[k], lo, hi)
    ensures Grown(fl, lo, hi) == if k < |fl| then fl[k].size else 0
  {
    if k > 0 {
      forall i | 0 <= i < k - 1 ensures !Touches(fl[1..][i], lo, hi) {
        assert fl[1..][i] == fl[i + 1];
      }
      GrownAt(fl[1..], k - 1, lo, hi);
    }
  }

  /** The result of entering [ptr, ptr + l): position k holds the run that contains it, and
      `others`, the bytes of the entries that are not extended, bounds those of the other entries. */
  ghost predicate RunAdded(fl: seq<FreeRun>, fl': seq<FreeRun>, ptr: nat, l: nat, k: nat, others: nat) {
    && Coalesced(fl') && Gained(fl, fl', ptr, ptr + l) && Total(fl') == Total(fl) + l
    && k < |fl'| && fl'[k].page <= ptr && ptr + l <= fl'[k].End()
    && Total(fl') <= fl'[k].size + others && others == Kept(fl, ptr, ptr + l)
  }

  /** The entries up to k lie before ptr, and entry k is the first not to, or the last. */
  ghost predicate Reached(fl: seq<FreeRun>, ptr: nat, k: nat) {
    && k < |fl|
    && (forall i :: 0 <= i < k ==> fl[i].End() < ptr)
    && (ptr <= fl[k].End() || k + 1 == |fl|)
  }

  lemma EnterBefore(fl: seq<FreeRun>, k: nat, e: FreeRun)
    requires Coalesced(fl) && k <= |fl| && WholePages(e)
    requires k > 0 ==> fl[k - 1].End() < e.page
    requires k < |fl| ==> e.End() < fl[k].page
    ensures RunAdded(fl, Splice(fl, k, k, [e]), e.page, e.size, k, Total(fl))
  {
    hide InFree, Covers, Total, Gained, Grown, Coalesced, Splice;
    SpliceAt(fl, k, k, e);
    CoalescedSplice(fl, k, k, e);
    BeforeTotal(fl, k, e);
    BeforeGains(fl, k, e);
    BeforeKept(fl, k, e);
  }

  lemma BeforeTotal(fl: seq<FreeRun>, k: nat, e: FreeRun)
    requires k <= |fl|
    ensures Total(Splice(fl, k, k, [e])) == Total(fl) + e.size
  {
    assert fl[k..k] == [];
    TotalSplice(fl, k, k, [e]);
  }

  lemma BeforeGains(fl: seq<FreeRun>, k: nat, e: FreeRun)
    requires k <= |fl|
    ensures Gained(fl, Splice(fl, k, k, [e]), e.page, e.End())
  {
    JoinInto(fl, k, k, e, e.page, e.End());
  }

  lemma BeforeKept(fl: seq<FreeRun>, k: nat, e: FreeRun)
    requires Coalesced(fl) && k <= |fl| && WholePages(e)
    requires k > 0 ==> fl[k - 1].End() < e.page
    requires k < |fl| ==> e.End() < fl[k].page
    ensures Kept(fl, e.page, e.End()) == Total(fl)
  {
    forall i | 0 <= i < |fl| ensures !Touches(fl[i], e.page, e.End()) {
      if i < k {
        assert fl[i].End() <= fl[k - 1].End() < e.page;
      } else {
        assert e.End() < fl[k].page <= fl[i].page;
      }
    }
    GrownAt(fl, |fl|, e.page, e.End());
  }

  lemma EnterGrow(fl: seq<FreeRun>, k: nat, e: FreeRun, ptr: nat, l: nat)
    requires Coalesced(fl) && k < |fl| && WholePages(e) && l > 0 && e.size == fl[k].size + l
    requires (e.page == fl[k].page && ptr == fl[k].End()) || (e.page == ptr && ptr + l == fl[k].page)
    requires k > 0 ==> fl[k - 1].End() < e.page
    requires k + 1 < |fl| ==> e.End() < fl[k + 1].page
    ensures fl[k].size <= Total(fl)
    ensures RunAdded(fl, Splice(fl, k, k + 1, [e]), ptr, l, k, Total(fl) - fl[k].size)
  {
    hide InFree, Covers, Total, Gained, Grown, Coalesced, Splice;
    SpliceAt(fl, k, k + 1, e);
    TouchedKept(fl, k, ptr, l);
    CoalescedSplice(fl, k, k + 1, e);
    GrowTotal(fl, k, e, l);
    GrowGains(fl, k, e, ptr, l);
  }

  /** The entry that a run of l bytes touches is the first to touch it if the one before ends below it. */
  lemma TouchedKept(fl: seq<FreeRun>, k: nat, ptr: nat, l: nat)
    requires Coalesced(fl) && k < |fl| && l > 0
    requires ptr == fl[k].End() || (ptr + l == fl[k].page && (k > 0 ==> fl[k - 1].End() < ptr))
    ensures fl[k].size <= Total(fl) && Kept(fl, ptr, ptr + l) == Total(fl) - fl[k].size
  {
    hide Total, Grown;
    forall i | 0 <= i < k ensures !Touches(fl[i], ptr, ptr + l) {
      if i < k - 1 { assert fl[i].End() < fl[k - 1].page; }
      assert fl[i].End() < fl[k].page;
    }
    GrownAt(fl, k, ptr, ptr + l);
  }

  lemma GrowTotal(fl: seq<FreeRun>, k: nat, e: FreeRun, l: nat)
    requires k < |fl| && e.size == fl[k].size + l
    ensures fl[k].size <= Total(fl) && Total(Splice(fl, k, k + 1, [e])) == Total(fl) + l
  {
    TotalSplit(fl, k);
    assert fl[k..k + 1] == [fl[k]];
    TotalSplice(fl, k, k + 1, [e]);
  }

  lemma GrowGains(fl: seq<FreeRun>, k: nat, e: FreeRun, ptr: nat, l: nat)
    requires k < |fl| && e.size == fl[k].size + l
    requires (e.page == fl[k].page && ptr == fl[k].End()) || (e.page == ptr && ptr + l == fl[k].page)
    ensures Gained(fl, Splice(fl, k, k + 1, [e]), ptr, ptr + l)
  {
    assert fl[k..k + 1] == [fl[k]];
    forall a: nat ensures Covers(e, a) <==> InFree(fl[k..k + 1], a) || ptr <= a < ptr + l {
      InFreeOne(fl[k], a);
    }
    JoinInto(fl, k, k + 1, e, ptr, ptr + l);
  }

  /** Appending to entry k so that it reaches entry k + 1 absorbs that entry, which stays counted. */
  lemma EnterBridge(fl: seq<FreeRun>, k: nat, e: FreeRun, ptr: nat, l: nat)
    requires Coalesced(fl) && k + 1 < |fl| && l > 0 && Aligned(l)
    requires ptr == fl[k].End() && ptr + l == fl[k + 1].page
    requires e.page == fl[k].page && e.size == fl[k].size + l + fl[k + 1].size
    ensures fl[k].size <= Total(fl)
    ensures RunAdded(fl, Splice(fl, k, k + 2, [e]), ptr, l, k, Total(fl) - fl[k].size)
  {
    hide InFree, Covers, Total, Gained, Grown, Splice, Coalesced, WholePages;
    SpliceAt(fl, k, k + 2, e);
    TouchedKept(fl, k, ptr, l);
    BridgeClear(fl, k, e, l);
    CoalescedSplice(fl, k, k + 2, e);
    BridgeTotal(fl, k, e, l);
    BridgeGains(fl, k, e, ptr, l);
  }

  lemma BridgeClear(fl: seq<FreeRun>, k: nat, e: FreeRun, l: nat)
    requires Coalesced(fl) && k + 1 < |fl| && l > 0 && Aligned(l) && fl[k].End() + l == fl[k + 1].page
    requires e.page == fl[k].page && e.size == fl[k].size + l + fl[k + 1].size
    ensures WholePages(e)
    ensures k > 0 ==> fl[k - 1].End() < e.page
    ensures k + 2 < |fl| ==> e.End() < fl[k + 2].page
  {
    assert WholePages(fl[k]) && WholePages(fl[k + 1]);
  }

  lemma BridgeTotal(fl: seq<FreeRun>, k: nat, e: FreeRun, l: nat)
    requires k + 1 < |fl| && e.size == fl[k].size + l + fl[k + 1].size
    ensures fl[k].size <= Total(fl) && Total(Splice(fl, k, k + 2, [e])) == Total(fl) + l
  {
    TotalSplit(fl, k);
    assert fl[k..k + 2] == [fl[k]] + [fl[k + 1]];
    TotalConcat([fl[k]], [fl[k + 1]]);
    TotalSplice(fl, k, k + 2, [e]);
  }

  lemma BridgeGains(fl: seq<FreeRun>, k: nat, e: FreeRun, ptr: nat, l: nat)
    requires k + 1 < |fl| && ptr == fl[k].End() && ptr + l == fl[k + 1].page
    requires e.page == fl[k].page && e.size == fl[k].size + l + fl[k + 1].size
    ensures Gained(fl, Splice(fl, k, k + 2, [e]), ptr, ptr + l)
  {
    assert fl[k..k + 2] == [fl[k]] + [fl[k + 1]];
    forall a: nat ensures Covers(e, a) <==> InFree(fl[k..k + 2], a) || ptr <= a < ptr + l {
      InFreeConcat([fl[k]], [fl[k + 1]], a);
      InFreeOne(fl[k], a);
      InFreeOne(fl[k + 1], a);
    }
    JoinInto(fl, k, k + 2, e, ptr, ptr + l);
  }
}
