/** Singly linked chains through a memory of next pointers, and pointers to the slots that hold pointers. */
module Chains {
  import opened Rows

  /** The address of an element; 0 is NULL. */
  type Ptr = nat

  /** The address of a pointer to an element: a bucket of a table, or the next field of an element. */
  datatype Slot = Bucket(b: nat) | NextOf(e: Ptr)

  type Links = map<Ptr, Ptr>

  /** From `first` on, the next pointers run through the elements of c in order, and end in NULL. */
  ghost predicate Linked(next: Links, c: seq<Ptr>, first: Ptr) {
    && first == Nth(c, 0)
    && forall i :: 0 <= i < |c| ==> c[i] != 0 && c[i] in next && next[c[i]] == Nth(c, i + 1)
  }

  /** Element i of a chain, NULL behind its end. */
  function Nth(c: seq<Ptr>, i: nat): Ptr { if i < |c| then c[i] else 0 }

  /** Every bucket's chain runs through its row, and no element is in two places. */
  ghost predicate RowsLinked(heads: seq<Ptr>, next: Links, rows: seq<seq<Ptr>>) {
    && |heads| == |rows| && Distinct(rows)
    && forall b :: 0 <= b < |rows| ==> Linked(next, rows[b], heads[b])
  }

  predicate SlotOk(heads: seq<Ptr>, next: Links, p: Slot) {
    if p.Bucket? then p.b < |heads| else p.e in next
  }

  /** *p */
  function Load(heads: seq<Ptr>, next: Links, p: Slot): Ptr
    requires SlotOk(heads, next, p)
  {
    if p.Bucket? then heads[p.b] else next[p.e]
  }

  /** The buckets and the next pointers after *p = v. */
  function HeadsAfter(heads: seq<Ptr>, p: Slot, v: Ptr): seq<Ptr>
    requires p.Bucket? ==> p.b < |heads|
  {
    if p.Bucket? then heads[p.b := v] else heads
  }

  function LinksAfter(next: Links, p: Slot, v: Ptr): Links {
    if p.NextOf? then next[p.e := v] else next
  }

  /** p is the slot that points to position i of row b. */
  ghost predicate SlotAt(rows: seq<seq<Ptr>>, p: Slot, b: nat, i: nat) {
    b < |rows| && i <= |rows[b]| && p == if i == 0 then Bucket(b) else NextOf(rows[b][i - 1])
  }

  lemma SlotHolds(heads: seq<Ptr>, next: Links, rows: seq<seq<Ptr>>, p: Slot, b: nat, i: nat)
    requires RowsLinked(heads, next, rows) && SlotAt(rows, p, b, i)
    ensures SlotOk(heads, next, p) && Load(heads, next, p) == Nth(rows[b], i)
    ensures Load(heads, next, p) == 0 <==> i == |rows[b]|
  {
    assert Linked(next, rows[b], heads[b]);
  }

  /** Chains whose elements' next pointers have not changed stay linked. */
  lemma LinkedSame(next: Links, next': Links, c: seq<Ptr>, first: Ptr)
    requires Linked(next, c, first)
    requires forall x :: x in c ==> x in next' && next'[x] == next[x]
    ensures Linked(next', c, first)
  {
  }

  lemma Elsewhere<T>(rows: seq<seq<T>>, b: nat, i: nat, c: nat)
    requires Distinct(rows) && b < |rows| && i < |rows[b]| && c < |rows| && c != b
    ensures rows[b][i] !in rows[c]
  {
  }

  /** *p = next of the element p points to: that element is out of its chain. */
  lemma UnlinkOk(heads: seq<Ptr>, next: Links, rows: seq<seq<Ptr>>, p: Slot, b: nat, i: nat)
    requires RowsLinked(heads, next, rows) && SlotAt(rows, p, b, i) && i < |rows[b]|
    ensures SlotOk(heads, next, p) && rows[b][i] in next
    ensures var v := next[rows[b][i]];
            RowsLinked(HeadsAfter(heads, p, v), LinksAfter(next, p, v), Pop(rows, b, i))
  {
    SlotHolds(heads, next, rows, p, b, i);
    assert Linked(next, rows[b], heads[b]);
    var v := next[rows[b][i]];
    var heads', next', rows' := HeadsAfter(heads, p, v), LinksAfter(next, p, v), Pop(rows, b, i);
    PopKeeps(rows, b, i);
    forall c | 0 <= c < |rows'| ensures Linked(next', rows'[c], heads'[c]) {
      assert Linked(next, rows[c], heads[c]);
      if c == b {
        UnlinkRow(next, rows[b], heads[b], i);
      } else {
        if i > 0 { Elsewhere(rows, b, i - 1, c); }
        LinkedSame(next, next', rows[c], heads[c]);
      }
    }
  }

  lemma UnlinkRow(next: Links, c: seq<Ptr>, first: Ptr, i: nat)
    requires Linked(next, c, first) && i < |c| && NoRepeat(c)
    ensures var v := next[c[i]];
            var c' := c[..i] + c[i + 1..];
            if i == 0 then Linked(next, c', v) else Linked(next[c[i - 1] := v], c', first)
  {
    var v := next[c[i]];
    var c' := c[..i] + c[i + 1..];
    forall k | 0 <= k < |c'| ensures c'[k] == c[if k < i then k else k + 1] {
    }
  }

  /** *p = e, where e's next pointer is what p pointed to: e is in the chain at that position. */
  lemma LinkOk(heads: seq<Ptr>, next: Links, rows: seq<seq<Ptr>>, p: Slot, b: nat, i: nat, e: Ptr)
    requires RowsLinked(heads, next, rows) && SlotAt(rows, p, b, i) && !In(rows, e) && e != 0
    requires e in next && next[e] == Nth(rows[b], i)
    ensures SlotOk(heads, next, p)
    ensures RowsLinked(HeadsAfter(heads, p, e), LinksAfter(next, p, e), Insert(rows, b, i, e))
  {
    SlotHolds(heads, next, rows, p, b, i);
    var heads', next', rows' := HeadsAfter(heads, p, e), LinksAfter(next, p, e), Insert(rows, b, i, e);
    InsertKeeps(rows, b, i, e);
    forall c | 0 <= c < |rows'| ensures Linked(next', rows'[c], heads'[c]) {
      assert Linked(next, rows[c], heads[c]);
      if c == b {
        RowNoRepeat(rows, b);
        assert e !in rows[b];
        LinkRow(next, rows[b], heads[b], i, e);
      } else {
        if i > 0 { Elsewhere(rows, b, i - 1, c); }
        LinkedSame(next, next', rows[c], heads[c]);
      }
    }
  }

  lemma LinkRow(next: Links, c: seq<Ptr>, first: Ptr, i: nat, e: Ptr)
    requires Linked(next, c, first) && i <= |c| && NoRepeat(c) && e !in c && e != 0
    requires e in next && next[e] == Nth(c, i)
    ensures var c' := c[..i] + [e] + c[i..];
            if i == 0 then Linked(next, c', e) else Linked(next[c[i - 1] := e], c', first)
  {
    var c' := c[..i] + [e] + c[i..];
    var next' := if i == 0 then next else next[c[i - 1] := e];
    forall k | 0 <= k < |c'| ensures c'[k] != 0 && c'[k] in next' && next'[c'[k]] == Nth(c', k + 1) {
      assert c'[k] == if k < i then c[k] else if k == i then e else c[k - 1];
      assert Nth(c', k + 1) == if k + 1 < i then c[k + 1] else if k + 1 == i then e else Nth(c, k);
    }
  }

  /** The next pointer of an element outside all chains may be anything. */
  lemma OutsideOk(heads: seq<Ptr>, next: Links, rows: seq<seq<Ptr>>, e: Ptr, v: Ptr)
    requires RowsLinked(heads, next, rows) && !In(rows, e)
    ensures RowsLinked(heads, next[e := v], rows)
  {
    forall c | 0 <= c < |rows| ensures Linked(next[e := v], rows[c], heads[c]) {
      assert Linked(next, rows[c], heads[c]) && e !in rows[c];
    }
  }

  /** The same elements, and as many. */
  ghost predicate SameElements<T(!new)>(rows: seq<seq<T>>, rows': seq<seq<T>>) {
    Total(rows) == Total(rows') && forall x :: In(rows', x) <==> In(rows, x)
  }

  /** The buckets and next pointers after the element at slot p has moved to the front of bucket q. */
  function MovedLinks(heads: seq<Ptr>, next: Links, p: Slot, q: nat): (seq<Ptr>, Links)
    requires SlotOk(heads, next, p) && Load(heads, next, p) in next && q < |heads|
  {
    var e := Load(heads, next, p);
    var heads1 := HeadsAfter(heads, p, next[e]);
    var next1 := LinksAfter(next, p, next[e]);
    (heads1[q := e], next1[e := heads1[q]])
  }

  /** Moving an element to the front of another chain loses and duplicates none. */
  lemma MoveOk(heads: seq<Ptr>, next: Links, rows: seq<seq<Ptr>>, p: Slot, b: nat, i: nat, q: nat)
    requires RowsLinked(heads, next, rows) && SlotAt(rows, p, b, i) && i < |rows[b]|
    requires q < |rows| && q != b
    ensures SlotOk(heads, next, p) && Load(heads, next, p) == rows[b][i] != 0 && rows[b][i] in next
    ensures var (heads', next') := MovedLinks(heads, next, p, q);
            var rows' := Insert(Pop(rows, b, i), q, 0, rows[b][i]);
            RowsLinked(heads', next', rows') && SameElements(rows, rows')
  {
    var e := rows[b][i];
    SlotHolds(heads, next, rows, p, b, i);
    UnlinkOk(heads, next, rows, p, b, i);
    PopKeeps(rows, b, i);
    InHere(rows, b, i);
    assert Linked(next, rows[b], heads[b]);
    var heads1, next1, rows1 := HeadsAfter(heads, p, next[e]), LinksAfter(next, p, next[e]), Pop(rows, b, i);
    OutsideOk(heads1, next1, rows1, e, heads1[q]);
    assert Linked(next1, rows1[q], heads1[q]);
    var next2 := next1[e := heads1[q]];
    LinkOk(heads1, next2, rows1, Bucket(q), q, 0, e);
    InsertKeeps(rows1, q, 0, e);
  }

  lemma InHere<T>(rows: seq<seq<T>>, b: nat, i: nat)
    requires b < |rows| && i < |rows[b]|
    ensures In(rows, rows[b][i])
  {
    assert rows[b][i] in rows[b];
  }

  // ----- Two tables side by side -----

  /** Adding empty buckets behind the others. */
  lemma ExtendOk(heads: seq<Ptr>, next: Links, rows: seq<seq<Ptr>>, k: nat)
    requires RowsLinked(heads, next, rows)
    ensures var rows' := rows + seq(k, _ => []);
            RowsLinked(heads + seq(k, _ => 0), next, rows') && SameElements(rows, rows')
  {
    var empty: seq<seq<Ptr>> := seq(k, _ => []);
    var heads', rows' := heads + seq(k, _ => 0), rows + empty;
    forall b | 0 <= b < |rows'| ensures Linked(next, rows'[b], heads'[b]) {
      if b < |rows| { assert Linked(next, rows[b], heads[b]); }
    }
    forall x ensures In(rows', x) <==> In(rows, x) {
      if In(rows, x) {
        var b :| 0 <= b < |rows| && x in rows[b];
        assert x in rows'[b];
      }
    }
    TotalEmpty(rows, k);
  }

  lemma {:induction false} TotalEmpty<T>(rows: seq<seq<T>>, k: nat)
    ensures Total(rows + seq(k, _ => [])) == Total(rows)
  {
    var rows' := rows + seq<seq<T>>(k, _ => []);
    if k == 0 {
      assert rows' == rows;
    } else {
      assert rows'[..|rows'| - 1] == rows + seq<seq<T>>(k - 1, _ => []);
      TotalEmpty(rows, k - 1);
    }
  }

  /** Dropping empty buckets in front. */
  lemma DropOk(heads: seq<Ptr>, next: Links, rows: seq<seq<Ptr>>, k: nat)
    requires RowsLinked(heads, next, rows) && k <= |rows| && forall b :: 0 <= b < k ==> rows[b] == []
    ensures RowsLinked(heads[k..], next, rows[k..]) && SameElements(rows, rows[k..])
  {
    var rows' := rows[k..];
    forall b | 0 <= b < |rows'| ensures Linked(next, rows'[b], heads[k..][b]) {
      assert Linked(next, rows[k + b], heads[k + b]);
    }
    forall p, q, i, j | 0 <= p < |rows'| && 0 <= q < |rows'| && 0 <= i < |rows'[p]| && 0 <= j < |rows'[q]|
      && rows'[p][i] == rows'[q][j]
      ensures p == q && i == j
    {
      assert rows[k + p][i] == rows[k + q][j];
    }
    forall x ensures In(rows', x) <==> In(rows, x) {
      if In(rows, x) {
        var b :| 0 <= b < |rows| && x in rows[b];
        assert x in rows'[b - k];
      }
    }
    TotalDrop(rows, k);
  }

  lemma {:induction false} TotalDrop<T>(rows: seq<seq<T>>, k: nat)
    requires k <= |rows| && forall b :: 0 <= b < k ==> rows[b] == []
    ensures Total(rows[k..]) == Total(rows)
    decreases |rows|
  {
    if k < |rows| {
      var n := |rows| - 1;
      assert rows[k..][..n - k] == rows[..n][k..];
      TotalDrop(rows[..n], k);
    } else if k > 0 {
      TotalDrop(rows[..k - 1], k - 1);
    }
  }
}
