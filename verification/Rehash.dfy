/** The two ways of rehashing chains for a larger table, step by step, as values. */
module Rehash {
  import opened Rows
  import opened Chains

  /** Every element of the row hashes to bucket q of a table of len buckets. */
  ghost predicate Settled(hash: map<Ptr, nat>, row: seq<Ptr>, len: nat, q: nat) {
    forall i :: 0 <= i < |row| ==> row[i] in hash && len > 0 && hash[row[i]] % len == q
  }

  /** Only next pointers of elements of the rows have changed. */
  ghost predicate Aside(rows: seq<seq<Ptr>>, next: Links, next': Links) {
    forall e :: !In(rows, e) && e in next ==> e in next' && next'[e] == next[e]
  }

  lemma AsideRefl(rows: seq<seq<Ptr>>, next: Links)
    ensures Aside(rows, next, next)
  {
  }

  lemma AsideStep(rows: seq<seq<Ptr>>, next: Links, next': Links, e: Ptr, v: Ptr)
    requires Aside(rows, next, next') && In(rows, e)
    ensures Aside(rows, next, next'[e := v])
  {
  }

  lemma AsideTrans(rows: seq<seq<Ptr>>, a: Links, b: Links, c: Links)
    requires Aside(rows, a, b) && Aside(rows, b, c)
    ensures Aside(rows, a, c)
  {
  }

  lemma AsideAt(rows: seq<seq<Ptr>>, next: Links, next': Links, e: Ptr)
    requires Aside(rows, next, next')
    ensures !In(rows, e) && e in next ==> e in next' && next'[e] == next[e]
  {
  }

  ghost predicate Hashed(hash: map<Ptr, nat>, rows: seq<seq<Ptr>>) {
    forall x :: In(rows, x) ==> x in hash
  }

  lemma SettledMore(hash: map<Ptr, nat>, row: seq<Ptr>, len: nat, q: nat, e: Ptr)
    requires Settled(hash, row, len, q) && e in hash && len > 0 && hash[e] % len == q
    ensures Settled(hash, [e] + row, len, q) && Settled(hash, row + [e], len, q)
  {
    assert forall i :: 0 < i < |[e] + row| ==> ([e] + row)[i] == row[i - 1];
  }

  // ----- Into a fresh table -----

  /** The old buckets, of which those below b have been drained and the chain of b from elm on remains,
      and the new buckets behind them. */
  ghost function Both(heads: seq<Ptr>, b: nat, elm: Ptr, table: seq<Ptr>): (r: seq<Ptr>)
    ensures |r| == |heads| + |table|
  {
    seq<Ptr>(|heads|, i requires 0 <= i < |heads| => if i < b then 0 else if i == b then elm else heads[i]) + table
  }

  /** The rows from k on are those of a table of len buckets. */
  ghost predicate SettledFrom(hash: map<Ptr, nat>, both: seq<seq<Ptr>>, k: nat, len: nat) {
    forall r :: k <= r < |both| ==> Settled(hash, both[r], len, r - k)
  }

  /** All the old elements are still there, and those in the new buckets are where they belong. */
  ghost predicate Draining(heads: seq<Ptr>, b: nat, elm: Ptr, table: seq<Ptr>, next: Links, hash: map<Ptr, nat>,
                           rows: seq<seq<Ptr>>, both: seq<seq<Ptr>>)
  {
    && RowsLinked(Both(heads, b, elm, table), next, both) && SameElements(rows, both) && Hashed(hash, rows)
    && SettledFrom(hash, both, |heads|, |table|)
  }

  lemma DrainStart(heads: seq<Ptr>, next: Links, hash: map<Ptr, nat>, rows: seq<seq<Ptr>>, n: nat)
    requires RowsLinked(heads, next, rows) && Hashed(hash, rows) && n > 0
    ensures var first := if heads == [] then 0 else heads[0];
            Draining(heads, 0, first, seq(n, _ => 0), next, hash, rows, rows + seq(n, _ => []))
  {
    ExtendOk(heads, next, rows, n);
    var first := if heads == [] then 0 else heads[0];
    assert Both(heads, 0, first, seq(n, _ => 0)) == heads + seq(n, _ => 0);
  }

  lemma BothMoves(heads: seq<Ptr>, b: nat, elm: Ptr, table: seq<Ptr>, next: Links, q: nat)
    requires b < |heads| && elm in next && q < |table|
    ensures MovedLinks(Both(heads, b, elm, table), next, Bucket(b), |heads| + q)
         == (Both(heads, b, next[elm], table[q := elm]), next[elm := table[q]])
  {
    var all: seq<Ptr> := Both(heads, b, elm, table);
    assert all[b := next[elm]][|heads| + q] == table[q];
    assert Both(heads, b, next[elm], table[q := elm]) == all[b := next[elm]][|heads| + q := elm];
  }

  lemma DrainStep(heads: seq<Ptr>, b: nat, elm: Ptr, table: seq<Ptr>, next: Links, hash: map<Ptr, nat>,
                  rows: seq<seq<Ptr>>, both: seq<seq<Ptr>>)
    requires Draining(heads, b, elm, table, next, hash, rows, both)
    requires b < |heads| && elm != 0 && |table| > 0
    ensures elm in next && elm in hash && In(rows, elm) && |both| == |heads| + |table| && both[b] != []
    ensures var q := hash[elm] % |table|;
            var both' := Insert(Pop(both, b, 0), |heads| + q, 0, elm);
            && Draining(heads, b, next[elm], table[q := elm], next[elm := table[q]], hash, rows, both')
            && |both'[b]| + 1 == |both[b]|
  {
    hide Both, MovedLinks, SettledFrom, Settled, RowsLinked, SameElements, Hashed, In, SlotAt, SlotOk, Load, Nth;
    DrainHead(heads, b, elm, table, next, hash, rows, both);
    var all := Both(heads, b, elm, table);
    var q := hash[elm] % |table|;
    BothMoves(heads, b, elm, table, next, q);
    DrainSettles(hash, both, |heads|, |table|, b);
    DrainShorter(both, b, |heads| + q);
    var both' := Insert(Pop(both, b, 0), |heads| + q, 0, elm);
    hide Insert, Pop;
    MoveOk(all, next, both, Bucket(b), b, 0, |heads| + q);
    SameTrans(rows, both, both');
  }

  lemma DrainHead(heads: seq<Ptr>, b: nat, elm: Ptr, table: seq<Ptr>, next: Links, hash: map<Ptr, nat>,
                  rows: seq<seq<Ptr>>, both: seq<seq<Ptr>>)
    requires Draining(heads, b, elm, table, next, hash, rows, both) && b < |heads| && elm != 0
    ensures |both| == |heads| + |table| && both[b] != [] && both[b][0] == elm && SlotAt(both, Bucket(b), b, 0)
    ensures elm in next && elm in hash && In(rows, elm)
  {
    var all := Both(heads, b, elm, table);
    assert Linked(next, both[b], all[b]);
    InHere(both, b, 0);
  }

  lemma DrainShorter(both: seq<seq<Ptr>>, b: nat, q: nat)
    requires b < |both| && both[b] != [] && q < |both| && q != b
    ensures var both' := Insert(Pop(both, b, 0), q, 0, both[b][0]);
            |both'| == |both| && |both'[b]| + 1 == |both[b]|
  {
  }

  lemma SameRefl<T(!new)>(a: seq<seq<T>>)
    ensures SameElements(a, a)
  {
  }

  lemma SameTrans<T(!new)>(a: seq<seq<T>>, b: seq<seq<T>>, c: seq<seq<T>>)
    requires SameElements(a, b) && SameElements(b, c)
    ensures SameElements(a, c)
  {
  }

  lemma DrainSettles(hash: map<Ptr, nat>, both: seq<seq<Ptr>>, k: nat, len: nat, b: nat)
    requires b < k && |both| == k + len && len > 0 && both[b] != [] && both[b][0] in hash
    requires SettledFrom(hash, both, k, len)
    ensures SettledFrom(hash, Insert(Pop(both, b, 0), k + hash[both[b][0]] % len, 0, both[b][0]), k, len)
  {
    var e := both[b][0];
    var q := hash[e] % len;
    var both' := Insert(Pop(both, b, 0), k + q, 0, e);
    SettledMore(hash, both[k + q], len, q, e);
    assert both'[k + q] == [e] + both[k + q];
  }

  lemma DrainNext(heads: seq<Ptr>, b: nat, table: seq<Ptr>, next: Links, hash: map<Ptr, nat>,
                  rows: seq<seq<Ptr>>, both: seq<seq<Ptr>>)
    requires Draining(heads, b, 0, table, next, hash, rows, both) && b < |heads|
    ensures Draining(heads, b + 1, if b + 1 < |heads| then heads[b + 1] else 0, table, next, hash, rows, both)
    ensures |both| == |heads| + |table| && both[b] == []
  {
    var elm := if b + 1 < |heads| then heads[b + 1] else 0;
    assert Both(heads, b, 0, table) == Both(heads, b + 1, elm, table);
    assert Linked(next, both[b], Both(heads, b, 0, table)[b]);
  }

  lemma DrainEnd(heads: seq<Ptr>, table: seq<Ptr>, next: Links, hash: map<Ptr, nat>, rows: seq<seq<Ptr>>,
                 both: seq<seq<Ptr>>)
    requires Draining(heads, |heads|, 0, table, next, hash, rows, both)
    requires |both| == |heads| + |table| && forall r :: 0 <= r < |heads| ==> both[r] == []
    ensures RowsLinked(table, next, both[|heads|..]) && SameElements(rows, both[|heads|..])
    ensures AllSettled(hash, both[|heads|..], |table|)
  {
    var all := Both(heads, |heads|, 0, table);
    DropOk(all, next, both, |heads|);
    assert all[|heads|..] == table;
    forall q | 0 <= q < |table| ensures Settled(hash, both[|heads|..][q], |table|, q) {
      assert both[|heads|..][q] == both[|heads| + q];
    }
  }

  ghost predicate AllSettled(hash: map<Ptr, nat>, rows: seq<seq<Ptr>>, len: nat) {
    |rows| == len && forall q :: 0 <= q < len ==> Settled(hash, rows[q], len, q)
  }

  // ----- In place -----

  /** The rows below b, those from oldLen on and the first i places of row b are those of a table of len buckets. */
  ghost predicate SettledSofar(hash: map<Ptr, nat>, now: seq<seq<Ptr>>, oldLen: nat, b: nat, i: nat) {
    && (forall q :: 0 <= q < |now| && (q < b || oldLen <= q) ==> Settled(hash, now[q], |now|, q))
    && (b < oldLen && b < |now| ==> i <= |now[b]| && Settled(hash, now[b][..i], |now|, b))
  }

  /** All the elements of the old rows are still there, and the elements already looked at are where they belong. */
  ghost predicate Sorting(table: seq<Ptr>, next: Links, hash: map<Ptr, nat>, rows: seq<seq<Ptr>>, oldLen: nat, b: nat,
                          i: nat, now: seq<seq<Ptr>>)
  {
    && RowsLinked(table, next, now) && SameElements(rows, now) && Hashed(hash, rows)
    && SettledSofar(hash, now, oldLen, b, i)
  }

  /** The moved elements are where they belong, which is elsewhere; the others are where they were. */
  ghost predicate MovedOnce(hash: map<Ptr, nat>, oldLen: nat, now: seq<seq<Ptr>>, moved: set<Ptr>) {
    if oldLen == 0 then moved == {} && forall x :: !In(now, x)
    else && (forall x :: x in moved ==> MovedHome(hash, oldLen, now, x))
         && (forall x :: In(now, x) && x !in moved ==> AtHome(hash, oldLen, now, x))
  }

  ghost predicate AtHome(hash: map<Ptr, nat>, len: nat, now: seq<seq<Ptr>>, x: Ptr)
    requires len > 0
  {
    x in hash && hash[x] % len < |now| && x in now[hash[x] % len]
  }

  ghost predicate MovedHome(hash: map<Ptr, nat>, oldLen: nat, now: seq<seq<Ptr>>, x: Ptr)
    requires oldLen > 0
  {
    |now| > 0 && AtHome(hash, |now|, now, x) && hash[x] % oldLen != hash[x] % |now|
  }

  lemma SortStart(heads: seq<Ptr>, next: Links, hash: map<Ptr, nat>, rows: seq<seq<Ptr>>, n: nat)
    requires RowsLinked(heads, next, rows) && Hashed(hash, rows) && AllSettled(hash, rows, |heads|)
    ensures var now := rows + seq(n, _ => []);
            && Sorting(heads + seq(n, _ => 0), next, hash, rows, |heads|, 0, 0, now)
            && MovedOnce(hash, |heads|, now, {})
  {
    ExtendOk(heads, next, rows, n);
    var now := rows + seq<seq<Ptr>>(n, _ => []);
    forall x | In(now, x) ensures AtHome(hash, |heads|, now, x) {
      var r :| 0 <= r < |now| && x in now[r];
      assert now[r] == rows[r] && Settled(hash, rows[r], |heads|, r);
    }
  }

  /** An element of bucket b that belongs there stays; nothing else does. */
  lemma SortStay(table: seq<Ptr>, next: Links, hash: map<Ptr, nat>, rows: seq<seq<Ptr>>, oldLen: nat, b: nat, i: nat,
                 now: seq<seq<Ptr>>)
    requires Sorting(table, next, hash, rows, oldLen, b, i, now) && b < oldLen <= |now| && i < |now[b]|
    ensures now[b][i] in hash && Distinct(now) && In(rows, now[b][i])
    ensures i > 0 ==> In(rows, now[b][i - 1])
    ensures hash[now[b][i]] % |now| == b ==> Sorting(table, next, hash, rows, oldLen, b, i + 1, now)
  {
    InHere(now, b, i);
    if i > 0 { InHere(now, b, i - 1); }
    if hash[now[b][i]] % |now| == b {
      SettledMore(hash, now[b][..i], |now|, b, now[b][i]);
      assert now[b][..i + 1] == now[b][..i] + [now[b][i]];
    }
  }

  lemma SortNext(table: seq<Ptr>, next: Links, hash: map<Ptr, nat>, rows: seq<seq<Ptr>>, oldLen: nat, b: nat, i: nat,
                 now: seq<seq<Ptr>>)
    requires Sorting(table, next, hash, rows, oldLen, b, i, now) && b < oldLen <= |now| && i == |now[b]|
    ensures Sorting(table, next, hash, rows, oldLen, b + 1, 0, now)
  {
    assert now[b][..i] == now[b];
  }

  /** The rows after element i of row b has moved to the front of the row it hashes to. */
  ghost function Moved(hash: map<Ptr, nat>, now: seq<seq<Ptr>>, b: nat, i: nat): seq<seq<Ptr>>
    requires b < |now| && i < |now[b]| && now[b][i] in hash
  {
    Insert(Pop(now, b, i), hash[now[b][i]] % |now|, 0, now[b][i])
  }

  lemma SortMove(table: seq<Ptr>, next: Links, hash: map<Ptr, nat>, rows: seq<seq<Ptr>>, oldLen: nat, b: nat, i: nat,
                 now: seq<seq<Ptr>>, p: Slot)
    requires Sorting(table, next, hash, rows, oldLen, b, i, now) && b < oldLen <= |now| && i < |now[b]|
    requires SlotAt(now, p, b, i) && now[b][i] in hash && hash[now[b][i]] % |now| != b
    ensures SlotOk(table, next, p) && Load(table, next, p) == now[b][i] && now[b][i] in next && |table| == |now|
    ensures var (table', next') := MovedLinks(table, next, p, hash[now[b][i]] % |now|);
            var now' := Moved(hash, now, b, i);
            && Sorting(table', next', hash, rows, oldLen, b, i, now') && |now'| == |now|
            && |now'[b]| + 1 == |now[b]| && SlotAt(now', p, b, i)
  {
    MoveSettles(hash, now, oldLen, b, i);
    hide SettledSofar, MovedLinks, Linked;
    MoveOk(table, next, now, p, b, i, hash[now[b][i]] % |now|);
    MoveKeepsSlot(hash, now, b, i, p);
  }

  lemma MoveKeepsSlot(hash: map<Ptr, nat>, now: seq<seq<Ptr>>, b: nat, i: nat, p: Slot)
    requires SlotAt(now, p, b, i) && i < |now[b]| && now[b][i] in hash && hash[now[b][i]] % |now| != b
    ensures var now' := Moved(hash, now, b, i);
            |now'| == |now| && now'[b] == now[b][..i] + now[b][i + 1..] && SlotAt(now', p, b, i)
  {
  }

  lemma MoveSettles(hash: map<Ptr, nat>, now: seq<seq<Ptr>>, oldLen: nat, b: nat, i: nat)
    requires SettledSofar(hash, now, oldLen, b, i) && b < oldLen <= |now| && i < |now[b]|
    requires now[b][i] in hash && hash[now[b][i]] % |now| != b
    ensures SettledSofar(hash, Moved(hash, now, b, i), oldLen, b, i)
  {
    var e := now[b][i];
    var q := hash[e] % |now|;
    var now' := Moved(hash, now, b, i);
    assert now'[q] == [e] + now[q];
    assert now'[b][..i] == now[b][..i];
    if q < b || oldLen <= q { SettledMore(hash, now[q], |now|, q, e); }
  }

  /** An element that has moved is not moved again, and no element moves that need not. */
  lemma MoveOnce(hash: map<Ptr, nat>, oldLen: nat, now: seq<seq<Ptr>>, moved: set<Ptr>, b: nat, i: nat)
    requires Distinct(now) && MovedOnce(hash, oldLen, now, moved)
    requires b < |now| && i < |now[b]| && now[b][i] in hash && hash[now[b][i]] % |now| != b
    ensures now[b][i] !in moved
    ensures MovedOnce(hash, oldLen, Moved(hash, now, b, i), moved + {now[b][i]})
  {
    var e := now[b][i];
    var now' := Moved(hash, now, b, i);
    var q := hash[e] % |now|;
    InHere(now, b, i);
    assert AtHome(hash, oldLen, now, e);
    OnlyRow(now, b, i, hash[e] % oldLen);
    PopKeeps(now, b, i);
    InsertKeeps(Pop(now, b, i), q, 0, e);
    forall x | x in moved + {e} ensures MovedHome(hash, oldLen, now', x) {
      if x == e {
        assert e in now'[q];
      } else {
        StillIn(hash, now, b, i, hash[x] % |now|, x);
      }
    }
    forall x | In(now', x) && x !in moved + {e} ensures AtHome(hash, oldLen, now', x) {
      assert AtHome(hash, oldLen, now, x);
      StillIn(hash, now, b, i, hash[x] % oldLen, x);
    }
  }

  lemma OnlyRow(now: seq<seq<Ptr>>, b: nat, i: nat, c: nat)
    requires Distinct(now) && b < |now| && i < |now[b]| && c < |now| && now[b][i] in now[c]
    ensures b == c
  {
    var j :| 0 <= j < |now[c]| && now[c][j] == now[b][i];
  }

  lemma StillIn(hash: map<Ptr, nat>, now: seq<seq<Ptr>>, b: nat, i: nat, c: nat, x: Ptr)
    requires b < |now| && i < |now[b]| && c < |now| && x in now[c] && x != now[b][i]
    requires now[b][i] in hash && hash[now[b][i]] % |now| != b
    ensures x in Moved(hash, now, b, i)[c]
  {
    assert now[b] == now[b][..i] + [now[b][i]] + now[b][i + 1..];
  }

  /** At the end every element is where it belongs, and exactly those moved that were not there before. */
  lemma SortEnd(table: seq<Ptr>, next: Links, hash: map<Ptr, nat>, rows: seq<seq<Ptr>>, oldLen: nat,
                now: seq<seq<Ptr>>, moved: set<Ptr>)
    requires Sorting(table, next, hash, rows, oldLen, oldLen, 0, now) && oldLen <= |now| && MovedOnce(hash, oldLen, now, moved)
    ensures AllSettled(hash, now, |table|)
    ensures forall x :: In(rows, x) ==>
      x in hash && |table| > 0 && oldLen > 0 && (x in moved <==> hash[x] % oldLen != hash[x] % |table|)
  {
    forall x | In(rows, x) ensures x in hash && oldLen > 0 && (x in moved <==> hash[x] % oldLen != hash[x] % |table|) {
      assert In(now, x);
      if x !in moved {
        assert AtHome(hash, oldLen, now, x);
        var r := hash[x] % oldLen;
        assert Settled(hash, now[r], |now|, r);
      }
    }
  }
}
