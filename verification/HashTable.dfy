/** The intrusive chained hash table of ht.h, with cached hashes. Elements are named by their addresses;
    those that the caller's eqfn takes for equal are those with equal keys, so hashfn respects it. */
module HashTables {
  import opened Rows
  import opened Chains
  import opened Orders
  import opened Rehash

  const PRIMES: seq<nat> :=
    [53, 97, 193, 389, 769, 1543, 3079, 6151, 12289, 24593, 49157, 98317, 196613, 393241, 786433, 1572869,
     3145739, 6291469, 12582917, 25165843, 50331653, 100663319, 201326611, 402653189]

  const N_PRIMES: nat := 24

  lemma PrimesGrow(i: nat)
    requires i + 1 < N_PRIMES
    ensures |PRIMES| == N_PRIMES && 53 <= PRIMES[i] && PRIMES[i] + 44 <= PRIMES[i + 1]
  {
    assert i == 0 || i == 1 || i == 2 || i == 3 || i == 4 || i == 5 || i == 6 || i == 7 || i == 8 || i == 9
        || i == 10 || i == 11 || i == 12 || i == 13 || i == 14 || i == 15 || i == 16 || i == 17 || i == 18
        || i == 19 || i == 20 || i == 21 || i == 22;
  }

  /** 48 doubled i times. */
  function Doubled(i: nat): nat { if i == 0 then 48 else 2 * Doubled(i - 1) }

  /** The lengths double: each is a little more than 48 times a power of two, and odd. */
  lemma PrimesDouble(i: nat)
    requires i < N_PRIMES
    ensures |PRIMES| == N_PRIMES && Doubled(i) < PRIMES[i] <= Doubled(i) + 25 && PRIMES[i] % 2 == 1
  {
    if i < 12 { FirstDouble(i); } else { LastDouble(i); }
  }

  lemma FirstDouble(i: nat)
    requires i < 12
    ensures |PRIMES| == N_PRIMES && Doubled(i) < PRIMES[i] <= Doubled(i) + 25 && PRIMES[i] % 2 == 1
  {
    assert Doubled(3) == 384;
    assert Doubled(6) == 3072;
    assert Doubled(9) == 24576;
    assert i == 0 || i == 1 || i == 2 || i == 3 || i == 4 || i == 5 || i == 6 || i == 7 || i == 8 || i == 9
        || i == 10 || i == 11;
  }

  lemma LastDouble(i: nat)
    requires 12 <= i < N_PRIMES
    ensures |PRIMES| == N_PRIMES && Doubled(i) < PRIMES[i] <= Doubled(i) + 25 && PRIMES[i] % 2 == 1
  {
    assert Doubled(12) == 196608;
    assert Doubled(15) == 1572864;
    assert Doubled(18) == 12582912;
    assert Doubled(21) == 100663296;
    assert i == 12 || i == 13 || i == 14 || i == 15 || i == 16 || i == 17 || i == 18 || i == 19 || i == 20 || i == 21
        || i == 22 || i == 23;
  }

  /** (unsigned)(load * len) */
  function LimitFor(load: real, len: nat): int { (load * len as real).Floor }

  /** n elements are at most load a bucket, on average, in len buckets. */
  ghost predicate WithinLoad(load: real, len: nat, n: int) { n as real <= load * len as real }

  /** The load limit of len buckets is the greatest number of elements that are at most load a bucket. */
  lemma LimitIs(load: real, len: nat, n: int)
    ensures n <= LimitFor(load, len) <==> WithinLoad(load, len, n)
  {
    assert LimitFor(load, len) as real <= load * len as real < LimitFor(load, len) as real + 1.0;
  }

  /** The primes that a search passes over are too small. */
  lemma TooSmall(load: real, lo: int, hi: int, size: nat)
    requires -1 <= lo && hi <= |PRIMES| && forall k :: lo < k < hi ==> LimitFor(load, PRIMES[k]) <= size
    ensures forall k :: lo < k < hi ==> !WithinLoad(load, PRIMES[k], size + 1)
  {
    forall k | lo < k < hi ensures !WithinLoad(load, PRIMES[k], size + 1) { LimitIs(load, PRIMES[k], size + 1); }
  }

  /** Load factors under which each prime allows at least two more elements than the one before. */
  predicate LoadOk(load: real) { 0.1 <= load <= 1.0 }

  lemma LimitsGrow(load: real, i: nat)
    requires LoadOk(load) && i + 1 < N_PRIMES
    ensures |PRIMES| == N_PRIMES
    ensures 5 <= LimitFor(load, PRIMES[i]) && LimitFor(load, PRIMES[i]) + 2 <= LimitFor(load, PRIMES[i + 1])
  {
    PrimesGrow(i);
    var p, q := PRIMES[i] as real, PRIMES[i + 1] as real;
    Scale(load, 53.0, p);
    Scale(load, p + 44.0, q);
  }

  lemma Scale(load: real, a: real, b: real)
    requires LoadOk(load) && 0.0 <= a <= b
    ensures load * a <= load * b && load * (a + 44.0) >= load * a + 4.4 && load * a >= 0.1 * a
  {
  }

  /** Bucket b of a table of len buckets holds elements whose cached hash is right and leads there. */
  ghost predicate Placed<K(!new)>(keyOf: Ptr -> K, hashfn: K -> nat, hash: map<Ptr, nat>, row: seq<Ptr>,
                                  len: nat, b: nat)
  {
    forall i :: 0 <= i < |row| ==>
      row[i] in hash && hash[row[i]] == hashfn(keyOf(row[i])) && len > 0 && hash[row[i]] % len == b
  }

  ghost predicate AllPlaced<K(!new)>(keyOf: Ptr -> K, hashfn: K -> nat, hash: map<Ptr, nat>, rows: seq<seq<Ptr>>,
                                     len: nat)
  {
    forall b :: 0 <= b < |rows| ==> Placed(keyOf, hashfn, hash, rows[b], len, b)
  }

  /** The table holds, for each key of m, the element m maps it to, and no other element. */
  ghost predicate Represents<K(!new)>(keyOf: Ptr -> K, rows: seq<seq<Ptr>>, m: map<K, Ptr>) {
    && (forall k :: k in m ==> In(rows, m[k]) && keyOf(m[k]) == k)
    && (forall x :: In(rows, x) ==> keyOf(x) in m && m[keyOf(x)] == x)
  }

  /** An element in the table is in the bucket of its hash. */
  lemma PlacedIn<K(!new)>(keyOf: Ptr -> K, hashfn: K -> nat, hash: map<Ptr, nat>, rows: seq<seq<Ptr>>,
                          len: nat, x: Ptr)
    requires AllPlaced(keyOf, hashfn, hash, rows, len) && In(rows, x)
    ensures x in hash && hash[x] == hashfn(keyOf(x)) && len > 0
    ensures hash[x] % len < |rows| && x in rows[hash[x] % len]
  {
    var b :| 0 <= b < |rows| && x in rows[b];
    assert Placed(keyOf, hashfn, hash, rows[b], len, b);
  }

  lemma PlacedSame<K(!new)>(keyOf: Ptr -> K, hashfn: K -> nat, hash: map<Ptr, nat>, rows: seq<seq<Ptr>>, len: nat,
                            x: Ptr)
    requires AllPlaced(keyOf, hashfn, hash, rows, len)
    ensures AllPlaced(keyOf, hashfn, hash[x := hashfn(keyOf(x))], rows, len)
  {
    var hash' := hash[x := hashfn(keyOf(x))];
    forall b | 0 <= b < |rows| ensures Placed(keyOf, hashfn, hash', rows[b], len, b) {
      assert Placed(keyOf, hashfn, hash, rows[b], len, b);
      forall y | y in hash && hash[y] == hashfn(keyOf(y)) ensures hash'[y] == hash[y] {}
    }
  }

  lemma PlacedInsert<K(!new)>(keyOf: Ptr -> K, hashfn: K -> nat, hash: map<Ptr, nat>, rows: seq<seq<Ptr>>,
                              len: nat, b: nat, i: nat, x: Ptr)
    requires AllPlaced(keyOf, hashfn, hash, rows, len) && b < |rows| && i <= |rows[b]|
    requires len > 0 && x in hash && hash[x] == hashfn(keyOf(x)) && hash[x] % len == b
    ensures AllPlaced(keyOf, hashfn, hash, Insert(rows, b, i, x), len)
  {
    var rows' := Insert(rows, b, i, x);
    forall c | 0 <= c < |rows'| ensures Placed(keyOf, hashfn, hash, rows'[c], len, c) {
      assert Placed(keyOf, hashfn, hash, rows[c], len, c);
      if c == b {
        forall k | 0 <= k < |rows'[b]|
          ensures rows'[b][k] == if k < i then rows[b][k] else if k == i then x else rows[b][k - 1] {}
      }
    }
  }

  lemma PlacedPop<K(!new)>(keyOf: Ptr -> K, hashfn: K -> nat, hash: map<Ptr, nat>, rows: seq<seq<Ptr>>,
                           len: nat, b: nat, i: nat)
    requires AllPlaced(keyOf, hashfn, hash, rows, len) && b < |rows| && i < |rows[b]|
    ensures AllPlaced(keyOf, hashfn, hash, Pop(rows, b, i), len)
  {
    var rows' := Pop(rows, b, i);
    forall c | 0 <= c < |rows'| ensures Placed(keyOf, hashfn, hash, rows'[c], len, c) {
      assert Placed(keyOf, hashfn, hash, rows[c], len, c);
      if c == b {
        forall k | 0 <= k < |rows'[b]| ensures rows'[b][k] == rows[b][if k < i then k else k + 1] {}
      }
    }
  }

  lemma RepresentsInsert<K(!new)>(keyOf: Ptr -> K, rows: seq<seq<Ptr>>, m: map<K, Ptr>, b: nat, i: nat, x: Ptr)
    requires Represents(keyOf, rows, m) && Distinct(rows) && b < |rows| && i <= |rows[b]|
    requires keyOf(x) !in m
    ensures !In(rows, x) && Represents(keyOf, Insert(rows, b, i, x), m[keyOf(x) := x])
    ensures |m[keyOf(x) := x]| == |m| + 1
  {
    InsertKeeps(rows, b, i, x);
  }

  lemma RepresentsPop<K(!new)>(keyOf: Ptr -> K, rows: seq<seq<Ptr>>, m: map<K, Ptr>, b: nat, i: nat)
    requires Represents(keyOf, rows, m) && Distinct(rows) && b < |rows| && i < |rows[b]|
    ensures var x := rows[b][i];
            && Represents(keyOf, Pop(rows, b, i), m - {keyOf(x)}) && keyOf(x) in m
            && |m - {keyOf(x)}| + 1 == |m|
  {
    PopKeeps(rows, b, i);
    InHere(rows, b, i);
    var x := rows[b][i];
    var m' := m - {keyOf(x)};
    assert m == m'[keyOf(x) := x];
  }

  /** The chains are sound, hold what m says, each element in the bucket of its hash, n in all. */
  ghost predicate Sound<K(!new)>(keyOf: Ptr -> K, hashfn: K -> nat, heads: seq<Ptr>, next: Links,
                                 hash: map<Ptr, nat>, len: nat, n: nat, rows: seq<seq<Ptr>>, m: map<K, Ptr>)
  {
    && RowsLinked(heads, next, rows) && AllPlaced(keyOf, hashfn, hash, rows, len)
    && Represents(keyOf, rows, m) && n == Total(rows) == |m|
  }

  lemma UnlinkSound<K(!new)>(keyOf: Ptr -> K, hashfn: K -> nat, heads: seq<Ptr>, next: Links, hash: map<Ptr, nat>,
                             len: nat, n: nat, rows: seq<seq<Ptr>>, m: map<K, Ptr>, p: Slot, b: nat, i: nat)
    requires Sound(keyOf, hashfn, heads, next, hash, len, n, rows, m)
    requires SlotAt(rows, p, b, i) && i < |rows[b]|
    ensures SlotOk(heads, next, p) && Load(heads, next, p) == rows[b][i] != 0 && rows[b][i] in next && n > 0
    ensures var r := rows[b][i];
            var v := next[r];
            && Sound(keyOf, hashfn, HeadsAfter(heads, p, v), LinksAfter(next, p, v), hash, len, n - 1,
                     Pop(rows, b, i), m - {keyOf(r)})
            && keyOf(r) in m && m[keyOf(r)] == r && !In(Pop(rows, b, i), r)
  {
    SlotHolds(heads, next, rows, p, b, i);
    UnlinkOk(heads, next, rows, p, b, i);
    PlacedPop(keyOf, hashfn, hash, rows, len, b, i);
    RepresentsPop(keyOf, rows, m, b, i);
    PopKeeps(rows, b, i);
    InHere(rows, b, i);
    assert Linked(next, rows[b], heads[b]);
  }

  lemma EmptySound<K(!new)>(keyOf: Ptr -> K, hashfn: K -> nat, next: Links, hash: map<Ptr, nat>)
    ensures Sound(keyOf, hashfn, [], next, hash, 0, 0, [], map[])
  {
  }

  lemma LinkSound<K(!new)>(keyOf: Ptr -> K, hashfn: K -> nat, heads: seq<Ptr>, next: Links, hash: map<Ptr, nat>,
                           len: nat, n: nat, rows: seq<seq<Ptr>>, m: map<K, Ptr>, p: Slot, b: nat, i: nat, e: Ptr)
    requires Sound(keyOf, hashfn, heads, next, hash, len, n, rows, m)
    requires SlotAt(rows, p, b, i) && e != 0 && keyOf(e) !in m
    requires e in hash && hash[e] == hashfn(keyOf(e)) && len > 0 && b == hash[e] % len
    requires e in next && next[e] == Nth(rows[b], i)
    ensures SlotOk(heads, next, p)
    ensures Sound(keyOf, hashfn, HeadsAfter(heads, p, e), LinksAfter(next, p, e), hash, len, n + 1,
                  Insert(rows, b, i, e), m[keyOf(e) := e])
  {
    RepresentsInsert(keyOf, rows, m, b, i, e);
    LinkOk(heads, next, rows, p, b, i, e);
    PlacedInsert(keyOf, hashfn, hash, rows, len, b, i, e);
    InsertKeeps(rows, b, i, e);
  }

  lemma OutsideSound<K(!new)>(keyOf: Ptr -> K, hashfn: K -> nat, heads: seq<Ptr>, next: Links, hash: map<Ptr, nat>,
                              len: nat, n: nat, rows: seq<seq<Ptr>>, m: map<K, Ptr>, e: Ptr, v: Ptr)
    requires Sound(keyOf, hashfn, heads, next, hash, len, n, rows, m)
    ensures Sound(keyOf, hashfn, heads, next, hash[e := hashfn(keyOf(e))], len, n, rows, m)
    ensures !In(rows, e) ==> Sound(keyOf, hashfn, heads, next[e := v], hash, len, n, rows, m)
  {
    PlacedSame(keyOf, hashfn, hash, rows, len, e);
    if !In(rows, e) { OutsideOk(heads, next, rows, e, v); }
  }

  lemma NothingThere<K(!new)>(keyOf: Ptr -> K, hashfn: K -> nat, next: Links, hash: map<Ptr, nat>, len: nat, n: nat,
                              rows: seq<seq<Ptr>>, m: map<K, Ptr>)
    requires Sound(keyOf, hashfn, [], next, hash, len, n, rows, m)
    ensures m == map[] && n == 0
  {
    assert m.Keys == {};
  }

  lemma SoundHashed<K(!new)>(keyOf: Ptr -> K, hashfn: K -> nat, heads: seq<Ptr>, next: Links, hash: map<Ptr, nat>,
                             len: nat, n: nat, rows: seq<seq<Ptr>>, m: map<K, Ptr>)
    requires Sound(keyOf, hashfn, heads, next, hash, len, n, rows, m) && len == |heads|
    ensures RowsLinked(heads, next, rows) && Hashed(hash, rows) && AllSettled(hash, rows, len)
  {
    forall x | In(rows, x) ensures x in hash { PlacedIn(keyOf, hashfn, hash, rows, len, x); }
    forall b | 0 <= b < len ensures Settled(hash, rows[b], len, b) {
      assert Placed(keyOf, hashfn, hash, rows[b], len, b);
    }
  }

  /** The same elements, in the buckets of a table of len' buckets. */
  lemma RehashedSound<K(!new)>(keyOf: Ptr -> K, hashfn: K -> nat, heads: seq<Ptr>, next: Links, hash: map<Ptr, nat>,
                               len: nat, n: nat, rows: seq<seq<Ptr>>, m: map<K, Ptr>,
                               heads': seq<Ptr>, next': Links, rows': seq<seq<Ptr>>, len': nat)
    requires Sound(keyOf, hashfn, heads, next, hash, len, n, rows, m)
    requires RowsLinked(heads', next', rows') && SameElements(rows, rows') && AllSettled(hash, rows', len')
    ensures Sound(keyOf, hashfn, heads', next', hash, len', n, rows', m)
  {
    forall b | 0 <= b < |rows'| ensures Placed(keyOf, hashfn, hash, rows'[b], len', b) {
      assert Settled(hash, rows'[b], len', b);
      forall i | 0 <= i < |rows'[b]| ensures hash[rows'[b][i]] == hashfn(keyOf(rows'[b][i])) {
        InHere(rows', b, i);
        PlacedIn(keyOf, hashfn, hash, rows, len, rows'[b][i]);
      }
    }
  }

  /** The search for a larger prime ends inside the list if and only if the last prime is large enough; if
      not, it goes on to read behind the list. */
  lemma ClimbStops(load: real, idx: int, size: nat)
    requires LoadOk(load) && -1 <= idx < N_PRIMES - 1
    ensures |PRIMES| == N_PRIMES
    ensures (exists k :: idx < k < N_PRIMES && LimitFor(load, PRIMES[k]) > size)
        <==> LimitFor(load, PRIMES[N_PRIMES - 1]) > size
  {
    PrimesGrow(0);
    forall k | idx < k < N_PRIMES ensures LimitFor(load, PRIMES[k]) <= LimitFor(load, PRIMES[N_PRIMES - 1]) {
      LimitsRise(load, k, N_PRIMES - 1);
    }
  }

  lemma {:induction false} LimitsRise(load: real, i: nat, j: nat)
    requires LoadOk(load) && i <= j < N_PRIMES
    ensures |PRIMES| == N_PRIMES && 5 <= LimitFor(load, PRIMES[i]) <= LimitFor(load, PRIMES[j])
    decreases j - i
  {
    if i < j {
      LimitsGrow(load, i);
      LimitsRise(load, i + 1, j);
    } else if i + 1 < N_PRIMES {
      LimitsGrow(load, i);
    } else {
      LimitsGrow(load, i - 1);
    }
  }

  lemma {:induction false} PrimesRise(i: int, j: int)
    requires -1 <= i < j < N_PRIMES
    ensures |PRIMES| == N_PRIMES && 53 <= PRIMES[j] && (0 <= i ==> PRIMES[i] <= PRIMES[j])
    decreases j - i
  {
    if j + 1 < N_PRIMES { PrimesGrow(j); }
    if 0 <= i { PrimesGrow(i); }
    if i + 1 < j { PrimesRise(i + 1, j); }
  }

  /** The search of HT_GROW(size) for a prime does not leave the list, or is not begun. */
  predicate StaysInList(load: real, primeIdx: int, loadLimit: int, size: int) {
    primeIdx == N_PRIMES - 1 || loadLimit > size || LimitFor(load, PRIMES[N_PRIMES - 1]) > size
  }

  /** A table that is not too full and must grow for one more element need only go to the next prime. */
  lemma OnePrimeAhead(load: real, idx: int, limit: int, n: int)
    requires LoadOk(load) && -1 <= idx < N_PRIMES - 1 && 0 <= n <= limit && |PRIMES| == N_PRIMES
    requires limit == if idx == -1 then 0 else LimitFor(load, PRIMES[idx])
    ensures LimitFor(load, PRIMES[idx + 1]) > n + 1 && StaysInList(load, idx, limit, n + 1)
  {
    if idx == -1 { LimitsGrow(load, 0); } else { LimitsGrow(load, idx); }
    LimitsRise(load, idx + 1, N_PRIMES - 1);
  }

  lemma NextBears(load: real, idx: int, limit: int, n: int)
    requires LoadOk(load) && -1 <= idx < N_PRIMES && limit == if idx == -1 then 0 else LimitFor(load, PRIMES[idx])
    ensures |PRIMES| == N_PRIMES && (idx == N_PRIMES - 1 ==> StaysInList(load, idx, limit, n + 1))
    ensures idx < N_PRIMES - 1 && 0 <= n <= limit ==>
      StaysInList(load, idx, limit, n + 1) && WithinLoad(load, PRIMES[idx + 1], n + 2)
  {
    hide LimitFor, LoadOk, WithinLoad;
    PrimesGrow(0);
    if idx < N_PRIMES - 1 && 0 <= n <= limit {
      OnePrimeAhead(load, idx, limit, n);
      LimitIs(load, PRIMES[idx + 1], n + 2);
    }
  }

  /** An element put behind the end of a chain must bring a null next pointer. */
  lemma AppendOk(heads: seq<Ptr>, next: Links, rows: seq<seq<Ptr>>, p: Slot, b: nat, e: Ptr)
    requires RowsLinked(heads, next, rows) && b < |rows| && SlotAt(rows, p, b, |rows[b]|)
    requires !In(rows, e) && e != 0 && e in next
    ensures SlotOk(heads, next, p)
    ensures RowsLinked(HeadsAfter(heads, p, e), LinksAfter(next, p, e), Insert(rows, b, |rows[b]|, e)) <==> next[e] == 0
  {
    var i := |rows[b]|;
    SlotHolds(heads, next, rows, p, b, i);
    if next[e] == 0 { LinkOk(heads, next, rows, p, b, i, e); }
    var heads', next', rows' := HeadsAfter(heads, p, e), LinksAfter(next, p, e), Insert(rows, b, i, e);
    assert rows'[b][i] == e;
    if i > 0 { InHere(rows, b, i - 1); }
    assert next'[e] == next[e];
    if RowsLinked(heads', next', rows') { assert Linked(next', rows'[b], heads'[b]); }
  }

  lemma FrontOf<K(!new)>(keyOf: Ptr -> K, hashfn: K -> nat, heads: seq<Ptr>, next: Links, hash: map<Ptr, nat>,
                         len: nat, n: nat, rows: seq<seq<Ptr>>, m: map<K, Ptr>, e: Ptr, b: nat)
    requires Sound(keyOf, hashfn, heads, next, hash, len, n, rows, m) && b < |heads|
    ensures SlotAt(rows, Bucket(b), b, 0) && heads[b] == Nth(rows[b], 0)
    ensures keyOf(e) !in m ==> !In(rows, e)
  {
    SlotHolds(heads, next, rows, Bucket(b), b, 0);
  }

  /** The next pointers after e took the place of r at slot p. */
  function SwappedLinks(next: Links, p: Slot, r: Ptr, e: Ptr): Links
    requires r in next
  {
    LinksAfter(next, p, e)[e := next[r]][r := 0]
  }

  /** One element in the place of another with the same key. */
  lemma SwapSound<K(!new)>(keyOf: Ptr -> K, hashfn: K -> nat, heads: seq<Ptr>, next: Links, hash: map<Ptr, nat>,
                           len: nat, n: nat, rows: seq<seq<Ptr>>, m: map<K, Ptr>, p: Slot, b: nat, i: nat, e: Ptr)
    requires Sound(keyOf, hashfn, heads, next, hash, len, n, rows, m)
    requires SlotAt(rows, p, b, i) && i < |rows[b]| && keyOf(rows[b][i]) == keyOf(e) && e != 0 && !In(rows, e)
    requires e in hash && hash[e] == hashfn(keyOf(e)) && len > 0 && b == hash[e] % len
    ensures SlotOk(heads, next, p) && rows[b][i] in next && rows[b][i] != e && rows[b][i] != 0
    ensures Load(heads, next, p) == rows[b][i] && (p.NextOf? ==> p.e != e && p.e != rows[b][i])
    ensures b < |Pop(rows, b, i)| && i <= |Pop(rows, b, i)[b]|
    ensures Sound(keyOf, hashfn, HeadsAfter(heads, p, e), SwappedLinks(next, p, rows[b][i], e), hash, len, n,
                  Insert(Pop(rows, b, i), b, i, e), m[keyOf(e) := e])
  {
    var r := rows[b][i];
    UnlinkSound(keyOf, hashfn, heads, next, hash, len, n, rows, m, p, b, i);
    InHere(rows, b, i);
    SwapSlots(heads, next, rows, p, b, i);
    if i > 0 { InHere(rows, b, i - 1); }
    var v := next[r];
    var heads1, next1, rows1, m1 := HeadsAfter(heads, p, v), LinksAfter(next, p, v), Pop(rows, b, i), m - {keyOf(r)};
    assert p.NextOf? ==> p.e != e && p.e != r;
    SwapValues(heads, next, p, r, e, m, keyOf(e));
    SwapDistinct(rows, b, i, e);
    assert e in next1[e := v] && next1[e := v][e] == Nth(rows1[b], i);
    hide Sound, In, Pop, Insert, LinksAfter, HeadsAfter, SwappedLinks, Nth;
    OutsideSound(keyOf, hashfn, heads1, next1, hash, len, n - 1, rows1, m1, e, v);
    LinkSound(keyOf, hashfn, heads1, next1[e := v], hash, len, n - 1, rows1, m1, p, b, i, e);
    OutsideSound(keyOf, hashfn, HeadsAfter(heads1, p, e), LinksAfter(next1[e := v], p, e), hash, len, n,
                 Insert(rows1, b, i, e), m1[keyOf(e) := e], r, 0);
  }

  lemma SwapValues<K>(heads: seq<Ptr>, next: Links, p: Slot, r: Ptr, e: Ptr, m: map<K, Ptr>, k: K)
    requires SlotOk(heads, next, p) && r in next && r != e && (p.NextOf? ==> p.e != e && p.e != r)
    ensures var v := next[r];
            && LinksAfter(LinksAfter(next, p, v)[e := v], p, e)[r := 0] == SwappedLinks(next, p, r, e)
            && HeadsAfter(HeadsAfter(heads, p, v), p, e) == HeadsAfter(heads, p, e)
            && (m - {k})[k := e] == m[k := e]
  {
  }

  lemma SwapSlots(heads: seq<Ptr>, next: Links, rows: seq<seq<Ptr>>, p: Slot, b: nat, i: nat)
    requires RowsLinked(heads, next, rows) && SlotAt(rows, p, b, i) && i < |rows[b]|
    ensures p.NextOf? ==> i > 0 && p.e == rows[b][i - 1] != rows[b][i]
    ensures SlotAt(Pop(rows, b, i), p, b, i)
    ensures rows[b][i] in next && Nth(Pop(rows, b, i)[b], i) == next[rows[b][i]]
  {
    assert Linked(next, rows[b], heads[b]);
    RowNoRepeat(rows, b);
  }

  lemma SwapDistinct(rows: seq<seq<Ptr>>, b: nat, i: nat, e: Ptr)
    requires Distinct(rows) && b < |rows| && i < |rows[b]| && !In(rows, e)
    ensures !In(Pop(rows, b, i), e) && i <= |Pop(rows, b, i)[b]| && !In(Insert(Pop(rows, b, i), b, i, e), rows[b][i])
  {
    InHere(rows, b, i);
    PopKeeps(rows, b, i);
    InsertKeeps(Pop(rows, b, i), b, i, e);
  }

  /** A table of distinct keys holds e just if it maps e's key to e; and it does not count anything twice. */
  lemma SoundIn<K(!new)>(keyOf: Ptr -> K, hashfn: K -> nat, heads: seq<Ptr>, next: Links, hash: map<Ptr, nat>,
                         len: nat, n: nat, rows: seq<seq<Ptr>>, m: map<K, Ptr>, e: Ptr)
    requires Sound(keyOf, hashfn, heads, next, hash, len, n, rows, m)
    ensures In(rows, e) <==> keyOf(e) in m && m[keyOf(e)] == e
    ensures n == |m| && !Sound(keyOf, hashfn, heads, next, hash, len, n + 1, rows, m)
  {
  }

  /** The first element of a chain that is not empty is in the bucket of its hash. */
  lemma FirstOf<K(!new)>(keyOf: Ptr -> K, hashfn: K -> nat, heads: seq<Ptr>, next: Links, hash: map<Ptr, nat>,
                         len: nat, n: nat, rows: seq<seq<Ptr>>, m: map<K, Ptr>, b: nat)
    requires Sound(keyOf, hashfn, heads, next, hash, len, n, rows, m) && b < |heads|
    ensures |rows| == |heads| && (heads[b] == 0 <==> rows[b] == []) && SlotAt(rows, Bucket(b), b, 0)
    ensures heads[b] != 0 ==> heads[b] in hash && len > 0 && hash[heads[b]] % len == b && heads[b] == rows[b][0]
  {
    SlotHolds(heads, next, rows, Bucket(b), b, 0);
    assert Placed(keyOf, hashfn, hash, rows[b], len, b);
  }

  /** What a walk needs to know of the element it is at. */
  lemma HereAt<K(!new)>(keyOf: Ptr -> K, hashfn: K -> nat, heads: seq<Ptr>, next: Links, hash: map<Ptr, nat>,
                        len: nat, n: nat, rows: seq<seq<Ptr>>, m: map<K, Ptr>, p: Slot, b: nat, i: nat)
    requires Sound(keyOf, hashfn, heads, next, hash, len, n, rows, m) && SlotAt(rows, p, b, i) && i < |rows[b]|
    ensures SlotOk(heads, next, p) && Load(heads, next, p) == rows[b][i] && |rows| == |heads|
    ensures var e := rows[b][i];
            && e in hash && len > 0 && hash[e] % len == b && e in next
            && next[e] == Nth(rows[b], i + 1) && (next[e] == 0 <==> i + 1 == |rows[b]|)
            && (next[e] != 0 ==> next[e] in hash && hash[next[e]] % len == b)
  {
    SlotHolds(heads, next, rows, p, b, i);
    assert Linked(next, rows[b], heads[b]);
    assert Placed(keyOf, hashfn, hash, rows[b], len, b);
  }

  lemma StillIn<T>(rows: seq<seq<T>>, rows': seq<seq<T>>, drop: T -> bool, x: T)
    requires Flat(rows') == Kept(Flat(rows), drop)
    ensures In(rows', x) <==> In(rows, x) && !drop(x)
  {
    KeptIn(Flat(rows), drop, x);
    FlatIn(rows, x);
    FlatIn(rows', x);
  }

  /** A table of the elements that are not dropped stands for the map without them. */
  lemma SoundKept<K(!new)>(keyOf: Ptr -> K, hashfn: K -> nat, heads: seq<Ptr>, next: Links, hash: map<Ptr, nat>,
                           len: nat, n: nat, rows: seq<seq<Ptr>>, m: map<K, Ptr>, rows': seq<seq<Ptr>>,
                           m': map<K, Ptr>, drop: Ptr -> bool, heads0: seq<Ptr>, next0: Links, n0: nat)
    requires Sound(keyOf, hashfn, heads0, next0, hash, len, n0, rows, m)
    requires Sound(keyOf, hashfn, heads, next, hash, len, n, rows', m') && Flat(rows') == Kept(Flat(rows), drop)
    ensures forall k :: k in m' <==> k in m && !drop(m[k])
    ensures forall k :: k in m' ==> m'[k] == m[k]
  {
    forall k ensures (k in m' <==> k in m && !drop(m[k])) && (k in m' ==> m'[k] == m[k]) {
      if k in m' { StillIn(rows, rows', drop, m'[k]); }
      if k in m { StillIn(rows, rows', drop, m[k]); }
    }
  }

  lemma NotPlaced<K(!new)>(keyOf: Ptr -> K, hashfn: K -> nat, hash: map<Ptr, nat>, rows: seq<seq<Ptr>>, len: nat,
                           b: nat, i: nat)
    requires b < |rows| && i < |rows[b]| && len > 0 && rows[b][i] in hash
    requires hash[rows[b][i]] != hashfn(keyOf(rows[b][i])) || hash[rows[b][i]] % len != b
    ensures !AllPlaced(keyOf, hashfn, hash, rows, len)
  {
    assert !Placed(keyOf, hashfn, hash, rows[b], len, b);
  }

  lemma HashedAt(hash: map<Ptr, nat>, rows: seq<seq<Ptr>>, b: nat, i: nat)
    requires Hashed(hash, rows) && b < |rows| && i < |rows[b]|
    ensures rows[b][i] in hash
  {
    InHere(rows, b, i);
  }

  lemma ChainAt(heads: seq<Ptr>, next: Links, rows: seq<seq<Ptr>>, b: nat, i: nat)
    requires RowsLinked(heads, next, rows) && b < |rows| && i < |rows[b]|
    ensures rows[b][i] in next && next[rows[b][i]] == Nth(rows[b], i + 1)
    ensures next[rows[b][i]] == 0 <==> i + 1 == |rows[b]|
  {
    assert Linked(next, rows[b], heads[b]);
  }

  lemma EmptyPlaced<K(!new)>(keyOf: Ptr -> K, hashfn: K -> nat, heads: seq<Ptr>, next: Links, hash: map<Ptr, nat>,
                             rows: seq<seq<Ptr>>)
    requires RowsLinked(heads, next, rows) && heads == []
    ensures AllPlaced(keyOf, hashfn, hash, rows, 0) && Total(rows) == 0
  {
  }

  class Table<K(==,!new)> {
    /** The fields of the caller's struct that decide equality. */
    const keyOf: Ptr -> K
    const hashfn: K -> nat
    const load: real
    /** hth_table, which is NULL while it is []. */
    var heads: seq<Ptr>
    /** hte_next and hte_hash of the elements there are. */
    var next: Links
    var hash: map<Ptr, nat>
    var tableLength: nat
    var nEntries: nat
    var loadLimit: int
    var primeIdx: int
    /** The elements of each bucket, in the order of its chain. */
    ghost var rows: seq<seq<Ptr>>
    /** What the table stands for. */
    ghost var contents: map<K, Ptr>

    ghost predicate Shape()
      reads this
    {
      Sound(keyOf, hashfn, heads, next, hash, tableLength, nEntries, rows, contents)
    }

    /** The sizes fit the position in the list of primes. */
    ghost predicate Sized()
      reads this
    {
      && tableLength == |heads| && LoadOk(load)
      && if heads == [] then loadLimit == 0 && primeIdx == -1
         else 0 <= primeIdx < N_PRIMES && tableLength == PRIMES[primeIdx]
              && loadLimit == LimitFor(load, tableLength)
    }

    ghost predicate Valid()
      reads this
    {
      Shape() && Sized()
    }

    /** Is the table not fuller than it should be? That is kept up to the last prime. */
    ghost predicate Loaded()
      reads this
    {
      nEntries <= loadLimit
    }

    /** The load limit in terms of the load factor: a table is not too full if it has at most load elements a bucket
        on average, and it is full if one more would be too many. */
    lemma LoadIs(n: nat)
      requires Sized()
      ensures Loaded() <==> WithinLoad(load, tableLength, nEntries)
      ensures loadLimit <= n <==> !WithinLoad(load, tableLength, n + 1)
    {
      LimitIs(load, tableLength, nEntries);
      LimitIs(load, tableLength, n + 1);
    }

    /** HT_INIT */
    constructor (keyOf: Ptr -> K, hashfn: K -> nat, load: real)
      requires LoadOk(load)
      ensures Valid() && Loaded() && contents == map[]
      ensures this.keyOf == keyOf && this.hashfn == hashfn && this.load == load
    {
      this.keyOf, this.hashfn, this.load := keyOf, hashfn, load;
      heads, next, hash, rows, contents := [], map[], map[], [], map[];
      tableLength, nEntries, loadLimit, primeIdx := 0, 0, 0, -1;
    }

    /** HT_FIND_P_ with the key of elm: the slot that points to the equal element, or the end of the
        chain it would be in. */
    method FindP(elm: Ptr) returns (p: Slot, ghost b: nat, ghost i: nat)
      requires Valid() && heads != [] && elm in hash && hash[elm] == hashfn(keyOf(elm))
      ensures SlotAt(rows, p, b, i) && SlotOk(heads, next, p) && b == hash[elm] % tableLength
      ensures Load(heads, next, p) == Nth(rows[b], i) && (Load(heads, next, p) == 0 <==> i == |rows[b]|)
      ensures i < |rows[b]| ==> keyOf(rows[b][i]) == keyOf(elm)
      ensures if i < |rows[b]| then keyOf(elm) in contents && contents[keyOf(elm)] == rows[b][i]
              else keyOf(elm) !in contents
    {
      hide LimitFor, LoadOk, Total;
      p := Bucket(hash[elm] % tableLength);
      b, i := hash[elm] % tableLength, 0;
      SlotHolds(heads, next, rows, p, b, i);
      var e := Load(heads, next, p);
      while e != 0 && keyOf(e) != keyOf(elm)
        invariant SlotAt(rows, p, b, i) && SlotOk(heads, next, p)
        invariant e == Load(heads, next, p) == Nth(rows[b], i) && (e == 0 <==> i == |rows[b]|)
        invariant forall k :: 0 <= k < i ==> keyOf(rows[b][k]) != keyOf(elm)
        decreases |rows[b]| - i
      {
        p := NextOf(e);
        i := i + 1;
        SlotHolds(heads, next, rows, p, b, i);
        e := Load(heads, next, p);
      }
      if e != 0 {
        InHere(rows, b, i);
      } else if keyOf(elm) in contents {
        PlacedIn(keyOf, hashfn, hash, rows, tableLength, contents[keyOf(elm)]);
      }
    }

    /** HT_SET_HASH_ */
    method SetHash(elm: Ptr)
      requires Valid()
      modifies this`hash
      ensures Valid() && elm in hash && hash[elm] == hashfn(keyOf(elm))
    {
      OutsideSound(keyOf, hashfn, heads, next, hash, tableLength, nEntries, rows, contents, elm, 0);
      hash := hash[elm := hashfn(keyOf(elm))];
    }

    /** HT_FIND */
    method Find(elm: Ptr) returns (r: Ptr)
      requires Valid()
      modifies this`hash
      ensures Valid()
      ensures r == if keyOf(elm) in contents then contents[keyOf(elm)] else 0
    {
      SetHash(elm);
      if heads == [] {
        r := 0;
      } else {
        var p;
        ghost var b, i;
        p, b, i := FindP(elm);
        r := Load(heads, next, p);
      }
    }

    /** *p = v */
    method Store(p: Slot, v: Ptr)
      requires p.Bucket? ==> p.b < |heads|
      modifies this`heads, this`next
      ensures heads == HeadsAfter(old(heads), p, v) && next == LinksAfter(old(next), p, v)
    {
      if p.Bucket? {
        heads := heads[p.b := v];
      } else {
        next := next[p.e := v];
      }
    }

    /** Taking the element that p points to out of its chain. */
    method Unlink(p: Slot, ghost b: nat, ghost i: nat) returns (r: Ptr)
      requires Valid() && SlotAt(rows, p, b, i) && i < |rows[b]|
      modifies this`heads, this`next, this`rows, this`contents, this`nEntries
      ensures Valid() && r == old(rows)[b][i] && rows == Pop(old(rows), b, i) && r != 0
      ensures keyOf(r) in old(contents) && contents == old(contents) - {keyOf(r)}
      ensures !In(rows, r) && nEntries == old(nEntries) - 1
    {
      hide Sound, LimitFor, LoadOk, WithinLoad;
      UnlinkSound(keyOf, hashfn, heads, next, hash, tableLength, nEntries, rows, contents, p, b, i);
      r := Load(heads, next, p);
      Store(p, next[r]);
      nEntries := nEntries - 1;
      rows := Pop(rows, b, i);
      contents := contents - {keyOf(r)};
    }

    /** An element that is in no chain may have any next pointer. */
    method SetNext(e: Ptr, v: Ptr)
      requires Valid() && !In(rows, e)
      modifies this`next
      ensures Valid() && next == old(next)[e := v]
    {
      OutsideSound(keyOf, hashfn, heads, next, hash, tableLength, nEntries, rows, contents, e, v);
      next := next[e := v];
    }

    /** *p = elm, for an element with a new key whose next pointer is what p pointed to. */
    method LinkIn(p: Slot, elm: Ptr, ghost b: nat, ghost i: nat)
      requires Valid() && SlotAt(rows, p, b, i) && elm != 0 && keyOf(elm) !in contents
      requires elm in hash && hash[elm] == hashfn(keyOf(elm)) && tableLength > 0 && b == hash[elm] % tableLength
      requires elm in next && next[elm] == Nth(rows[b], i)
      modifies this`heads, this`next, this`rows, this`contents, this`nEntries
      ensures Valid() && rows == Insert(old(rows), b, i, elm)
      ensures contents == old(contents)[keyOf(elm) := elm] && nEntries == old(nEntries) + 1
    {
      hide Sound, LimitFor, LoadOk, WithinLoad, Insert, Nth;
      LinkSound(keyOf, hashfn, heads, next, hash, tableLength, nEntries, rows, contents, p, b, i, elm);
      Store(p, elm);
      nEntries := nEntries + 1;
      rows := Insert(rows, b, i, elm);
      contents := contents[keyOf(elm) := elm];
    }

    /** HT_REMOVE */
    method Remove(elm: Ptr) returns (r: Ptr)
      requires Valid()
      modifies this
      ensures Valid()
      ensures if keyOf(elm) in old(contents)
        then r == old(contents)[keyOf(elm)] && contents == old(contents) - {keyOf(elm)} && r in next && next[r] == 0
        else r == 0 && contents == old(contents)
      ensures old(Loaded()) ==> Loaded()
    {
      hide Sound, LimitFor, LoadOk, WithinLoad;
      SetHash(elm);
      if heads == [] {
        NothingThere(keyOf, hashfn, next, hash, tableLength, nEntries, rows, contents);
        return 0;
      }
      var p;
      ghost var b, i;
      p, b, i := FindP(elm);
      if Load(heads, next, p) == 0 {
        return 0;
      }
      r := Unlink(p, b, i);
      SetNext(r, 0);
    }

    /** The first prime after the present one under whose limit `size` is, as HT_GROW looks for it. */
    method Climb(size: nat) returns (idx: int, newLen: nat, newLimit: int)
      requires LoadOk(load) && -1 <= primeIdx < N_PRIMES - 1 && |PRIMES| == N_PRIMES
      requires LimitFor(load, PRIMES[N_PRIMES - 1]) > size
      ensures primeIdx < idx < N_PRIMES && newLen == PRIMES[idx] && newLimit == LimitFor(load, newLen) > size
      ensures WithinLoad(load, newLen, size + 1)
      ensures forall k :: primeIdx < k < idx ==> !WithinLoad(load, PRIMES[k], size + 1)
    {
      hide LimitFor, WithinLoad;
      idx := primeIdx + 1;
      newLen := PRIMES[idx];
      newLimit := LimitFor(load, newLen);
      while newLimit <= size && idx < N_PRIMES
        invariant primeIdx < idx < N_PRIMES && newLen == PRIMES[idx] && newLimit == LimitFor(load, newLen)
        invariant forall k :: primeIdx < k < idx ==> LimitFor(load, PRIMES[k]) <= size
        decreases N_PRIMES - idx
      {
        idx := idx + 1;
        newLen := PRIMES[idx];
        newLimit := LimitFor(load, newLen);
      }
      LimitIs(load, newLen, size + 1);
      TooSmall(load, primeIdx, idx, size);
    }

    /** HT_GROW's inner loop over bucket b, into a fresh table. */
    method RefillBucket(b: nat, newLen: nat, table0: seq<Ptr>, ghost both0: seq<seq<Ptr>>)
      returns (table: seq<Ptr>, ghost both: seq<seq<Ptr>>)
      requires b < |heads| && newLen == |table0| > 0 && |both0| == |heads| + newLen
      requires Draining(heads, b, heads[b], table0, next, hash, rows, both0)
      requires forall r :: 0 <= r < b ==> both0[r] == []
      modifies this`next
      ensures |table| == newLen && |both| == |heads| + newLen && Draining(heads, b, 0, table, next, hash, rows, both)
      ensures (forall r :: 0 <= r < b ==> both[r] == []) && Aside(rows, old(next), next)
    {
      hide Draining, Aside, In;
      AsideRefl(rows, next);
      table, both := table0, both0;
      var elm := heads[b];
      while elm != 0
        invariant |table| == newLen && |both| == |heads| + newLen && Draining(heads, b, elm, table, next, hash, rows, both)
        invariant (forall r :: 0 <= r < b ==> both[r] == []) && Aside(rows, old(next), next)
        decreases |both[b]|
      {
        DrainStep(heads, b, elm, table, next, hash, rows, both);
        both := Insert(Pop(both, b, 0), |heads| + hash[elm] % newLen, 0, elm);
        var after := next[elm];
        var b2 := hash[elm] % newLen;
        AsideStep(rows, old(next), next, elm, table[b2]);
        next := next[elm := table[b2]];
        table := table[b2 := elm];
        elm := after;
      }
    }

    /** HT_GROW's loops over a table of its own: every element is taken from its old bucket to its new one. */
    method Refill(newLen: nat) returns (table: seq<Ptr>, ghost now: seq<seq<Ptr>>)
      requires Valid() && newLen > 0
      modifies this`next
      ensures RowsLinked(table, next, now) && SameElements(rows, now) && AllSettled(hash, now, newLen)
      ensures |table| == newLen && Aside(rows, old(next), next)
    {
      hide Sound, RowsLinked, SameElements, Hashed, AllSettled, LimitFor, LoadOk, In, Aside, Draining;
      AsideRefl(rows, next);
      SoundHashed(keyOf, hashfn, heads, next, hash, tableLength, nEntries, rows, contents);
      table := seq(newLen, _ => 0);
      DrainStart(heads, next, hash, rows, newLen);
      ghost var both: seq<seq<Ptr>> := rows + seq(newLen, _ => []);
      var b := 0;
      while b < tableLength
        invariant 0 <= b <= tableLength == |heads| && |table| == newLen && |both| == tableLength + newLen
        invariant Draining(heads, b, if b < |heads| then heads[b] else 0, table, next, hash, rows, both)
        invariant (forall r :: 0 <= r < b ==> both[r] == []) && Aside(rows, old(next), next)
      {
        ghost var before := next;
        table, both := RefillBucket(b, newLen, table, both);
        AsideTrans(rows, old(next), before, next);
        DrainNext(heads, b, table, next, hash, rows, both);
        b := b + 1;
      }
      DrainEnd(heads, table, next, hash, rows, both);
      now := both[|heads|..];
    }

    /** HT_GROW's inner loop over bucket b of the table itself: an element whose bucket is another now is moved
        to the front of that. */
    method ResortBucket(b: nat, table0: seq<Ptr>, ghost now0: seq<seq<Ptr>>, ghost moved0: set<Ptr>)
      returns (table: seq<Ptr>, ghost now: seq<seq<Ptr>>, ghost moved: set<Ptr>, ghost moves: nat)
      requires b < tableLength <= |table0| == |now0|
      requires Sorting(table0, next, hash, rows, tableLength, b, 0, now0) && MovedOnce(hash, tableLength, now0, moved0)
      modifies this`next
      ensures |table| == |now| == |table0| && Sorting(table, next, hash, rows, tableLength, b + 1, 0, now)
      ensures MovedOnce(hash, tableLength, now, moved) && |moved| == |moved0| + moves && Aside(rows, old(next), next)
    {
      hide RowsLinked, SameElements, Hashed, LimitFor, LoadOk, SettledSofar, MovedOnce, Total, In, Aside;
      table, now, moved, moves := table0, now0, moved0, 0;
      AsideRefl(rows, next);
      var pE := Bucket(b);
      ghost var i := 0;
      SlotHolds(table, next, now, pE, b, i);
      var e := Load(table, next, pE);
      while e != 0
        invariant |table| == |now| == |table0| && Sorting(table, next, hash, rows, tableLength, b, i, now)
        invariant SlotAt(now, pE, b, i) && e == Nth(now[b], i) && (e == 0 <==> i == |now[b]|)
        invariant MovedOnce(hash, tableLength, now, moved) && |moved| == |moved0| + moves
        invariant Aside(rows, old(next), next)
        decreases |now[b]| - i
      {
        SortStay(table, next, hash, rows, tableLength, b, i, now);
        var b2 := hash[e] % |table|;
        if b2 == b {
          pE := NextOf(e);
          i := i + 1;
        } else {
          SortMove(table, next, hash, rows, tableLength, b, i, now, pE);
          MoveOnce(hash, tableLength, now, moved, b, i);
          now, moved, moves := Moved(hash, now, b, i), moved + {e}, moves + 1;
          ghost var linked := MovedLinks(table, next, pE, b2);
          var after := next[e];
          if pE.Bucket? {
            table := table[pE.b := after];
          } else {
            AsideStep(rows, old(next), next, pE.e, after);
            next := next[pE.e := after];
          }
          AsideStep(rows, old(next), next, e, table[b2]);
          next := next[e := table[b2]];
          table := table[b2 := e];
          assert (table, next) == linked;
        }
        SlotHolds(table, next, now, pE, b, i);
        e := Load(table, next, pE);
      }
      SortNext(table, next, hash, rows, tableLength, b, i, now);
    }

    /** HT_GROW's loops over the table itself, extended by empty buckets: an element whose bucket is another now
        is moved there, once, and no other element is moved. */
    method Resort(newLen: nat) returns (table: seq<Ptr>, ghost now: seq<seq<Ptr>>, ghost moved: set<Ptr>, ghost moves: nat)
      requires Valid() && newLen >= tableLength && newLen > 0
      modifies this`next
      ensures RowsLinked(table, next, now) && SameElements(rows, now) && AllSettled(hash, now, newLen)
      ensures |table| == newLen && moves == |moved| && Aside(rows, old(next), next)
      ensures forall x :: In(rows, x) ==>
        x in hash && tableLength > 0 && (x in moved <==> hash[x] % tableLength != hash[x] % newLen)
    {
      hide Sound, RowsLinked, SameElements, Hashed, AllSettled, LimitFor, LoadOk, SettledSofar, MovedOnce, In, Aside;
      AsideRefl(rows, next);
      SoundHashed(keyOf, hashfn, heads, next, hash, tableLength, nEntries, rows, contents);
      SortStart(heads, next, hash, rows, newLen - tableLength);
      table := heads + seq(newLen - tableLength, _ => 0);
      now, moved, moves := rows + seq(newLen - tableLength, _ => []), {}, 0;
      var b := 0;
      while b < tableLength
        invariant 0 <= b <= tableLength && |table| == |now| == newLen
        invariant Sorting(table, next, hash, rows, tableLength, b, 0, now)
        invariant MovedOnce(hash, tableLength, now, moved) && moves == |moved| && Aside(rows, old(next), next)
      {
        ghost var more;
        ghost var before := next;
        table, now, moved, more := ResortBucket(b, table, now, moved);
        AsideTrans(rows, old(next), before, next);
        b, moves := b + 1, moves + more;
      }
      SortEnd(table, next, hash, rows, tableLength, now, moved);
    }

    /** The two ways of HT_GROW to a table of the new length. */
    method Rehash(newLen: nat, room: bool) returns (table: seq<Ptr>, ghost now: seq<seq<Ptr>>)
      requires Valid() && newLen >= tableLength && newLen > 0
      modifies this`next
      ensures RowsLinked(table, next, now) && SameElements(rows, now) && AllSettled(hash, now, newLen)
      ensures |table| == newLen && Aside(rows, old(next), next)
    {
      hide Sound, LimitFor, LoadOk, WithinLoad, RowsLinked, SameElements, AllSettled, In, Aside;
      if room {
        table, now := Refill(newLen);
      } else {
        ghost var moved, moves;
        table, now, moved, moves := Resort(newLen);
      }
    }

    /** HT_GROW; room and stretch say whether the allocation and, after that failed, the reallocation succeed. */
    method Grow(size: nat, room: bool, stretch: bool) returns (r: int)
      requires Valid() && StaysInList(load, primeIdx, loadLimit, size)
      modifies this`heads, this`next, this`rows, this`tableLength, this`primeIdx, this`loadLimit
      ensures Valid() && SameElements(old(rows), rows) && Aside(old(rows), old(next), next)
      ensures r == if old(Grows(size)) && !room && !stretch then -1 else 0
      ensures old(Grows(size)) && r == 0 ==>
        old(primeIdx) < primeIdx && heads != [] && tableLength == PRIMES[primeIdx]
        && WithinLoad(load, tableLength, size + 1)
      ensures old(Grows(size)) && r == 0 ==>
        forall k :: old(primeIdx) < k < primeIdx ==> !WithinLoad(load, PRIMES[k], size + 1)
      ensures !old(Grows(size)) || r == -1 ==> heads == old(heads) && next == old(next) && rows == old(rows)
      ensures !old(Grows(size)) || r == -1 ==> unchanged(`tableLength, `primeIdx, `loadLimit)
    {
      hide Sound, LimitFor, LoadOk, WithinLoad, RowsLinked, SameElements, AllSettled, In, Total, Aside;
      SameRefl(rows);
      AsideRefl(rows, next);
      LoadIs(size);
      if primeIdx == N_PRIMES - 1 || loadLimit > size {
        return 0;
      }
      PrimesGrow(0);
      var idx, newLen, newLimit := Climb(size);
      if !room && !stretch {
        return -1;
      }
      PrimesRise(primeIdx, idx);
      var table;
      ghost var now;
      table, now := Rehash(newLen, room);
      RehashedSound(keyOf, hashfn, heads, old(next), hash, tableLength, nEntries, rows, contents, table, next, now, newLen);
      heads, rows, tableLength, primeIdx, loadLimit := table, now, newLen, idx, newLimit;
      r := 0;
    }

    /** Does HT_GROW(size) set out for another table? Not behind the last prime, and not if size + 1 elements are no more
        than load a bucket. */
    ghost predicate Grows(size: nat)
      reads this
    {
      primeIdx < N_PRIMES - 1 && !WithinLoad(load, tableLength, size + 1)
    }

    /** The program's test for a full table. */
    lemma FullIs()
      requires Sized()
      ensures Full() <==> nEntries >= loadLimit
    {
      LoadIs(nEntries);
    }

    /** What HT_INSERT and HT_REPLACE do first. */
    method Prepare(room: bool, stretch: bool)
      requires Valid() && (heads != [] || room || stretch)
      requires Loaded() || StaysInList(load, primeIdx, loadLimit, nEntries + 1)
      modifies this`heads, this`next, this`rows, this`tableLength, this`primeIdx, this`loadLimit
      ensures Valid() && heads != [] && SameElements(old(rows), rows) && Aside(old(rows), old(next), next)
      ensures old(Loaded()) ==> primeIdx == old(primeIdx) + if old(Enlarges(room, stretch)) then 1 else 0
      ensures old(Loaded()) ==> Loaded() && (Full() <==> old(Full() && !Enlarges(room, stretch)))
      ensures old(Loaded()) ==> tableLength == if old(Enlarges(room, stretch)) then PRIMES[primeIdx] else old(tableLength)
    {
      hide Sound, LimitFor, LoadOk, WithinLoad, SameElements, In, Total, Full, StaysInList;
      SameRefl(rows);
      FullIs();
      if heads == [] || nEntries >= loadLimit {
        if heads == [] { NothingThere(keyOf, hashfn, next, hash, tableLength, nEntries, rows, contents); }
        Enlarge(room, stretch);
        FullIs();
      }
    }

    /** HT_GROW for one more element: the next prime is enough for a table that was not too full. */
    method Enlarge(room: bool, stretch: bool)
      requires Valid() && (heads != [] || room || stretch) && loadLimit <= nEntries && (heads == [] ==> nEntries == 0)
      requires Loaded() || StaysInList(load, primeIdx, loadLimit, nEntries + 1)
      modifies this`heads, this`next, this`rows, this`tableLength, this`primeIdx, this`loadLimit
      ensures Valid() && heads != [] && SameElements(old(rows), rows) && Aside(old(rows), old(next), next)
      ensures old(Loaded()) && (old(primeIdx) == N_PRIMES - 1 || (!room && !stretch)) ==>
        unchanged(`heads, `primeIdx, `tableLength, `loadLimit)
      ensures old(Loaded()) && old(primeIdx) < N_PRIMES - 1 && (room || stretch) ==>
        primeIdx == old(primeIdx) + 1 && tableLength == PRIMES[primeIdx] && loadLimit > nEntries + 1
    {
      hide Sound, LimitFor, LoadOk, WithinLoad, SameElements, In, Total, Aside, StaysInList;
      LoadIs(nEntries + 1);
      NextBears(load, primeIdx, loadLimit, nEntries);
      var r := Grow(nEntries + 1, room, stretch);
      LoadIs(nEntries + 1);
    }

    /** With one more element there would be more than load a bucket. */
    ghost predicate Full()
      reads this
    {
      !WithinLoad(load, tableLength, nEntries + 1)
    }

    /** With a table that is full, below the last prime, and memory for another, the next prime is taken. */
    ghost predicate Enlarges(room: bool, stretch: bool)
      reads this
    {
      Full() && primeIdx < N_PRIMES - 1 && (room || stretch)
    }

    /** HT_INSERT, for an element whose key is new. */
    method InsertNew(elm: Ptr, room: bool, stretch: bool)
      requires Valid() && elm != 0 && keyOf(elm) !in contents && (heads != [] || room || stretch)
      requires Loaded() || StaysInList(load, primeIdx, loadLimit, nEntries + 1)
      modifies this
      ensures Valid() && contents == old(contents)[keyOf(elm) := elm] && nEntries == old(nEntries) + 1
      ensures old(Loaded()) ==> primeIdx == old(primeIdx) + if old(Enlarges(room, stretch)) then 1 else 0
      ensures old(Loaded()) ==> (Loaded() <==> old(!Full() || Enlarges(room, stretch)))
      ensures old(Loaded()) ==> tableLength == if old(Enlarges(room, stretch)) then PRIMES[primeIdx] else old(tableLength)
    {
      hide Sound, LimitFor, LoadOk, WithinLoad, SameElements, In, Total, Aside, Enlarges, Full;
      Prepare(room, stretch);
      FullIs();
      SetHash(elm);
      ghost var b := hash[elm] % tableLength;
      var p := Bucket(hash[elm] % tableLength);
      FrontOf(keyOf, hashfn, heads, next, hash, tableLength, nEntries, rows, contents, elm, b);
      SetNext(elm, Load(heads, next, p));
      LinkIn(p, elm, b, 0);
    }

    /** *p = elm, where p points to another element r with the same key. */
    method Swap(p: Slot, elm: Ptr, ghost b: nat, ghost i: nat) returns (r: Ptr)
      requires Valid() && SlotAt(rows, p, b, i) && i < |rows[b]| && keyOf(rows[b][i]) == keyOf(elm)
      requires elm != 0 && !In(rows, elm)
      requires elm in hash && hash[elm] == hashfn(keyOf(elm)) && tableLength > 0 && b == hash[elm] % tableLength
      modifies this`heads, this`next, this`rows, this`contents
      ensures Valid() && contents == old(contents)[keyOf(elm) := elm]
      ensures r == old(rows)[b][i] && r in next && next[r] == 0 && r != elm
    {
      hide Sound, LimitFor, LoadOk, WithinLoad, In, Insert, Pop;
      SwapSound(keyOf, hashfn, heads, next, hash, tableLength, nEntries, rows, contents, p, b, i, elm);
      r := Load(heads, next, p);
      ghost var linked := SwappedLinks(next, p, r, elm);
      Store(p, elm);
      next := next[elm := next[r]];
      next := next[r := 0];
      assert next == linked;
      rows := Insert(Pop(rows, b, i), b, i, elm);
      contents := contents[keyOf(elm) := elm];
    }

    /** HT_REPLACE, once there is a table and elm has its hash. */
    method PutIn(elm: Ptr) returns (r: Ptr)
      requires Valid() && elm != 0 && heads != [] && elm in hash && hash[elm] == hashfn(keyOf(elm))
      requires keyOf(elm) !in contents ==> elm in next && next[elm] == 0
      modifies this`heads, this`next, this`rows, this`contents, this`nEntries
      ensures Valid() <==> old(keyOf(elm) in contents ==> contents[keyOf(elm)] != elm)
      ensures contents == old(contents)[keyOf(elm) := elm]
      ensures nEntries == |contents| + if keyOf(elm) in old(contents) && old(contents)[keyOf(elm)] == elm then 1 else 0
      ensures if keyOf(elm) in old(contents) && old(contents)[keyOf(elm)] != elm
        then r == old(contents)[keyOf(elm)] && r in next && next[r] == 0 else r == 0
    {
      hide Sound, LimitFor, LoadOk, WithinLoad, In, Total, RowsLinked, Insert;
      SoundIn(keyOf, hashfn, heads, next, hash, tableLength, nEntries, rows, contents, elm);
      var p;
      ghost var b, i;
      p, b, i := FindP(elm);
      r := Load(heads, next, p);
      if r != 0 && r != elm {
        r := Swap(p, elm, b, i);
        SoundIn(keyOf, hashfn, heads, next, hash, tableLength, nEntries, rows, contents, elm);
      } else if r == 0 {
        LinkIn(p, elm, b, i);
        SoundIn(keyOf, hashfn, heads, next, hash, tableLength, nEntries, rows, contents, elm);
      } else {
        ghost var h, l := heads, next;
        assert contents == contents[keyOf(elm) := elm];
        Store(p, elm);
        assert heads == h && next == l;
        nEntries := nEntries + 1;
        r := 0;
      }
    }

    /** HT_REPLACE. An element that is in the table already is counted once more; that breaks the table. */
    method Replace(elm: Ptr, room: bool, stretch: bool) returns (r: Ptr)
      requires Valid() && elm != 0 && (heads != [] || room || stretch)
      requires Loaded() || StaysInList(load, primeIdx, loadLimit, nEntries + 1)
      requires keyOf(elm) !in contents ==> elm in next && next[elm] == 0
      modifies this
      ensures Valid() <==> old(!In(rows, elm))
      ensures contents == old(contents)[keyOf(elm) := elm]
      ensures nEntries == |contents| + if old(In(rows, elm)) then 1 else 0
      ensures if keyOf(elm) in old(contents) && old(contents)[keyOf(elm)] != elm
        then r == old(contents)[keyOf(elm)] && r in next && next[r] == 0 else r == 0
      ensures old(Loaded()) ==> primeIdx == old(primeIdx) + if old(Enlarges(room, stretch)) then 1 else 0
      ensures old(Loaded() && !In(rows, elm)) ==>
        (Loaded() <==> old(!Full() || keyOf(elm) in contents || Enlarges(room, stretch)))
    {
      hide Sound, LimitFor, LoadOk, WithinLoad, SameElements, In, Total, Aside, Enlarges, Full;
      SoundIn(keyOf, hashfn, heads, next, hash, tableLength, nEntries, rows, contents, elm);
      Prepare(room, stretch);
      FullIs();
      AsideAt(old(rows), old(next), next, elm);
      SetHash(elm);
      r := PutIn(elm);
    }

    lemma SameLength()
      requires Shape()
      ensures |rows| == |heads|
    {
    }

    lemma AtSlot(p: Slot, b: nat, i: nat)
      requires Shape() && SlotAt(rows, p, b, i)
      ensures |rows| == |heads| && SlotOk(heads, next, p)
      ensures Load(heads, next, p) == Nth(rows[b], i) && (Load(heads, next, p) == 0 <==> i == |rows[b]|)
    {
      SlotHolds(heads, next, rows, p, b, i);
    }

    /** The loop of HT_START, HT_NEXT and HT_NEXT_RMV: the next bucket from b on that is not empty. */
    method FirstFrom(b: nat) returns (found: bool, c: nat)
      requires Valid() && b <= tableLength
      ensures found ==> b <= c < tableLength && rows[c] != [] && SlotAt(rows, Bucket(c), c, 0) && Pos(rows, c, 0) == Pos(rows, b, 0)
      ensures !found ==> Pos(rows, b, 0) == |Flat(rows)|
    {
      hide Sound, LimitFor, LoadOk, WithinLoad, SlotAt;
      SameLength();
      c := b;
      while c < tableLength
        invariant b <= c <= tableLength == |heads| == |rows|
        invariant forall r :: b <= r < c ==> rows[r] == []
      {
        FirstOf(keyOf, hashfn, heads, next, hash, tableLength, nEntries, rows, contents, c);
        if heads[c] != 0 {
          assert c == hash[heads[c]] % tableLength;
          FlatSkip(rows, b, c);
          return true, c;
        }
        c := c + 1;
      }
      FlatSkip(rows, b, c);
      assert rows[..c] == rows;
      found := false;
    }

    /** HT_START: the slot that points to the first element. */
    method Start() returns (found: bool, p: Slot, ghost b: nat)
      requires Valid()
      ensures found ==> SlotAt(rows, p, b, 0) && rows[b] != [] && Pos(rows, b, 0) == 0
      ensures !found ==> Flat(rows) == []
    {
      var c;
      found, c := FirstFrom(0);
      p, b := Bucket(c), c;
    }

    /** HT_NEXT: from the slot that points to element number k to the one that points to number k + 1. */
    method Next(p: Slot, ghost b: nat, ghost i: nat) returns (found: bool, q: Slot, ghost c: nat, ghost j: nat)
      requires Valid() && SlotAt(rows, p, b, i) && i < |rows[b]|
      ensures found ==> SlotAt(rows, q, c, j) && j < |rows[c]| && Pos(rows, c, j) == Pos(rows, b, i) + 1
      ensures !found ==> Pos(rows, b, i) + 1 == |Flat(rows)|
    {
      hide Sound, LimitFor, LoadOk, WithinLoad;
      HereAt(keyOf, hashfn, heads, next, hash, tableLength, nEntries, rows, contents, p, b, i);
      var e := Load(heads, next, p);
      if next[e] != 0 {
        assert hash[e] % tableLength == hash[next[e]] % tableLength;
        return true, NextOf(e), b, i + 1;
      }
      FlatSplit(rows, b);
      var first;
      found, first := FirstFrom(hash[e] % tableLength + 1);
      q, c, j := Bucket(first), first, 0;
    }

    /** HT_NEXT_RMV: takes element number k out, and goes to the slot that points to the new number k. */
    method NextRmv(p: Slot, ghost b: nat, ghost i: nat) returns (found: bool, q: Slot, ghost c: nat, ghost j: nat)
      requires Valid() && SlotAt(rows, p, b, i) && i < |rows[b]|
      modifies this`heads, this`next, this`rows, this`contents, this`nEntries
      ensures Valid() && rows == Pop(old(rows), b, i) && nEntries == old(nEntries) - 1
      ensures keyOf(old(rows)[b][i]) in old(contents) && contents == old(contents) - {keyOf(old(rows)[b][i])}
      ensures found ==> SlotAt(rows, q, c, j) && j < |rows[c]| && Pos(rows, c, j) == Pos(old(rows), b, i)
      ensures !found ==> Pos(old(rows), b, i) == |Flat(rows)|
    {
      hide Sound, LimitFor, LoadOk, WithinLoad;
      HereAt(keyOf, hashfn, heads, next, hash, tableLength, nEntries, rows, contents, p, b, i);
      var h := hash[Load(heads, next, p)];
      assert rows[..b] == Pop(rows, b, i)[..b];
      var r := Unlink(p, b, i);
      AtSlot(p, b, i);
      if Load(heads, next, p) != 0 {
        return true, p, b, i;
      }
      FlatSplit(rows, b);
      var first;
      found, first := FirstFrom(h % tableLength + 1);
      q, c, j := Bucket(first), first, 0;
    }

    /** HT_FOREACH: every element once. */
    method Elements() returns (seen: seq<Ptr>)
      requires Valid()
      ensures seen == Flat(rows)
    {
      hide Sound, LimitFor, LoadOk, WithinLoad, Flat;
      seen := [];
      var found, p;
      ghost var b: nat, i: nat := 0, 0;
      found, p, b := Start();
      if found { FlatAt(rows, b, i); }
      while found
        invariant found ==> SlotAt(rows, p, b, i) && i < |rows[b]| && Pos(rows, b, i) < |Flat(rows)|
        invariant found ==> seen == Flat(rows)[..Pos(rows, b, i)]
        invariant !found ==> seen == Flat(rows)
        decreases if found then |Flat(rows)| - Pos(rows, b, i) else -1
      {
        FlatAt(rows, b, i);
        AtSlot(p, b, i);
        seen := seen + [Load(heads, next, p)];
        FlatTake(rows, b, i);
        found, p, b, i := Next(p, b, i);
        if found { FlatAt(rows, b, i); }
      }
    }

    /** HT_FOREACH_FN's inner loop, over bucket idx. */
    method ForeachIn(drop: Ptr -> bool, idx: nat, ghost was: seq<seq<Ptr>>) returns (called: seq<Ptr>)
      requires Valid() && idx < tableLength == |rows| && HalfKept(was, rows, drop, idx, 0)
      modifies this`heads, this`next, this`rows, this`contents, this`nEntries
      ensures Valid() && nEntries <= old(nEntries) && |heads| == |old(heads)|
      ensures called == was[idx] && HalfKept(was, rows, drop, idx + 1, 0)
    {
      hide Sound, LimitFor, LoadOk, WithinLoad, Flat;
      called := [];
      var p := Bucket(idx);
      ghost var i, k := 0, 0;
      AtSlot(p, idx, i);
      while Load(heads, next, p) != 0
        invariant Valid() && idx < tableLength == |rows| && nEntries <= old(nEntries) && |heads| == |old(heads)|
        invariant SlotAt(rows, p, idx, i) && SlotOk(heads, next, p)
        invariant Load(heads, next, p) == Nth(rows[idx], i) && (Load(heads, next, p) == 0 <==> i == |rows[idx]|)
        invariant HalfKept(was, rows, drop, idx, k) && i == |Kept(was[idx][..k], drop)|
        invariant called == was[idx][..k]
        decreases |rows[idx]| - i
      {
        var e := Load(heads, next, p);
        called := called + [e];
        HalfStep(was, rows, drop, idx, i, k);
        if drop(e) {
          var r := Unlink(p, idx, i);
        } else {
          p := NextOf(e);
          i := i + 1;
        }
        k := k + 1;
        AtSlot(p, idx, i);
      }
      HalfNext(was, rows, drop, idx, k);
    }

    /** HT_FOREACH_FN: fn is called on every element once, and exactly the elements it returns nonzero for are
        taken out. drop is what fn returns for them; called are the calls. */
    method ForeachFn(drop: Ptr -> bool) returns (called: seq<Ptr>)
      requires Valid()
      modifies this`heads, this`next, this`rows, this`contents, this`nEntries
      ensures Valid() && called == Flat(old(rows)) && rows == KeptRows(old(rows), drop)
      ensures forall k :: k in contents <==> k in old(contents) && !drop(old(contents)[k])
      ensures forall k :: k in contents ==> contents[k] == old(contents)[k]
      ensures old(Loaded()) ==> Loaded()
    {
      hide Sound, LimitFor, LoadOk, WithinLoad;
      called := [];
      SameLength();
      if heads == [] {
        assert rows == KeptRows(rows, drop);
        FlatKept(rows, drop);
        SoundKept(keyOf, hashfn, heads, next, hash, tableLength, nEntries, rows, contents, rows, contents, drop,
                  heads, next, nEntries);
        return;
      }
      HalfStart(rows, drop);
      var idx := 0;
      while idx < tableLength
        invariant Valid() && 0 <= idx <= tableLength == |rows| && nEntries <= old(nEntries)
        invariant |heads| == |old(heads)| && HalfKept(old(rows), rows, drop, idx, 0) && called == Flat(old(rows)[..idx])
      {
        FlatSplit(old(rows), idx);
        var more := ForeachIn(drop, idx, old(rows));
        called := called + more;
        idx := idx + 1;
      }
      assert old(rows)[..idx] == old(rows) && rows == KeptRows(old(rows), drop);
      FlatKept(old(rows), drop);
      SoundKept(keyOf, hashfn, heads, next, hash, tableLength, nEntries, old(rows), old(contents), rows, contents, drop,
                old(heads), old(next), old(nEntries));
    }

    /** A walk by HT_START, HT_NEXT and HT_NEXT_RMV that takes some of the elements out. */
    method Sweep(drop: Ptr -> bool) returns (seen: seq<Ptr>)
      requires Valid()
      modifies this`heads, this`next, this`rows, this`contents, this`nEntries
      ensures Valid() && seen == Flat(old(rows)) && Flat(rows) == Kept(seen, drop)
      ensures forall k :: k in contents <==> k in old(contents) && !drop(old(contents)[k])
      ensures forall k :: k in contents ==> contents[k] == old(contents)[k]
      ensures old(Loaded()) ==> Loaded()
    {
      hide Sound, LimitFor, LoadOk, WithinLoad, Flat, Pos, Kept, Pop, HalfSwept;
      seen := [];
      ghost var k, all := 0, Flat(rows);
      var found, p;
      ghost var b: nat, i: nat := 0, 0;
      found, p, b := Start();
      if found { FlatAt(rows, b, i); }
      SweepStart(all, drop);
      while found
        invariant nEntries <= old(nEntries) && Valid() && k <= |all| && seen == all[..k] && HalfSwept(all, Flat(rows), drop, k)
        invariant found ==> SlotAt(rows, p, b, i) && i < |rows[b]|
        invariant if found then Pos(rows, b, i) == |Kept(all[..k], drop)| && k < |all| else k == |all|
        decreases |all| - k
      {
        AtSlot(p, b, i);
        FlatAt(rows, b, i);
        var e := Load(heads, next, p);
        seen := seen + [e];
        SweepStep(all, Flat(rows), drop, k, Pos(rows, b, i));
        if drop(e) {
          FlatPop(rows, b, i);
          found, p, b, i := NextRmv(p, b, i);
        } else {
          found, p, b, i := Next(p, b, i);
        }
        k := k + 1;
        if found { FlatAt(rows, b, i); }
      }
      SweepEnd(all, Flat(rows), drop);
      SoundKept(keyOf, hashfn, heads, next, hash, tableLength, nEntries, old(rows), old(contents), rows, contents, drop,
                old(heads), old(next), old(nEntries));
    }

    /** What HT_REP_IS_BAD_ looks for. */
    ghost predicate Consistent()
      reads this
    {
      && AllPlaced(keyOf, hashfn, hash, rows, tableLength) && nEntries == Total(rows) && Sized() && Loaded()
    }

    /** The inner loop of HT_REP_IS_BAD_, over bucket i. */
    method CheckBucket(i: nat) returns (bad: int, count: nat)
      requires RowsLinked(heads, next, rows) && Hashed(hash, rows) && i < tableLength == |heads| == |rows|
      ensures bad == 0 ==> Placed(keyOf, hashfn, hash, rows[i], tableLength, i) && count == |rows[i]|
      ensures bad != 0 ==> !AllPlaced(keyOf, hashfn, hash, rows, tableLength)
      ensures bad in {0, 1000 + i, 10000 + i} && count <= |rows[i]|
      ensures bad == 1000 + i ==> count < |rows[i]| && hash[rows[i][count]] != hashfn(keyOf(rows[i][count]))
      ensures bad == 10000 + i ==> count < |rows[i]| && hash[rows[i][count]] % tableLength != i
    {
      hide AllPlaced, Hashed, RowsLinked;
      SlotHolds(heads, next, rows, Bucket(i), i, 0);
      var elm := heads[i];
      count := 0;
      while elm != 0
        invariant count <= |rows[i]| && elm == Nth(rows[i], count) && (elm == 0 <==> count == |rows[i]|)
        invariant Placed(keyOf, hashfn, hash, rows[i][..count], tableLength, i)
        decreases |rows[i]| - count
      {
        HashedAt(hash, rows, i, count);
        if hash[elm] != hashfn(keyOf(elm)) {
          NotPlaced(keyOf, hashfn, hash, rows, tableLength, i, count);
          return 1000 + i, count;
        }
        if hash[elm] % tableLength != i {
          NotPlaced(keyOf, hashfn, hash, rows, tableLength, i, count);
          return 10000 + i, count;
        }
        ChainAt(heads, next, rows, i, count);
        elm := next[elm];
        count := count + 1;
      }
      assert rows[i][..count] == rows[i];
      bad := 0;
    }

    /** The loops of HT_REP_IS_BAD_. */
    method CheckAll() returns (bad: int, n: nat)
      requires RowsLinked(heads, next, rows) && Hashed(hash, rows) && tableLength == |heads|
      ensures bad == 0 ==> n == Total(rows)
      ensures bad == 0 <==> AllPlaced(keyOf, hashfn, hash, rows, tableLength)
      ensures bad == 0 || bad >= 1000
    {
      hide Hashed, Placed, Linked, Distinct;
      n := 0;
      var i := 0;
      while i < tableLength
        invariant i <= tableLength && n == Total(rows[..i])
        invariant forall b :: 0 <= b < i ==> Placed(keyOf, hashfn, hash, rows[b], tableLength, b)
      {
        var count;
        bad, count := CheckBucket(i);
        if bad != 0 {
          return;
        }
        assert rows[..i + 1][..i] == rows[..i];
        n, i := n + count, i + 1;
      }
      assert rows[..i] == rows;
      bad := 0;
    }

    /** HT_REP_IS_BAD_, for a table whose chains end. */
    method RepIsBad() returns (r: int)
      requires RowsLinked(heads, next, rows) && Hashed(hash, rows) && tableLength == |heads| && LoadOk(load)
      requires primeIdx < N_PRIMES
      ensures r == 0 <==> Consistent()
      ensures Valid() && Loaded() ==> r == 0
      ensures r == 0 && Represents(keyOf, rows, contents) && nEntries == |contents| ==> Valid()
      ensures r in {0, 1, 2, 3, 4, 5, 6} || (r >= 1000 && !AllPlaced(keyOf, hashfn, hash, rows, tableLength))
      ensures (r == 1 ==> tableLength == 0) && (r == 2 ==> primeIdx < 0 || loadLimit == 0)
      ensures (r == 3 ==> nEntries > loadLimit) && (r == 4 ==> primeIdx >= 0 && tableLength != PRIMES[primeIdx])
      ensures (r == 5 ==> loadLimit != LimitFor(load, tableLength)) && (r == 6 ==> nEntries != Total(rows))
    {
      hide Hashed, RowsLinked, AllPlaced, Represents;
      PrimesGrow(0);
      if tableLength == 0 {
        EmptyPlaced(keyOf, hashfn, heads, next, hash, rows);
        return if nEntries == 0 && loadLimit == 0 && primeIdx == -1 then 0 else 1;
      }
      if primeIdx < 0 || loadLimit == 0 {
        if primeIdx >= 0 { LimitsRise(load, primeIdx, N_PRIMES - 1); }
        return 2;
      }
      if nEntries > loadLimit {
        return 3;
      }
      if tableLength != PRIMES[primeIdx] {
        return 4;
      }
      if loadLimit != LimitFor(load, tableLength) {
        return 5;
      }
      var n;
      r, n := CheckAll();
      if r == 0 && n != nEntries {
        r := 6;
      }
    }

    /** HT_CLEAR */
    method Clear()
      requires Valid()
      modifies this
      ensures Valid() && Loaded() && contents == map[] && heads == []
    {
      hide Sound;
      heads, rows, contents := [], [], map[];
      tableLength, nEntries, loadLimit, primeIdx := 0, 0, 0, -1;
      EmptySound(keyOf, hashfn, next, hash);
    }
  }
}
