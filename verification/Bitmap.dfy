/** The bitmap of a page of chunks: words of 64 bits, one bit for each chunk, set while it is free. */
module Bitmaps {

  /** MALLOC_BITS, the bits of one u_long. */
  const BITS := 64

  /** A u_long, as its bits from the least significant one. */
  type Word = w: seq<bool> | |w| == BITS witness seq(BITS, _ => false)

  type Bitmap = seq<Word>

  /** bits[i / MALLOC_BITS] & (1UL << (i % MALLOC_BITS)) */
  function Bit(bits: Bitmap, i: nat): bool
    requires i < |bits| * BITS
  {
    bits[i / BITS][i % BITS]
  }

  /** bits[i / MALLOC_BITS] with its bit i % MALLOC_BITS set or cleared. */
  function SetBit(bits: Bitmap, i: nat, b: bool): Bitmap
    requires i < |bits| * BITS
  {
    bits[i / BITS := bits[i / BITS][i % BITS := b]]
  }

  lemma SetBitAt(bits: Bitmap, i: nat, b: bool)
    requires i < |bits| * BITS
    ensures |SetBit(bits, i, b)| == |bits|
    ensures forall j: nat :: j < |bits| * BITS ==> Bit(SetBit(bits, i, b), j) == if j == i then b else Bit(bits, j)
  {
    forall j: nat | j < |bits| * BITS ensures Bit(SetBit(bits, i, b), j) == if j == i then b else Bit(bits, j) {
      if j / BITS == i / BITS && j % BITS == i % BITS { assert j == i; }
    }
  }

  /** How many of the bits below n are set. */
  function Count(bits: Bitmap, n: nat): nat
    requires n <= |bits| * BITS
  {
    if n == 0 then 0 else Count(bits, n - 1) + if Bit(bits, n - 1) then 1 else 0
  }

  lemma {:induction false} CountMonotone(bits: Bitmap, m: nat, n: nat)
    requires m <= n <= |bits| * BITS
    ensures Count(bits, m) <= Count(bits, n) <= Count(bits, m) + (n - m)
    ensures Count(bits, m) == Count(bits, n) <==> forall i :: m <= i < n ==> !Bit(bits, i)
  {
    if m < n { CountMonotone(bits, m, n - 1); }
  }

  lemma {:induction false} CountSame(bits: Bitmap, bits': Bitmap, n: nat)
    requires n <= |bits| * BITS && n <= |bits'| * BITS
    requires forall i :: 0 <= i < n ==> Bit(bits, i) == Bit(bits', i)
    ensures Count(bits, n) == Count(bits', n)
  {
    if n > 0 { CountSame(bits, bits', n - 1); }
  }

  /** Setting or clearing one bit changes the count by at most one. */
  lemma {:induction false} CountSet(bits: Bitmap, i: nat, b: bool, n: nat)
    requires i < n <= |bits| * BITS
    ensures |SetBit(bits, i, b)| == |bits|
    ensures Count(SetBit(bits, i, b), n) + (if Bit(bits, i) then 1 else 0)
         == Count(bits, n) + (if b then 1 else 0)
  {
    SetBitAt(bits, i, b);
    if i == n - 1 {
      CountSame(bits, SetBit(bits, i, b), n - 1);
    } else {
      CountSet(bits, i, b, n - 1);
    }
  }

  /** pos is the position of the set bit that has r set bits below it. */
  ghost predicate IsNth(bits: Bitmap, r: nat, pos: nat) {
    pos < |bits| * BITS && Bit(bits, pos) && Count(bits, pos) == r
  }

  lemma NthUnique(bits: Bitmap, r: nat, p: nat, q: nat)
    requires IsNth(bits, r, p) && IsNth(bits, r, q)
    ensures p == q
  {
    if p < q {
      CountMonotone(bits, p + 1, q);
    } else if q < p {
      CountMonotone(bits, q + 1, p);
    }
  }

  predicate Zero(w: Word) { forall i :: 0 <= i < BITS ==> !w[i] }

  /** The first word that is not zero. */
  method FirstWord(bits: Bitmap, ghost n: nat) returns (lp: nat)
    requires n <= |bits| * BITS && Count(bits, n) > 0
    ensures lp < |bits| && !Zero(bits[lp]) && lp * BITS < n
    ensures Count(bits, lp * BITS) == 0
  {
    lp := 0;
    WordBelow(bits, lp, n);
    while Zero(bits[lp])
      invariant lp < |bits| && lp * BITS < n && Count(bits, lp * BITS) == 0
      decreases |bits| - lp
    {
      ZeroWord(bits, lp);
      lp := lp + 1;
      WordBelow(bits, lp, n);
    }
  }

  lemma WordBelow(bits: Bitmap, lp: nat, n: nat)
    requires n <= |bits| * BITS && lp <= |bits| && Count(bits, lp * BITS) == 0 < Count(bits, n)
    ensures lp < |bits| && lp * BITS < n
  {
    if n <= lp * BITS { CountMonotone(bits, n, lp * BITS); }
  }

  lemma ZeroWord(bits: Bitmap, lp: nat)
    requires lp < |bits| && Zero(bits[lp])
    ensures Count(bits, (lp + 1) * BITS) == Count(bits, lp * BITS)
  {
    forall i | lp * BITS <= i < (lp + 1) * BITS ensures !Bit(bits, i) {
      assert i / BITS == lp && Bit(bits, i) == bits[lp][i % BITS];
    }
    CountMonotone(bits, lp * BITS, (lp + 1) * BITS);
  }

  /** The lowest set bit of a word that is not zero, below which no bit of the map is set. */
  method FirstBit(bits: Bitmap, lp: nat) returns (k: nat)
    requires lp < |bits| && !Zero(bits[lp]) && Count(bits, lp * BITS) == 0
    ensures k < BITS && bits[lp][k] && Count(bits, lp * BITS + k) == 0
  {
    k := 0;
    ghost var o :| 0 <= o < BITS && bits[lp][o];
    while !bits[lp][k]
      invariant k <= o && Count(bits, lp * BITS + k) == 0
      decreases o - k
    {
      BitHere(bits, lp, k);
      k := k + 1;
    }
  }

  /** One step of the walk to a random position. */
  method NextBit(bits: Bitmap, lp: nat, k: nat, ghost r: nat, ghost n: nat) returns (lp': nat, k': nat)
    requires k < BITS && lp < |bits| && n <= |bits| * BITS
    requires Count(bits, lp * BITS + k + 1) <= r < Count(bits, n)
    ensures k' < BITS && lp' < |bits| && lp' * BITS + k' == lp * BITS + k + 1 < n
  {
    Bounded(bits, lp * BITS + k + 1, r, n);
    lp', k' := lp, k + 1;
    if k' >= BITS {
      lp', k' := lp + 1, 0;
    }
  }

  /** The bitmap walks of malloc_bytes: to the first word with a set bit, to its first set bit, and from
      there over r more set bits. n is a bound below which more than r bits are set; bits from n on
      may have any value. The walk never passes n. */
  method Walk(bits: Bitmap, r: nat, ghost n: nat) returns (lp: nat, k: nat)
    requires n <= |bits| * BITS && r < Count(bits, n)
    ensures k < BITS && lp < |bits| && lp * BITS + k < n
    ensures IsNth(bits, r, lp * BITS + k)
  {
    lp := FirstWord(bits, n);
    k := FirstBit(bits, lp);
    BitHere(bits, lp, k);
    Bounded(bits, lp * BITS + k, r, n);
    var i := r;
    while i > 0
      invariant 0 <= i <= r && k < BITS && lp < |bits| && lp * BITS + k < n
      invariant Count(bits, lp * BITS + k + 1) == r - i + 1
      invariant i == 0 ==> bits[lp][k]
      decreases n - (lp * BITS + k)
    {
      lp, k := NextBit(bits, lp, k, r, n);
      BitHere(bits, lp, k);
      if bits[lp][k] {
        i := i - 1;
      }
    }
    BitHere(bits, lp, k);
  }

  lemma BitHere(bits: Bitmap, lp: nat, k: nat)
    requires lp < |bits| && k < BITS
    ensures Bit(bits, lp * BITS + k) == bits[lp][k]
    ensures Count(bits, lp * BITS + k + 1) == Count(bits, lp * BITS + k) + if bits[lp][k] then 1 else 0
  {
    assert (lp * BITS + k) / BITS == lp && (lp * BITS + k) % BITS == k;
  }

  /** A position below which at most r bits are set comes before n. */
  lemma Bounded(bits: Bitmap, pos: nat, r: nat, n: nat)
    requires n <= |bits| * BITS && pos <= |bits| * BITS && Count(bits, pos) <= r < Count(bits, n)
    ensures pos < n
  {
    if n <= pos { CountMonotone(bits, n, pos); }
  }
}
