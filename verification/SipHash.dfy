/** SipHash-2-4, as section 2 of Aumasson and Bernstein's paper defines it and as csiphash.c computes it. */
module SipHash {
  type u64 = bv64
  type byte = bv8

  /** The internal state. */
  datatype State = State(v0: u64, v1: u64, v2: u64, v3: u64)

  function Plus(x: u64, y: u64): u64 { x + y }
  function Minus(x: u64, y: u64): u64 { x - y }
  function Xor(x: u64, y: u64): u64 { x ^ y }

  function Rotate13(x: u64): u64 { (x << 13) | (x >> 51) }
  function Rotate16(x: u64): u64 { (x << 16) | (x >> 48) }
  function Rotate17(x: u64): u64 { (x << 17) | (x >> 47) }
  function Rotate21(x: u64): u64 { (x << 21) | (x >> 43) }
  function Rotate32(x: u64): u64 { (x << 32) | (x >> 32) }

  // ----- The definition -----

  function SipRound(v: State): State {
    var a0 := Plus(v.v0, v.v1);
    var a2 := Plus(v.v2, v.v3);
    var a1 := Xor(Rotate13(v.v1), a0);
    var a3 := Xor(Rotate16(v.v3), a2);
    var b0 := Rotate32(a0);
    var b2 := Plus(a2, a1);
    var c0 := Plus(b0, a3);
    State(c0, Xor(Rotate17(a1), b2), Rotate32(b2), Xor(Rotate21(a3), c0))
  }

  function SipRounds(v: State, n: nat): State
    decreases n
  {
    if n == 0 then v else SipRounds(SipRound(v), n - 1)
  }

  /** Initialization with the key. */
  function Init(k0: u64, k1: u64): State {
    State(k0 ^ 0x736f6d6570736575, k1 ^ 0x646f72616e646f6d, k0 ^ 0x6c7967656e657261, k1 ^ 0x7465646279746573)
  }

  /** The compression of one word. */
  function Absorb(v: State, w: u64): State {
    var u := SipRounds(v.(v3 := Xor(v.v3, w)), 2);
    u.(v0 := Xor(u.v0, w))
  }

  function Compress(v: State, ws: seq<u64>): State {
    if ws == [] then v else Absorb(Compress(v, ws[..|ws| - 1]), ws[|ws| - 1])
  }

  function Finalize(v: State): u64 {
    var u := SipRounds(v.(v2 := Xor(v.v2, 0xff)), 4);
    Xor(Xor(Xor(u.v0, u.v1), u.v2), u.v3)
  }

  /** A byte in the place 8 k of a word. */
  function At(b: byte, k: nat): u64 {
    var w := b as u64;
    match k
    case 0 => w
    case 1 => w << 8
    case 2 => w << 16
    case 3 => w << 24
    case 4 => w << 32
    case 5 => w << 40
    case 6 => w << 48
    case _ => w << 56
  }

  function Or(x: u64, y: u64): u64 { x | y }

  /** The bytes of b from number k on, at their places in a little-endian word. */
  function From(b: seq<byte>, k: nat): u64
    requires k < |b| == 8
    decreases 8 - k
  {
    if k == 7 then At(b[7], 7) else Or(From(b, k + 1), At(b[k], k))
  }

  /** Eight bytes as a little-endian word. */
  function LittleEndian(b: seq<byte>): u64
    requires |b| == 8
  {
    From(b, 0)
  }

  /** The message, null bytes up to the end of a word but one byte, and its length modulo 256. */
  function Padded(m: seq<byte>): (r: seq<byte>)
    ensures |r| % 8 == 0 && |m| < |r| <= |m| + 8
  {
    m + seq(7 - |m| % 8, _ => 0) + [(|m| % 256) as byte]
  }

  function Words(b: seq<byte>): seq<u64>
    requires |b| % 8 == 0
  {
    if b == [] then [] else Words(b[..|b| - 8]) + [LittleEndian(b[|b| - 8..])]
  }

  function SipHash24(m: seq<byte>, k0: u64, k1: u64): u64 {
    Finalize(Compress(Init(k0, k1), Words(Padded(m))))
  }

  // ----- The program -----

  function Rotate(x: u64, b: nat): u64
    requires b == 13 || b == 16 || b == 17 || b == 21 || b == 32
  {
    if b == 13 then Rotate13(x) else if b == 16 then Rotate16(x) else if b == 17 then Rotate17(x)
    else if b == 21 then Rotate21(x) else Rotate32(x)
  }

  /** HALF_ROUND */
  method HalfRound(a0: u64, b0: u64, c0: u64, d0: u64, s: nat, t: nat) returns (a: u64, b: u64, c: u64, d: u64)
    requires (s == 13 && t == 16) || (s == 17 && t == 21)
    ensures a == Rotate32(Plus(a0, b0)) && b == Xor(Rotate(b0, s), Plus(a0, b0))
    ensures c == Plus(c0, d0) && d == Xor(Rotate(d0, t), c)
  {
    hide Plus, Xor, Rotate13, Rotate16, Rotate17, Rotate21, Rotate32;
    a, c := Plus(a0, b0), Plus(c0, d0);
    b := Xor(Rotate(b0, s), a);
    d := Xor(Rotate(d0, t), c);
    a := Rotate(a, 32);
  }

  /** DOUBLE_ROUND */
  method DoubleRound(v: State) returns (r: State)
    ensures r == SipRounds(v, 2)
  {
    hide Plus, Xor, Rotate13, Rotate16, Rotate17, Rotate21, Rotate32;
    var v0, v1, v2, v3 := v.v0, v.v1, v.v2, v.v3;
    v0, v1, v2, v3 := HalfRound(v0, v1, v2, v3, 13, 16);
    v2, v1, v0, v3 := HalfRound(v2, v1, v0, v3, 17, 21);
    assert State(v0, v1, v2, v3) == SipRound(v);
    v0, v1, v2, v3 := HalfRound(v0, v1, v2, v3, 13, 16);
    v2, v1, v0, v3 := HalfRound(v2, v1, v0, v3, 17, 21);
    r := State(v0, v1, v2, v3);
    assert r == SipRound(SipRound(v));
    TwoRounds(v);
  }

  lemma TwoRounds(v: State)
    ensures SipRounds(v, 2) == SipRound(SipRound(v))
    ensures SipRounds(v, 4) == SipRounds(SipRounds(v, 2), 2)
  {
    hide SipRound;
    var u := SipRound(SipRound(v));
    assert SipRounds(v, 4) == SipRounds(SipRound(v), 3) == SipRounds(u, 2);
    assert SipRounds(v, 2) == SipRounds(SipRound(v), 1) == SipRounds(u, 0);
  }

  lemma OrZero(x: u64, k: nat)
    requires k < 8
    ensures Or(x, At(0, k)) == x
  {
  }

  lemma WholeWord(b: seq<byte>)
    requires |b| == 8
    ensures LittleEndian(b) == From(b, 0)
  {
    hide From;
  }

  lemma TailBytes(m: seq<byte>, i: nat)
    requires i % 8 == 0 && i <= |m| < i + 8
    ensures |Padded(m)| == i + 8
    ensures var b := Padded(m)[i..];
            && b[7] == (|m| % 256) as byte
            && forall k :: 0 <= k < 7 ==> b[k] == if k < |m| - i then m[i + k] else 0
  {
    assert |m| % 8 == |m| - i;
  }

  lemma FromStep(b: seq<byte>, k: nat)
    requires k < |b| == 8
    ensures From(b, k) == if k == 7 then At(b[7], 7) else Or(From(b, k + 1), At(b[k], k))
  {
    hide At, Or;
  }

  /** The word of the bytes behind the last block, by the switch that falls through, and the length. */
  method LastWord(m: seq<byte>, i: nat) returns (last7: u64)
    requires i % 8 == 0 && i <= |m| < i + 8
    ensures |Padded(m)| == i + 8 && last7 == LittleEndian(Padded(m)[i..])
  {
    hide Or, At, From, Padded, LittleEndian;
    TailBytes(m, i);
    ghost var b := Padded(m)[i..];
    assert LittleEndian(b) == From(b, 0) by { WholeWord(b); }
    var n := |m| - i;
    last7 := At((|m| % 256) as byte, 7);
    FromStep(b, 7);
    if n >= 7 { last7 := Or(last7, At(m[i + 6], 6)); } else { OrZero(last7, 6); }
    FromStep(b, 6);
    assert last7 == From(b, 6);
    if n >= 6 { last7 := Or(last7, At(m[i + 5], 5)); } else { OrZero(last7, 5); }
    FromStep(b, 5);
    assert last7 == From(b, 5);
    if n >= 5 { last7 := Or(last7, At(m[i + 4], 4)); } else { OrZero(last7, 4); }
    FromStep(b, 4);
    assert last7 == From(b, 4);
    if n >= 4 { last7 := Or(last7, At(m[i + 3], 3)); } else { OrZero(last7, 3); }
    FromStep(b, 3);
    assert last7 == From(b, 3);
    if n >= 3 { last7 := Or(last7, At(m[i + 2], 2)); } else { OrZero(last7, 2); }
    FromStep(b, 2);
    assert last7 == From(b, 2);
    if n >= 2 { last7 := Or(last7, At(m[i + 1], 1)); } else { OrZero(last7, 1); }
    FromStep(b, 1);
    assert last7 == From(b, 1);
    if n >= 1 { last7 := Or(last7, At(m[i + 0], 0)); } else { OrZero(last7, 0); }
    FromStep(b, 0);
    assert last7 == From(b, 0);
  }

  /** One round of the block loop. */
  method Block(v: State, w: u64) returns (r: State)
    ensures r == Absorb(v, w)
  {
    hide SipRounds, Xor;
    r := DoubleRound(v.(v3 := Xor(v.v3, w)));
    r := r.(v0 := Xor(r.v0, w));
  }

  lemma CompressNext(v: State, ws: seq<u64>, w: u64)
    ensures Compress(v, ws + [w]) == Absorb(Compress(v, ws), w)
  {
    hide Absorb;
    assert (ws + [w])[..|ws|] == ws;
  }

  /** siphash24 */
  method Siphash24(m: seq<byte>, k0: u64, k1: u64) returns (h: u64)
    ensures h == SipHash24(m, k0, k1)
  {
    hide SipRounds, LittleEndian, Padded, Xor, Init, SipRound, Absorb, Compress, Words, Finalize;
    var v := Init(k0, k1);
    var i, blocks := 0, |m| - |m| % 8;
    NoWords(v, m);
    while i < blocks
      invariant i <= blocks && i % 8 == 0
      invariant v == Compress(Init(k0, k1), Words(m[..i]))
    {
      var mi := LittleEndian(m[i..i + 8]);
      WordsNext(m, i);
      CompressNext(Init(k0, k1), Words(m[..i]), mi);
      v := Block(v, mi);
      i := i + 8;
    }
    var last7 := LastWord(m, i);
    WordsLast(m, i);
    CompressNext(Init(k0, k1), Words(m[..i]), last7);
    v := Block(v, last7);
    h := End(v);
  }

  /** The end of siphash24: four rounds, and the words of the state put together. */
  method End(v: State) returns (h: u64)
    ensures h == Finalize(v)
  {
    hide SipRounds, Xor;
    var u := v.(v2 := Xor(v.v2, 0xff));
    TwoRounds(u);
    u := DoubleRound(u);
    u := DoubleRound(u);
    h := Xor(Xor(Xor(u.v0, u.v1), u.v2), u.v3);
  }

  lemma NoWords(v: State, m: seq<byte>)
    ensures Compress(v, Words(m[..0])) == v
  {
  }

  lemma WordsNext(m: seq<byte>, i: nat)
    requires i % 8 == 0 && i + 8 <= |m|
    ensures Words(m[..i + 8]) == Words(m[..i]) + [LittleEndian(m[i..i + 8])]
  {
    hide LittleEndian;
    assert m[..i + 8][..i] == m[..i] && m[..i + 8][i..] == m[i..i + 8];
  }

  lemma WordsLast(m: seq<byte>, i: nat)
    requires i % 8 == 0 && i <= |m| < i + 8
    ensures |Padded(m)| == i + 8 && Words(Padded(m)) == Words(m[..i]) + [LittleEndian(Padded(m)[i..])]
  {
    hide LittleEndian;
    var p := Padded(m);
    assert p[..i] == m[..i];
  }

  // ----- Every step is a bijection -----

  function Rotate51(x: u64): u64 { (x << 51) | (x >> 13) }
  function Rotate48(x: u64): u64 { (x << 48) | (x >> 16) }
  function Rotate47(x: u64): u64 { (x << 47) | (x >> 17) }
  function Rotate43(x: u64): u64 { (x << 43) | (x >> 21) }

  /** The state before a round. */
  function Unround(v: State): State {
    var b2 := Rotate32(v.v2);
    var a1 := Rotate47(Xor(v.v1, b2));
    var a3 := Rotate43(Xor(v.v3, v.v0));
    var b0 := Minus(v.v0, a3);
    var a2 := Minus(b2, a1);
    var a0 := Rotate32(b0);
    var d1 := Rotate51(Xor(a1, a0));
    var d3 := Rotate48(Xor(a3, a2));
    State(Minus(a0, d1), d1, Minus(a2, d3), d3)
  }

  lemma Turned13(x: u64)
    ensures Rotate51(Rotate13(x)) == x && Rotate13(Rotate51(x)) == x
  {
  }

  lemma Turned16(x: u64)
    ensures Rotate48(Rotate16(x)) == x && Rotate16(Rotate48(x)) == x
  {
  }

  lemma Turned17(x: u64)
    ensures Rotate47(Rotate17(x)) == x && Rotate17(Rotate47(x)) == x
  {
  }

  lemma Turned21(x: u64)
    ensures Rotate43(Rotate21(x)) == x && Rotate21(Rotate43(x)) == x
  {
  }

  lemma Turned32(x: u64)
    ensures Rotate32(Rotate32(x)) == x
  {
  }

  lemma XorUndone(x: u64, y: u64)
    ensures Xor(Xor(x, y), y) == x
  {
  }

  lemma PlusIs(x: u64, y: u64)
    ensures Plus(x, y) == x + y && Plus(x - y, y) == x
  {
  }

  lemma MinusIs(x: u64, y: u64)
    ensures Minus(x, y) == x - y && Minus(x + y, y) == x
  {
  }

  lemma PlusUndone(x: u64, y: u64)
    ensures Minus(Plus(x, y), y) == x && Plus(Minus(x, y), y) == x
  {
    hide Plus, Minus;
    PlusIs(x, y);
    MinusIs(x, y);
  }

  lemma Undone(x: u64, y: u64)
    ensures Xor(Xor(x, y), y) == x && Minus(Plus(x, y), y) == x && Plus(Minus(x, y), y) == x
  {
    hide Xor, Plus, Minus;
    XorUndone(x, y);
    PlusUndone(x, y);
  }

  lemma RoundUndone(v: State)
    ensures Unround(SipRound(v)) == v
  {
    hide Plus, Minus, Xor, Rotate13, Rotate16, Rotate17, Rotate21, Rotate32, Rotate43, Rotate47, Rotate48, Rotate51;
    var a0 := Plus(v.v0, v.v1);
    var a2 := Plus(v.v2, v.v3);
    var a1 := Xor(Rotate13(v.v1), a0);
    var a3 := Xor(Rotate16(v.v3), a2);
    var b2 := Plus(a2, a1);
    Turned32(b2);
    Turned32(a0);
    Turned17(a1);
    Turned21(a3);
    Turned13(v.v1);
    Turned16(v.v3);
    Undone(Rotate17(a1), b2);
    Undone(Rotate21(a3), Plus(Rotate32(a0), a3));
    Undone(Rotate32(a0), a3);
    Undone(a2, a1);
    Undone(Rotate13(v.v1), a0);
    Undone(Rotate16(v.v3), a2);
    Undone(v.v0, v.v1);
    Undone(v.v2, v.v3);
  }

  lemma RoundReached(v: State)
    ensures SipRound(Unround(v)) == v
  {
    hide Plus, Minus, Xor, Rotate13, Rotate16, Rotate17, Rotate21, Rotate32, Rotate43, Rotate47, Rotate48, Rotate51;
    var b2 := Rotate32(v.v2);
    var a1 := Rotate47(Xor(v.v1, b2));
    var a3 := Rotate43(Xor(v.v3, v.v0));
    var b0 := Minus(v.v0, a3);
    var a2 := Minus(b2, a1);
    var a0 := Rotate32(b0);
    var d1 := Rotate51(Xor(a1, a0));
    var d3 := Rotate48(Xor(a3, a2));
    Undone(a0, d1);
    Undone(a2, d3);
    Turned13(Xor(a1, a0));
    Turned16(Xor(a3, a2));
    Undone(a1, a0);
    Undone(a3, a2);
    Turned32(b0);
    Undone(b2, a1);
    Undone(v.v0, a3);
    Turned17(Xor(v.v1, b2));
    Undone(v.v1, b2);
    Turned32(v.v2);
    Turned21(Xor(v.v3, v.v0));
    Undone(v.v3, v.v0);
  }

  /** The state before a word was absorbed. */
  function Unabsorb(v: State, w: u64): State {
    var u := Unround(Unround(v.(v0 := Xor(v.v0, w))));
    u.(v3 := Xor(u.v3, w))
  }

  /** Absorbing a given word is a bijection on the states. */
  lemma AbsorbBijective(v: State, w: u64)
    ensures Unabsorb(Absorb(v, w), w) == v && Absorb(Unabsorb(v, w), w) == v
  {
    hide SipRound, Unround, Xor;
    var x := v.(v3 := Xor(v.v3, w));
    TwoRounds(x);
    var u := SipRound(SipRound(x));
    Undone(u.v0, w);
    RoundUndone(SipRound(x));
    RoundUndone(x);
    Undone(v.v3, w);
    var y := v.(v0 := Xor(v.v0, w));
    var t := Unround(Unround(y));
    Undone(t.v3, w);
    TwoRounds(t);
    RoundReached(Unround(y));
    RoundReached(y);
    Undone(v.v0, w);
    assert Unabsorb(v, w).(v3 := Xor(Unabsorb(v, w).v3, w)) == t;
  }

  // ----- The test vector -----

  /** Byte k of a little-endian word is in its bits from 8 k on. */
  lemma WordBytes(b: seq<byte>)
    requires |b| == 8
    ensures var w := LittleEndian(b);
            && w & 0xff == b[0] as u64 && (w >> 8) & 0xff == b[1] as u64 && (w >> 16) & 0xff == b[2] as u64
            && (w >> 24) & 0xff == b[3] as u64 && (w >> 32) & 0xff == b[4] as u64 && (w >> 40) & 0xff == b[5] as u64
            && (w >> 48) & 0xff == b[6] as u64 && w >> 56 == b[7] as u64
  {
    EightBytes(b);
    hide LittleEndian, From;
    Packed(b[0], b[1], b[2], b[3], b[4], b[5], b[6], b[7]);
  }

  lemma Packed(b0: byte, b1: byte, b2: byte, b3: byte, b4: byte, b5: byte, b6: byte, b7: byte)
    ensures var w := Or(Or(Or(Or(Or(Or(Or(At(b7, 7), At(b6, 6)), At(b5, 5)), At(b4, 4)), At(b3, 3)), At(b2, 2)), At(b1, 1)),
                        At(b0, 0));
            && w & 0xff == b0 as u64 && (w >> 8) & 0xff == b1 as u64 && (w >> 16) & 0xff == b2 as u64
            && (w >> 24) & 0xff == b3 as u64 && (w >> 32) & 0xff == b4 as u64 && (w >> 40) & 0xff == b5 as u64
            && (w >> 48) & 0xff == b6 as u64 && w >> 56 == b7 as u64
  {
  }

  lemma VectorWord0()
    ensures Absorb(State(0x7469686173716475, 0x6b617f6d656e6665, 0x6b7f62616d677361, 0x7b6b696e727e6c7b), 0x706050403020100)
         == State(0x4a017198de0a59e0, 0xd52f6f62a4f59a4, 0x634cb3577b01fd3d, 0xa5224d6f55c7d9c8)
  {
    var u := State(0x7469686173716475, 0x6b617f6d656e6665, 0x6b7f62616d677361, 0x7c6d6c6a717c6d7b);
    assert SipRound(u) == State(0x64668a929363847f, 0x4ed232083d9aa8dc, 0xf2f74892d8141a2e, 0x9290f9810552f4a8);
    assert SipRound(SipRound(u)) == State(0x4d07749cdd0858e0, 0xd52f6f62a4f59a4, 0x634cb3577b01fd3d, 0xa5224d6f55c7d9c8);
    TwoRounds(u);
  }

  lemma VectorWord1()
    ensures Absorb(State(0x4a017198de0a59e0, 0xd52f6f62a4f59a4, 0x634cb3577b01fd3d, 0xa5224d6f55c7d9c8), 0xf0e0d0c0b0a0908)
         == State(0x3c85b3ab6f55be51, 0x414fc3fb98efe374, 0xccf13ea527b9f4bd, 0x5293f5da84008f82)
  {
    var u := State(0x4a017198de0a59e0, 0xd52f6f62a4f59a4, 0x634cb3577b01fd3d, 0xaa2c40635ecdd0c0);
    assert SipRound(u) == State(0x557560fb6063d060, 0x4c8e675bd961133e, 0xbd3d002b1703a181, 0xfb9441179a4a7315);
    assert SipRound(SipRound(u)) == State(0x338bbea7645fb759, 0x414fc3fb98efe374, 0xccf13ea527b9f4bd, 0x5293f5da84008f82);
    TwoRounds(u);
  }

  lemma VectorEnd()
    ensures Finalize(State(0x3c85b3ab6f55be51, 0x414fc3fb98efe374, 0xccf13ea527b9f4bd, 0x5293f5da84008f82))
         == 0xa129ca6149be45e5
  {
    var u := State(0x3c85b3ab6f55be51, 0x414fc3fb98efe374, 0xccf13ea527b9f442, 0x5293f5da84008f82);
    assert SipRound(u) == State(0xf2a55244a20e48fe, 0xac5ad16ccc3ca6e4, 0x9fe5adb0a52f393a, 0xfd41d55e88f30308);
    assert SipRound(SipRound(u)) == State(0xb6c3fbdecc2ae4b4, 0x1638c86adc6b3cf0, 0x28b8b6ab62553d46, 0xc9465e86ec43eb95);
    var t := SipRound(SipRound(u));
    assert SipRound(t) == State(0x58101b167209a5e6, 0xf8792ae75b66e7dd, 0x1da14c3ec7f0b4f7, 0x7624ba8a41bc4ad9);
    assert SipRound(SipRound(t)) == State(0xf6bcd53893fecff1, 0x54b9964c7ea0d937, 0x1b38329c099bb55a, 0x1814bb89ad7be679);
    TwoRounds(u);
    TwoRounds(t);
  }

  function Upto(n: nat): seq<byte>
    requires n <= 256
  {
    seq(n, i requires 0 <= i < n => i as byte)
  }

  lemma VectorWords()
    ensures Words(Padded(Upto(15))) == [0x706050403020100, 0xf0e0d0c0b0a0908]
  {
    hide LittleEndian;
    var b := Padded(Upto(15));
    assert b == [0, 1, 2, 3, 4, 5, 6, 7] + [8, 9, 10, 11, 12, 13, 14, 15];
    assert b[..8] == [0, 1, 2, 3, 4, 5, 6, 7] && b[8..] == [8, 9, 10, 11, 12, 13, 14, 15];
    assert b[..8][..0] == [] && b[..8][0..] == b[..8];
    VectorLow();
    VectorHigh();
  }

  lemma VectorLow()
    ensures LittleEndian([0, 1, 2, 3, 4, 5, 6, 7]) == 0x706050403020100
  {
    EightBytes([0, 1, 2, 3, 4, 5, 6, 7]);
  }

  lemma VectorHigh()
    ensures LittleEndian([8, 9, 10, 11, 12, 13, 14, 15]) == 0xf0e0d0c0b0a0908
  {
    EightBytes([8, 9, 10, 11, 12, 13, 14, 15]);
  }

  lemma EightBytes(b: seq<byte>)
    requires |b| == 8
    ensures LittleEndian(b) == Or(Or(Or(Or(Or(Or(Or(At(b[7], 7), At(b[6], 6)), At(b[5], 5)), At(b[4], 4)), At(b[3], 3)),
                                           At(b[2], 2)), At(b[1], 1)), At(b[0], 0))
  {
    hide At, Or;
    FromStep(b, 7);
    FromStep(b, 6);
    FromStep(b, 5);
    FromStep(b, 4);
    FromStep(b, 3);
    FromStep(b, 2);
    FromStep(b, 1);
    FromStep(b, 0);
  }

  /** The example of appendix A of the paper: the key 00 01 .. 0f and the message 00 01 .. 0e. */
  lemma Vector()
    ensures SipHash24(Upto(15), 0x706050403020100, 0xf0e0d0c0b0a0908) == 0xa129ca6149be45e5
  {
    hide Absorb, Finalize, Words;
    VectorWords();
    var ws: seq<u64> := [0x706050403020100, 0xf0e0d0c0b0a0908];
    var v := Init(0x706050403020100, 0xf0e0d0c0b0a0908);
    assert v == State(0x7469686173716475, 0x6b617f6d656e6665, 0x6b7f62616d677361, 0x7b6b696e727e6c7b);
    assert ws[..1] == [0x706050403020100] && ws[..1][..0] == [];
    assert Compress(v, ws[..1]) == Absorb(v, ws[0]);
    assert Compress(v, ws) == Absorb(Absorb(v, ws[0]), ws[1]);
    VectorWord0();
    VectorWord1();
    VectorEnd();
  }
}
