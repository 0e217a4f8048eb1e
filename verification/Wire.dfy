/** Bytes, what a parser returns, and what makes an encoder and a parser a codec. */
module Wire {

  type byte = i: int | 0 <= i < 256
  type u16 = i: int | 0 <= i < 0x1_0000
  type u32 = i: int | 0 <= i < 0x1_0000_0000
  type Bytes = seq<byte>

  function Be16(v: nat): (r: Bytes)
    ensures |r| == 2
  {
    [v / 256 % 256, v % 256]
  }

  function Be32(v: nat): (r: Bytes)
    ensures |r| == 4
  {
    Be16(v / 0x1_0000) + Be16(v % 0x1_0000)
  }

  function U16(b: Bytes, i: nat): u16
    requires i + 2 <= |b|
  {
    b[i] as int * 256 + b[i + 1]
  }

  function U32(b: Bytes, i: nat): u32
    requires i + 4 <= |b|
  {
    U16(b, i) as int * 0x1_0000 + U16(b, i + 2)
  }

  lemma Be16U16(b: Bytes, i: nat)
    requires i + 2 <= |b|
    ensures Be16(U16(b, i)) == b[i..i + 2]
  {
  }

  lemma U16Be16(b: Bytes, i: nat, v: u16)
    requires i + 2 <= |b| && b[i..i + 2] == Be16(v)
    ensures U16(b, i) == v
  {
    assert b[i] == b[i..i + 2][0] && b[i + 1] == b[i..i + 2][1];
  }

  lemma Be32U32(b: Bytes, i: nat)
    requires i + 4 <= |b|
    ensures Be32(U32(b, i)) == b[i..i + 4]
  {
    Be16U16(b, i);
    Be16U16(b, i + 2);
    hide U16, Be16;
    HighLow(U16(b, i), U16(b, i + 2));
    assert b[i..i + 4] == b[i..i + 2] + b[i + 2..i + 4];
  }

  lemma HighLow(high: u16, low: u16)
    ensures (high as int * 0x1_0000 + low) / 0x1_0000 == high && (high as int * 0x1_0000 + low) % 0x1_0000 == low
  {
  }

  lemma U32Be32(b: Bytes, i: nat, v: u32)
    requires i + 4 <= |b| && b[i..i + 4] == Be32(v)
    ensures U32(b, i) == v
  {
    assert b[i..i + 2] == b[i..i + 4][..2] && b[i + 2..i + 4] == b[i..i + 4][2..];
    U16Be16(b, i, v / 0x1_0000);
    U16Be16(b, i + 2, v % 0x1_0000);
  }

  function Zeros(n: nat): (r: Bytes)
    ensures |r| == n
  {
    seq(n, _ => 0)
  }

  lemma Parts(b: Bytes, i: nat, j: nat, k: nat)
    requires i <= j <= k <= |b|
    ensures b[..k] == b[..i] + b[i..j] + b[j..k]
  {
  }

  lemma FourParts(b: Bytes, i: nat, j: nat, k: nat, l: nat, m: nat)
    requires i <= j <= k <= l <= m <= |b|
    ensures b[i..m] == b[i..j] + b[j..k] + b[k..l] + b[l..m]
  {
    assert b[i..k] == b[i..j] + b[j..k];
    assert b[i..l] == b[i..k] + b[k..l];
    assert b[i..m] == b[i..l] + b[l..m];
  }

  /** A part of a part. */
  lemma Sub(b: Bytes, m: nat, n: nat, i: nat, j: nat)
    requires m <= n <= |b| && i <= j <= n - m
    ensures b[m..n][i..j] == b[m + i..m + j]
  {
    forall k | 0 <= k < j - i ensures b[m..n][i..j][k] == b[m + i..m + j][k] {
      assert b[m..n][i..j][k] == b[m..n][i + k] == b[m + i + k];
    }
  }

  lemma Joined(p: Bytes, q: Bytes, r: Bytes, c: Bytes)
    ensures var b := p + q + r + c;
            && b[..|p|] == p && b[|p|..] == q + (r + c)
            && b[|p| + |q|..|p| + |q| + |r|] == r && |b| >= |p| + |q| + |r| == |p + q + r|
  {
  }

  /** Bytes consumed, -1 for an input that is not a message, -2 for one that has ended too early. */
  datatype Parsed<+T> = Ok(value: T, used: nat) | Invalid | Truncated

  /** How the C functions report it. */
  predicate Reports<T(==)>(result: int, obj: T, p: Parsed<T>) {
    match p
    case Ok(x, n) => result == n && obj == x
    case Invalid => result == -1
    case Truncated => result == -2
  }

  // ----- Bytes of a message, without the functions that the formats are defined with -----

  /** A byte, two from i on, most significant first, and four. */
  function One(b: Bytes, i: nat): nat
    requires i < |b|
  {
    b[i]
  }

  function Two(b: Bytes, i: nat): nat
    requires i + 2 <= |b|
  {
    b[i] as int * 0x100 + b[i + 1]
  }

  function Four(b: Bytes, i: nat): nat
    requires i + 4 <= |b|
  {
    b[i] as int * 0x100_0000 + b[i + 1] as int * 0x1_0000 + b[i + 2] as int * 0x100 + b[i + 3]
  }

  lemma Fours(b: Bytes, i: nat)
    requires i + 4 <= |b|
    ensures U32(b, i) == Four(b, i) && U16(b, i) == Two(b, i)
  {
  }

  predicate AllZero(b: Bytes, n: nat) { |b| == n && forall i :: 0 <= i < n ==> b[i] == 0 }

  /** A length field announces more bytes, behind the first i, than there are. */
  predicate Short(b: Bytes, i: nat, n: nat) { |b| < i + n }

  // ----- Codecs -----

  /** For formats in which an object is encoded as it is. */
  ghost function Same<T>(x: T): T { x }

  /** The first n bytes of b are the encoding of x. */
  ghost predicate IsPrefix<T>(x: T, n: nat, b: Bytes, enc: T -> Bytes, good: T -> bool, canon: T -> T) {
    n <= |b| && good(x) && canon(x) == x && enc(x) == b[..n]
  }

  /** What is parsed is good, and its encoding is what was consumed. */
  ghost predicate Exact<T(!new)>(parse: Bytes -> Parsed<T>, enc: T -> Bytes, good: T -> bool, canon: T -> T) {
    forall b :: parse(b).Ok? ==> IsPrefix(parse(b).value, parse(b).used, b, enc, good, canon)
  }

  /** Parsing what was encoded gives it back, as far as it was encoded, whatever comes behind. */
  ghost predicate RoundTrips<T(!new)>(parse: Bytes -> Parsed<T>, enc: T -> Bytes, good: T -> bool, canon: T -> T) {
    forall x, c :: good(x) ==> parse(enc(x) + c) == Ok(canon(x), |enc(x)|)
  }

  /** No more input mends an invalid one. */
  ghost predicate Firm<T(!new)>(parse: Bytes -> Parsed<T>) {
    forall b, c :: parse(b).Invalid? ==> parse(b + c).Invalid?
  }

  ghost predicate Codec<T(!new)>(parse: Bytes -> Parsed<T>, enc: T -> Bytes, good: T -> bool, canon: T -> T) {
    Exact(parse, enc, good, canon) && RoundTrips(parse, enc, good, canon) && Firm(parse)
  }

  lemma IsCodec<T(!new)>(parse: Bytes -> Parsed<T>, enc: T -> Bytes, good: T -> bool, canon: T -> T)
    requires forall b :: parse(b).Ok? ==> IsPrefix(parse(b).value, parse(b).used, b, enc, good, canon)
    requires forall x, c :: good(x) ==> parse(enc(x) + c) == Ok(canon(x), |enc(x)|)
    requires forall b, c :: parse(b).Invalid? ==> parse(b + c).Invalid?
    ensures Codec(parse, enc, good, canon)
  {
  }

  lemma CodecExact<T(!new)>(parse: Bytes -> Parsed<T>, enc: T -> Bytes, good: T -> bool, canon: T -> T, b: Bytes)
    requires Codec(parse, enc, good, canon) && parse(b).Ok?
    ensures IsPrefix(parse(b).value, parse(b).used, b, enc, good, canon)
  {
  }

  lemma CodecRoundTrips<T(!new)>(parse: Bytes -> Parsed<T>, enc: T -> Bytes, good: T -> bool, canon: T -> T,
                                 x: T, c: Bytes)
    requires Codec(parse, enc, good, canon) && good(x)
    ensures parse(enc(x) + c) == Ok(canon(x), |enc(x)|)
  {
  }

  lemma RoundTripAt<T(!new)>(parse: Bytes -> Parsed<T>, enc: T -> Bytes, good: T -> bool, canon: T -> T, x: T, c: Bytes)
    requires RoundTrips(parse, enc, good, canon) && good(x)
    ensures parse(enc(x) + c) == Ok(canon(x), |enc(x)|)
  {
  }

  /** Success and failure are final: more input does not change them. */
  ghost predicate Steady<T(!new)>(parse: Bytes -> Parsed<T>) {
    && (forall b, c :: !parse(b).Truncated? ==> parse(b + c) == parse(b))
    && forall b :: parse(b).Ok? ==> parse(b).used <= |b|
  }

  lemma CodecSteady<T(!new)>(parse: Bytes -> Parsed<T>, enc: T -> Bytes, good: T -> bool, canon: T -> T)
    requires Codec(parse, enc, good, canon)
    ensures Steady(parse)
  {
    forall b, c | !parse(b).Truncated? ensures parse(b + c) == parse(b) {
      Final(parse, enc, good, canon, b, c);
    }
  }

  lemma Final<T(!new)>(parse: Bytes -> Parsed<T>, enc: T -> Bytes, good: T -> bool, canon: T -> T, b: Bytes, c: Bytes)
    requires Codec(parse, enc, good, canon) && !parse(b).Truncated?
    ensures parse(b + c) == parse(b)
  {
    match parse(b)
    case Ok(x, n) =>
      assert b == enc(x) + b[n..];
      assert b + c == enc(x) + (b[n..] + c);
    case Invalid =>
  }

  /** Every strict prefix of a message asks for more. */
  lemma AsksForMore<T(!new)>(parse: Bytes -> Parsed<T>, b: Bytes, k: nat)
    requires Steady(parse) && parse(b).Ok? && k < parse(b).used <= |b|
    ensures parse(b[..k]).Truncated?
  {
    assert b[..k] + b[k..] == b;
  }

  /** No encoding is a strict prefix of another, and none stands for two objects. */
  lemma PrefixFree<T(!new)>(parse: Bytes -> Parsed<T>, enc: T -> Bytes, good: T -> bool, canon: T -> T, x: T, y: T)
    requires Codec(parse, enc, good, canon) && good(x) && good(y) && enc(x) <= enc(y)
    ensures enc(x) == enc(y) && canon(x) == canon(y)
  {
    var c := enc(y)[|enc(x)|..];
    assert enc(y) == enc(x) + c && enc(y) == enc(y) + [];
  }

  // ----- Counted lists of elements -----

  function ParseMany<T>(parse: Bytes -> Parsed<T>, b: Bytes, k: nat): Parsed<seq<T>> {
    if k == 0 then Ok([], 0) else
      match parse(b)
      case Invalid => Invalid
      case Truncated => Truncated
      case Ok(x, n) =>
        if n > |b| then Invalid else
        match ParseMany(parse, b[n..], k - 1)
        case Ok(xs, m) => Ok([x] + xs, n + m)
        case Invalid => Invalid
        case Truncated => Truncated
  }

  function EncMany<T>(enc: T -> Bytes, xs: seq<T>): Bytes {
    if xs == [] then [] else enc(xs[0]) + EncMany(enc, xs[1..])
  }

  ghost predicate AllGood<T>(good: T -> bool, xs: seq<T>) { forall i :: 0 <= i < |xs| ==> good(xs[i]) }

  ghost function Canons<T>(canon: T -> T, xs: seq<T>): seq<T> {
    seq(|xs|, i requires 0 <= i < |xs| => canon(xs[i]))
  }

  /** An element and the rest of a list. */
  lemma ParseCons<T>(parse: Bytes -> Parsed<T>, b: Bytes, k: nat, x: T, n: nat, xs: seq<T>, m: nat)
    requires k > 0 && parse(b) == Ok(x, n) && n <= |b| && ParseMany(parse, b[n..], k - 1) == Ok(xs, m)
    ensures ParseMany(parse, b, k) == Ok([x] + xs, n + m)
  {
  }

  lemma NoneParsed<T>(parse: Bytes -> Parsed<T>, b: Bytes)
    ensures ParseMany(parse, b, 0) == Ok([], 0)
  {
  }

  lemma ConsParsed<T>(parse: Bytes -> Parsed<T>, b: Bytes, k: nat)
    requires k > 0 && ParseMany(parse, b, k).Ok?
    ensures parse(b).Ok? && parse(b).used <= |b|
    ensures var x, n := parse(b).value, parse(b).used;
            var rest := ParseMany(parse, b[n..], k - 1);
            rest.Ok? && ParseMany(parse, b, k) == Ok([x] + rest.value, n + rest.used)
  {
  }

  lemma EncCons<T>(enc: T -> Bytes, x: T, xs: seq<T>)
    ensures EncMany(enc, [x] + xs) == enc(x) + EncMany(enc, xs)
  {
    assert ([x] + xs)[1..] == xs;
  }

  lemma GoodCons<T>(good: T -> bool, x: T, xs: seq<T>)
    ensures AllGood(good, [x] + xs) <==> good(x) && AllGood(good, xs)
  {
    if AllGood(good, [x] + xs) {
      assert good(([x] + xs)[0]);
      forall i | 0 <= i < |xs| ensures good(xs[i]) { assert good(([x] + xs)[i + 1]); }
    }
  }

  lemma TwoParts(b: Bytes, n: nat, m: nat)
    requires n <= |b| && m <= |b| - n
    ensures b[..n + m] == b[..n] + b[n..][..m]
  {
  }

  lemma {:induction false} ManyExact<T(!new)>(parse: Bytes -> Parsed<T>, enc: T -> Bytes, good: T -> bool,
                                              canon: T -> T, b: Bytes, k: nat)
    requires Codec(parse, enc, good, canon) && ParseMany(parse, b, k).Ok?
    ensures var xs, n := ParseMany(parse, b, k).value, ParseMany(parse, b, k).used;
            && n <= |b| && |xs| == k && AllGood(good, xs) && Canons(canon, xs) == xs && EncMany(enc, xs) == b[..n]
    decreases k
  {
    if k > 0 {
      ConsParsed(parse, b, k);
      CodecExact(parse, enc, good, canon, b);
      hide Exact, RoundTrips, Firm, ParseMany, EncMany, AllGood, Canons;
      var n, m := parse(b).used, ParseMany(parse, b[parse(b).used..], k - 1).used;
      var x, rest := parse(b).value, ParseMany(parse, b[n..], k - 1).value;
      ManyExact(parse, enc, good, canon, b[n..], k - 1);
      TwoParts(b, n, m);
      EncCons(enc, x, rest);
      GoodCons(good, x, rest);
      CanonsCons(canon, x, rest);
    }
  }

  lemma CanonsCons<T>(canon: T -> T, x: T, xs: seq<T>)
    ensures Canons(canon, [x] + xs) == [canon(x)] + Canons(canon, xs)
  {
  }

  lemma Behind(e: Bytes, r: Bytes, c: Bytes)
    ensures (e + r) + c == e + (r + c) && (e + (r + c))[|e|..] == r + c
  {
  }

  lemma {:induction false} ManyRoundTrips<T(!new)>(parse: Bytes -> Parsed<T>, enc: T -> Bytes, good: T -> bool,
                                                   canon: T -> T, xs: seq<T>, c: Bytes)
    requires RoundTrips(parse, enc, good, canon) && AllGood(good, xs)
    ensures ParseMany(parse, EncMany(enc, xs) + c, |xs|) == Ok(Canons(canon, xs), |EncMany(enc, xs)|)
  {
    if xs == [] {
      assert Canons(canon, xs) == [];
    } else {
      hide RoundTrips, Canons, ParseMany, EncMany, AllGood;
      var x, rest := xs[0], xs[1..];
      assert [x] + rest == xs;
      GoodCons(good, x, rest);
      EncCons(enc, x, rest);
      CanonsCons(canon, x, rest);
      var tail := EncMany(enc, rest) + c;
      RoundTripAt(parse, enc, good, canon, x, tail);
      ManyRoundTrips(parse, enc, good, canon, rest, c);
      Behind(enc(x), EncMany(enc, rest), c);
      ParseCons(parse, enc(x) + tail, |xs|, canon(x), |enc(x)|, Canons(canon, rest), |EncMany(enc, rest)|);
    }
  }

  lemma {:induction false} ManySteady<T(!new)>(parse: Bytes -> Parsed<T>, b: Bytes, c: Bytes, k: nat)
    requires Steady(parse) && !ParseMany(parse, b, k).Truncated?
    ensures ParseMany(parse, b + c, k) == ParseMany(parse, b, k)
    ensures ParseMany(parse, b, k).Ok? ==> ParseMany(parse, b, k).used <= |b|
    decreases k
  {
    if k > 0 {
      assert parse(b + c) == parse(b);
      if parse(b).Ok? {
        var n := parse(b).used;
        ManySteady(parse, b[n..], c, k - 1);
        assert (b + c)[n..] == b[n..] + c;
      }
    }
  }

  lemma {:induction false} EncManySplit<T>(enc: T -> Bytes, xs: seq<T>, i: nat)
    requires i < |xs|
    ensures EncMany(enc, xs[..i + 1]) == EncMany(enc, xs[..i]) + enc(xs[i])
    ensures |EncMany(enc, xs)| >= |EncMany(enc, xs[..i + 1])|
    decreases |xs|
  {
    assert xs[..i + 1][1..] == xs[1..][..i];
    if i > 0 {
      assert xs[..i][1..] == xs[1..][..i - 1];
      EncManySplit(enc, xs[1..], i - 1);
    } else {
      assert EncMany(enc, xs[..0]) == [] && xs[1..][..0] == [];
    }
  }

  /** How the length of a list is added up. */
  lemma LengthStep<T>(enc: T -> Bytes, xs: seq<T>, i: nat)
    requires i < |xs|
    ensures |EncMany(enc, xs[i..])| == |enc(xs[i])| + |EncMany(enc, xs[i + 1..])|
  {
    assert xs[i..][1..] == xs[i + 1..];
  }

  /** The result of parsing a list of which the elements of front, n bytes, have been parsed already. */
  predicate Prefixed<T(==)>(front: seq<T>, n: nat, rest: Parsed<seq<T>>, all: Parsed<seq<T>>) {
    all == match rest
      case Ok(xs, m) => Ok(front + xs, n + m)
      case Invalid => Invalid
      case Truncated => Truncated
  }

  lemma ManyStart<T>(parse: Bytes -> Parsed<T>, b: Bytes, k: nat)
    ensures Prefixed([], 0, ParseMany(parse, b[0..], k), ParseMany(parse, b, k))
  {
    assert b[0..] == b;
    match ParseMany(parse, b, k)
    case Ok(xs, m) => assert [] + xs == xs;
    case Invalid =>
    case Truncated =>
  }

  /** One more element. */
  lemma ManyNext<T(!new)>(parse: Bytes -> Parsed<T>, b: Bytes, at: nat, k: nat, front: seq<T>, all: Parsed<seq<T>>)
    requires Steady(parse) && at <= |b| && k > 0 && Prefixed(front, at, ParseMany(parse, b[at..], k), all)
    ensures parse(b[at..]).Invalid? ==> all.Invalid?
    ensures parse(b[at..]).Truncated? ==> all.Truncated?
    ensures parse(b[at..]).Ok? ==> var x, n := parse(b[at..]).value, parse(b[at..]).used;
      at + n <= |b| && Prefixed(front + [x], at + n, ParseMany(parse, b[at + n..], k - 1), all)
  {
    if parse(b[at..]).Ok? {
      var x, n := parse(b[at..]).value, parse(b[at..]).used;
      assert b[at..][n..] == b[at + n..];
      match ParseMany(parse, b[at + n..], k - 1)
      case Ok(xs, m) => assert front + ([x] + xs) == front + [x] + xs;
      case Invalid =>
      case Truncated =>
    }
  }

  lemma ManyDone<T>(parse: Bytes -> Parsed<T>, b: Bytes, front: seq<T>, n: nat, all: Parsed<seq<T>>)
    requires Prefixed(front, n, ParseMany(parse, b, 0), all)
    ensures all == Ok(front, n)
  {
    assert front + [] == front;
  }

  lemma EncManyNone<T>(enc: T -> Bytes, xs: seq<T>)
    ensures EncMany(enc, xs[..0]) == []
  {
  }
}
