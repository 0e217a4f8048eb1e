/** NETINFO cells as bytes. Bodies of addresses of unknown types are skipped by the parser. */
module NetFormat {
  import opened Wire

  const TYPE_IPV4: byte := 4
  const TYPE_IPV6: byte := 6

  datatype Addr = Addr(err: bool, kind: byte, length: byte, ipv4: u32, ipv6: Bytes)

  const NO_ADDR: Addr := Addr(false, 0, 0, 0, Zeros(16))

  predicate Known(kind: byte) { kind == TYPE_IPV4 || kind == TYPE_IPV6 }

  function AddrBody(x: Addr): Bytes {
    if x.kind == TYPE_IPV4 then Be32(x.ipv4) else if x.kind == TYPE_IPV6 then x.ipv6 else []
  }

  function EncAddr(x: Addr): Bytes { [x.kind, |AddrBody(x)| % 256] + AddrBody(x) }

  /** The encoding with a body of its own for an address of unknown type. */
  function EncWith(x: Addr, s: Bytes): Bytes {
    if Known(x.kind) then EncAddr(x) else [x.kind, |s| % 256] + s
  }

  /** netinfo_addr_check */
  predicate AddrCheck(x: Addr) { !x.err }

  predicate AddrShaped(x: Addr) { |x.ipv6| == 16 }

  ghost predicate AddrGood(x: Addr) { AddrCheck(x) && AddrShaped(x) }

  /** The length field the encoder writes, and only what the type selects. */
  ghost function AddrCanon(x: Addr): Addr {
    var y := NO_ADDR.(kind := x.kind, length := |AddrBody(x)| % 256);
    if x.kind == TYPE_IPV4 then y.(ipv4 := x.ipv4) else if x.kind == TYPE_IPV6 then y.(ipv6 := x.ipv6) else y
  }

  function ParseAddr(b: Bytes): Parsed<Addr> {
    if |b| < 2 then Truncated else
    var n: nat := b[1];
    if |b| < 2 + n then Truncated else
    var x := NO_ADDR.(kind := b[0], length := n);
    if b[0] == TYPE_IPV4 then
      if n != 4 then Invalid else Ok(x.(ipv4 := U32(b, 2)), 6)
    else if b[0] == TYPE_IPV6 then
      if n != 16 then Invalid else Ok(x.(ipv6 := b[2..18]), 18)
    else Ok(x, 2 + n)
  }

  /** What was skipped. */
  function Skipped(b: Bytes): Bytes
    requires ParseAddr(b).Ok?
  {
    if Known(b[0]) then [] else b[2..ParseAddr(b).used]
  }

  lemma AddrExact(b: Bytes)
    requires ParseAddr(b).Ok?
    ensures var x, n := ParseAddr(b).value, ParseAddr(b).used;
            && n <= |b| && AddrGood(x) && EncWith(x, Skipped(b)) == b[..n] && x == AddrCanon(x).(length := x.length)
            && x.length == n - 2 && (Known(x.kind) ==> AddrCanon(x) == x)
  {
    if b[0] == TYPE_IPV4 { Be32U32(b, 2); }
    assert b[..ParseAddr(b).used] == [b[0], b[1]] + b[2..ParseAddr(b).used];
  }

  lemma AddrRoundTrips()
    ensures RoundTrips(ParseAddr, EncAddr, AddrGood, AddrCanon)
  {
    forall x, c: Bytes | AddrGood(x) ensures ParseAddr(EncAddr(x) + c) == Ok(AddrCanon(x), |EncAddr(x)|) {
      var b, body := EncAddr(x) + c, AddrBody(x);
      assert b[0] == x.kind && b[1] == |body| && b[2..2 + |body|] == body;
      if x.kind == TYPE_IPV4 { U32Be32(b, 2, x.ipv4); }
    }
  }

  lemma AddrSteady()
    ensures Steady(ParseAddr)
  {
    forall b: Bytes, c: Bytes | !ParseAddr(b).Truncated? ensures ParseAddr(b + c) == ParseAddr(b) {
      if b[0] == TYPE_IPV6 && ParseAddr(b).Ok? { assert (b + c)[2..18] == b[2..18]; }
    }
  }

  /** A list of encodings with bodies of their own. */
  function EncManyWith(xs: seq<Addr>, ss: seq<Bytes>): Bytes
    requires |xs| == |ss|
  {
    if xs == [] then [] else EncWith(xs[0], ss[0]) + EncManyWith(xs[1..], ss[1..])
  }

  lemma {:induction false} ManyAddrs(b: Bytes, k: nat) returns (ss: seq<Bytes>)
    requires ParseMany(ParseAddr, b, k).Ok?
    ensures var xs, n := ParseMany(ParseAddr, b, k).value, ParseMany(ParseAddr, b, k).used;
            n <= |b| && |xs| == |ss| == k && AllGood(AddrGood, xs) && EncManyWith(xs, ss) == b[..n]
    decreases k
  {
    if k == 0 {
      ss := [];
    } else {
      AddrExact(b);
      ConsParsed(ParseAddr, b, k);
      hide ParseAddr, EncWith, AddrCanon, Skipped, ParseMany, EncManyWith, AllGood;
      var x, n := ParseAddr(b).value, ParseAddr(b).used;
      var rest := ManyAddrs(b[n..], k - 1);
      ss := [Skipped(b)] + rest;
      var xs, m := ParseMany(ParseAddr, b[n..], k - 1).value, ParseMany(ParseAddr, b[n..], k - 1).used;
      EncWithCons(x, Skipped(b), xs, rest);
      GoodCons(AddrGood, x, xs);
      TwoParts(b, n, m);
    }
  }

  lemma EncWithCons(x: Addr, s: Bytes, xs: seq<Addr>, ss: seq<Bytes>)
    requires |xs| == |ss|
    ensures EncManyWith([x] + xs, [s] + ss) == EncWith(x, s) + EncManyWith(xs, ss)
  {
    assert ([x] + xs)[1..] == xs && ([s] + ss)[1..] == ss;
  }

  // ----- netinfo_cell -----

  datatype Net = Net(err: bool, timestamp: u32, other: Addr, nMine: byte, mine: seq<Addr>)

  function EncNet(x: Net): Bytes {
    Be32(x.timestamp) + EncAddr(x.other) + ([x.nMine] + EncMany(EncAddr, x.mine))
  }

  function EncNetWith(x: Net, s: Bytes, ss: seq<Bytes>): Bytes
    requires |ss| == |x.mine|
  {
    Be32(x.timestamp) + EncWith(x.other, s) + ([x.nMine] + EncManyWith(x.mine, ss))
  }

  predicate AllChecked(xs: seq<Addr>) { forall i :: 0 <= i < |xs| ==> AddrCheck(xs[i]) }

  predicate AllShaped(xs: seq<Addr>) { forall i :: 0 <= i < |xs| ==> AddrShaped(xs[i]) }

  /** netinfo_cell_check */
  predicate NetCheck(x: Net) { !x.err && AddrCheck(x.other) && AllChecked(x.mine) && |x.mine| == x.nMine }

  predicate NetShaped(x: Net) { AddrShaped(x.other) && AllShaped(x.mine) }

  ghost predicate NetGood(x: Net) { NetCheck(x) && NetShaped(x) }

  ghost function NetCanon(x: Net): Net {
    x.(other := AddrCanon(x.other), mine := Canons(AddrCanon, x.mine))
  }

  function ParseNet(b: Bytes): Parsed<Net> {
    if |b| < 4 then Truncated else
    match ParseAddr(b[4..])
    case Invalid => Invalid
    case Truncated => Truncated
    case Ok(other, n) =>
      if |b| < 5 + n then Truncated else
      match ParseMany(ParseAddr, b[5 + n..], b[4 + n])
      case Invalid => Invalid
      case Truncated => Truncated
      case Ok(mine, m) => Ok(Net(false, U32(b, 0), other, b[4 + n], mine), 5 + n + m)
  }

  lemma AllAddrGood(xs: seq<Addr>)
    ensures AllGood(AddrGood, xs) <==> AllChecked(xs) && AllShaped(xs)
  {
    if AllGood(AddrGood, xs) {
      forall i | 0 <= i < |xs| ensures AddrCheck(xs[i]) && AddrShaped(xs[i]) { assert AddrGood(xs[i]); }
    }
  }

  /** What is parsed is what was there, but for the bodies of unknown types. */
  lemma NetExact(b: Bytes) returns (s: Bytes, ss: seq<Bytes>)
    requires ParseNet(b).Ok?
    ensures var x, n := ParseNet(b).value, ParseNet(b).used;
            n <= |b| && NetGood(x) && |ss| == |x.mine| && EncNetWith(x, s, ss) == b[..n]
  {
    hide EncWith, EncManyWith, ParseMany, ParseAddr;
    var x, used := ParseNet(b).value, ParseNet(b).used;
    AddrExact(b[4..]);
    s := Skipped(b[4..]);
    var n := ParseAddr(b[4..]).used;
    ss := ManyAddrs(b[5 + n..], b[4 + n]);
    AllAddrGood(x.mine);
    Be32U32(b, 0);
    Parts(b, 4, 4 + n, used);
    assert b[4..][..n] == b[4..4 + n];
    assert b[4 + n..used] == [b[4 + n]] + b[5 + n..][..used - 5 - n];
  }

  /** Re-encoding gives a cell with the same fields; a second time nothing more is lost. */
  lemma NetRoundTrips(x: Net, c: Bytes)
    requires NetGood(x)
    ensures ParseNet(EncNet(x) + c) == Ok(NetCanon(x), |EncNet(x)|)
  {
    AddrRoundTrips();
    hide EncMany, ParseMany, ParseAddr, AddrCanon, Exact, RoundTrips, Firm;
    AllAddrGood(x.mine);
    var tail := [x.nMine] + EncMany(EncAddr, x.mine);
    var b := EncNet(x) + c;
    Joined(Be32(x.timestamp), EncAddr(x.other), tail, c);
    RoundTripAt(ParseAddr, EncAddr, AddrGood, AddrCanon, x.other, tail + c);
    var n := |EncAddr(x.other)|;
    ManyRoundTrips(ParseAddr, EncAddr, AddrGood, AddrCanon, x.mine, c);
    assert b[0..4] == Be32(x.timestamp);
    U32Be32(b, 0, x.timestamp);
    assert b[4 + n..] == tail + c;
    assert b[5 + n..] == EncMany(EncAddr, x.mine) + c && b[4 + n] == x.nMine;
  }

  lemma CanonKeeps(x: Addr)
    requires AddrShaped(x)
    ensures var y := AddrCanon(x);
            && y.kind == x.kind && EncAddr(y) == EncAddr(x) && AddrCanon(y) == y
            && (x.kind == TYPE_IPV4 ==> y.ipv4 == x.ipv4) && (x.kind == TYPE_IPV6 ==> y.ipv6 == x.ipv6)
  {
  }

  lemma {:induction false} CanonsKeep(xs: seq<Addr>)
    requires AllShaped(xs)
    ensures EncMany(EncAddr, Canons(AddrCanon, xs)) == EncMany(EncAddr, xs)
    ensures Canons(AddrCanon, Canons(AddrCanon, xs)) == Canons(AddrCanon, xs)
  {
    forall i | 0 <= i < |xs| ensures AddrCanon(AddrCanon(xs[i])) == AddrCanon(xs[i]) { CanonKeeps(xs[i]); }
    if xs == [] {
      assert Canons(AddrCanon, xs) == [];
    } else {
      assert Canons(AddrCanon, xs)[1..] == Canons(AddrCanon, xs[1..]);
      CanonKeeps(xs[0]);
      CanonsKeep(xs[1..]);
    }
  }

  /** Decoding and encoding is a canonicalisation: it keeps the timestamp, the number and order of the addresses,
      their types, and the known addresses, and doing it again changes nothing. */
  lemma NetIdempotent(b: Bytes, c: Bytes)
    requires ParseNet(b).Ok?
    ensures var x := ParseNet(b).value;
            && ParseNet(EncNet(x) + c) == Ok(NetCanon(x), |EncNet(x)|) && EncNet(NetCanon(x)) == EncNet(x)
            && NetCanon(NetCanon(x)) == NetCanon(x)
            && NetCanon(x).timestamp == x.timestamp && |NetCanon(x).mine| == |x.mine|
            && (forall i :: 0 <= i < |x.mine| ==> SameAddr(NetCanon(x).mine[i], x.mine[i]))
            && SameAddr(NetCanon(x).other, x.other)
  {
    var s, ss := NetExact(b);
    var x := ParseNet(b).value;
    NetRoundTrips(x, c);
    CanonsKeep(x.mine);
    CanonKeeps(x.other);
    forall i | 0 <= i < |x.mine| ensures SameAddr(NetCanon(x).mine[i], x.mine[i]) { CanonKeeps(x.mine[i]); }
  }

  /** Two objects stand for the same address, or have the same unknown type. */
  predicate SameAddr(x: Addr, y: Addr) {
    && x.kind == y.kind && (x.kind == TYPE_IPV4 ==> x.ipv4 == y.ipv4) && (x.kind == TYPE_IPV6 ==> x.ipv6 == y.ipv6)
  }

  /** Success and failure are final. */
  lemma NetSteady()
    ensures Steady(ParseNet)
  {
    forall b: Bytes, c: Bytes | !ParseNet(b).Truncated? ensures ParseNet(b + c) == ParseNet(b) {
      NetFinal(b, c);
    }
    forall b: Bytes | ParseNet(b).Ok? ensures ParseNet(b).used <= |b| {
      NetFinal(b, []);
    }
  }

  lemma NetFinal(b: Bytes, c: Bytes)
    requires !ParseNet(b).Truncated?
    ensures ParseNet(b + c) == ParseNet(b) && (ParseNet(b).Ok? ==> ParseNet(b).used <= |b|)
  {
    AddrSteady();
    hide ParseAddr, ParseMany;
    assert (b + c)[4..] == b[4..] + c;
    if ParseAddr(b[4..]).Ok? {
      var n := ParseAddr(b[4..]).used;
      assert (b + c)[5 + n..] == b[5 + n..] + c;
      ManySteady(ParseAddr, b[5 + n..], c, b[4 + n]);
    }
  }

  // ----- What stands where -----

  /** Type 4 is an IPv4 address, 6 an IPv6 address; of any other type nothing is kept but type and length. */
  lemma AddrBytes(b: Bytes, r: int, x: Addr)
    requires Reports(r, x, ParseAddr(b))
    ensures r == -2 <==> |b| < 2 || Short(b, 2, b[1])
    ensures r == -1 <==> |b| >= 2 && !Short(b, 2, b[1]) && ((b[0] == 4 && b[1] != 4) || (b[0] == 6 && b[1] != 16))
    ensures r >= 0 ==> r == 2 + One(b, 1) && !x.err && x.kind == b[0] && x.length == b[1]
    ensures r >= 0 ==> if b[0] == 4 then x.ipv4 == Four(b, 2) else x.ipv4 == 0
    ensures r >= 0 ==> if b[0] == 6 then x.ipv6 == b[2..18] else AllZero(x.ipv6, 16)
  {
  }

  /** Only the bodies of other types are skipped. */
  lemma SkippedBytes(b: Bytes)
    requires ParseAddr(b).Ok?
    ensures |b| >= 2 && Skipped(b) == if b[0] == 4 || b[0] == 6 then [] else b[2..2 + One(b, 1)]
  {
  }

  /** A cell with the time, the other side's IPv4 address, and one of one's own. */
  lemma NetBytes(b: Bytes, r: int, x: Net)
    requires Reports(r, x, ParseNet(b)) && |b| >= 17
    requires b[4] == 4 && b[5] == 4 && b[10] == 1 && b[11] == 4 && b[12] == 4
    ensures r == 17 && x.timestamp == Four(b, 0) && x.other.ipv4 == Four(b, 6) && x.nMine == |x.mine| == 1
    ensures x.mine[0].ipv4 == Four(b, 13)
  {
    var c, d := b[4..], b[11..];
    Fours(b, 0);
    assert ParseAddr(c).Ok? && ParseAddr(c).used == 6 && ParseAddr(c).value.ipv4 == Four(b, 6);
    assert ParseAddr(d).Ok? && ParseAddr(d).used == 6 && ParseAddr(d).value.ipv4 == Four(b, 13);
    ParseCons(ParseAddr, d, 1, ParseAddr(d).value, 6, [], 0);
  }
}
