/** Link specifiers and the bodies of CREATE2 and EXTEND2 cells as bytes. */
module LinkFormat {
  import opened Wire
  import opened Wrappers

  const LS_IPV4: byte := 0
  const LS_IPV6: byte := 1
  const LS_LEGACY_ID: byte := 2
  const LS_ED25519_ID: byte := 3

  // ----- link_specifier -----

  datatype Spec = Spec(err: bool, kind: byte, length: byte, ipv4Addr: u32, ipv4Port: u16, ipv6Addr: Bytes, ipv6Port: u16,
                       legacyId: Bytes, ed25519Id: Bytes, unrecognized: Bytes)

  /** A fresh object. */
  const NO_SPEC: Spec := Spec(false, 0, 0, 0, 0, Zeros(16), 0, Zeros(20), Zeros(32), [])

  function SpecBody(x: Spec): Bytes {
    if x.kind == LS_IPV4 then Be32(x.ipv4Addr) + Be16(x.ipv4Port)
    else if x.kind == LS_IPV6 then x.ipv6Addr + Be16(x.ipv6Port)
    else if x.kind == LS_LEGACY_ID then x.legacyId
    else if x.kind == LS_ED25519_ID then x.ed25519Id
    else x.unrecognized
  }

  function EncSpec(x: Spec): Bytes { [x.kind, |SpecBody(x)| % 256] + SpecBody(x) }

  predicate SpecCheck(x: Spec) { !x.err }

  predicate SpecFits(x: Spec) { |SpecBody(x)| < 256 }

  predicate SpecShaped(x: Spec) { |x.ipv6Addr| == 16 && |x.legacyId| == 20 && |x.ed25519Id| == 32 }

  ghost predicate SpecGood(x: Spec) { SpecCheck(x) && SpecFits(x) && SpecShaped(x) }

  ghost function SpecCanon(x: Spec): Spec {
    var y := NO_SPEC.(kind := x.kind, length := |SpecBody(x)| % 256);
    if x.kind == LS_IPV4 then y.(ipv4Addr := x.ipv4Addr, ipv4Port := x.ipv4Port)
    else if x.kind == LS_IPV6 then y.(ipv6Addr := x.ipv6Addr, ipv6Port := x.ipv6Port)
    else if x.kind == LS_LEGACY_ID then y.(legacyId := x.legacyId)
    else if x.kind == LS_ED25519_ID then y.(ed25519Id := x.ed25519Id)
    else y.(unrecognized := x.unrecognized)
  }

  function ParseSpec(b: Bytes): Parsed<Spec> {
    if |b| < 2 then Truncated else
    var n: nat := b[1];
    if |b| < 2 + n then Truncated else
    var x := NO_SPEC.(kind := b[0], length := n);
    if b[0] == LS_IPV4 then
      if n != 6 then Invalid else Ok(x.(ipv4Addr := U32(b, 2), ipv4Port := U16(b, 6)), 8)
    else if b[0] == LS_IPV6 then
      if n != 18 then Invalid else Ok(x.(ipv6Addr := b[2..18], ipv6Port := U16(b, 18)), 20)
    else if b[0] == LS_LEGACY_ID then
      if n != 20 then Invalid else Ok(x.(legacyId := b[2..22]), 22)
    else if b[0] == LS_ED25519_ID then
      if n != 32 then Invalid else Ok(x.(ed25519Id := b[2..34]), 34)
    else Ok(x.(unrecognized := b[2..2 + n]), 2 + n)
  }

  lemma SpecExact(b: Bytes)
    requires ParseSpec(b).Ok?
    ensures IsPrefix(ParseSpec(b).value, ParseSpec(b).used, b, EncSpec, SpecGood, SpecCanon)
  {
    if b[0] == LS_IPV4 {
      Be32U32(b, 2);
      Be16U16(b, 6);
      assert b[2..8] == b[2..6] + b[6..8];
    } else if b[0] == LS_IPV6 {
      Be16U16(b, 18);
      assert b[2..20] == b[2..18] + b[18..20];
    }
    assert SpecBody(ParseSpec(b).value) == b[2..ParseSpec(b).used];
  }

  lemma SpecRoundTrips(x: Spec, c: Bytes)
    requires SpecGood(x)
    ensures ParseSpec(EncSpec(x) + c) == Ok(SpecCanon(x), |EncSpec(x)|)
  {
    var b, body := EncSpec(x) + c, SpecBody(x);
    assert b[0] == x.kind && b[1] == |body| && b[2..2 + |body|] == body;
    if x.kind == LS_IPV4 {
      assert b[2..6] == body[..4] && b[6..8] == body[4..];
      U32Be32(b, 2, x.ipv4Addr);
      U16Be16(b, 6, x.ipv4Port);
    } else if x.kind == LS_IPV6 {
      assert b[2..18] == body[..16] == x.ipv6Addr && b[18..20] == body[16..];
      U16Be16(b, 18, x.ipv6Port);
    }
  }

  lemma SpecCodec()
    ensures Codec(ParseSpec, EncSpec, SpecGood, SpecCanon)
  {
    forall b: Bytes | ParseSpec(b).Ok? ensures IsPrefix(ParseSpec(b).value, ParseSpec(b).used, b, EncSpec, SpecGood, SpecCanon) {
      SpecExact(b);
    }
    forall x, c: Bytes | SpecGood(x) ensures ParseSpec(EncSpec(x) + c) == Ok(SpecCanon(x), |EncSpec(x)|) {
      SpecRoundTrips(x, c);
    }
    forall b: Bytes, c: Bytes | ParseSpec(b).Invalid? ensures ParseSpec(b + c).Invalid? {
    }
  }

  // ----- create2_cell_body -----

  datatype Create2 = Create2(err: bool, kind: u16, length: u16, data: Bytes)

  function EncCreate2(x: Create2): Bytes { Be16(x.kind) + Be16(x.length) + x.data }

  /** create2_cell_body_check */
  predicate Create2Check(x: Create2) { !x.err && |x.data| == x.length }

  function ParseCreate2(b: Bytes): Parsed<Create2> {
    if |b| < 4 then Truncated else
    var n := U16(b, 2);
    if |b| < 4 + n then Truncated else Ok(Create2(false, U16(b, 0), n, b[4..4 + n]), 4 + n)
  }

  lemma Create2Codec()
    ensures Codec(ParseCreate2, EncCreate2, Create2Check, Same)
  {
    forall b: Bytes | ParseCreate2(b).Ok?
      ensures IsPrefix(ParseCreate2(b).value, ParseCreate2(b).used, b, EncCreate2, Create2Check, Same)
    {
      Be16U16(b, 0);
      Be16U16(b, 2);
      Parts(b, 2, 4, ParseCreate2(b).used);
    }
    forall x, c: Bytes | Create2Check(x) ensures ParseCreate2(EncCreate2(x) + c) == Ok(x, |EncCreate2(x)|) {
      var b := EncCreate2(x) + c;
      Joined(Be16(x.kind), Be16(x.length), x.data, c);
      assert b[0..2] == Be16(x.kind) && b[2..4] == Be16(x.length);
      U16Be16(b, 0, x.kind);
      U16Be16(b, 2, x.length);
    }
  }

  // ----- link_specifier_list -----

  datatype SpecList = SpecList(err: bool, nSpec: byte, spec: seq<Spec>)

  function EncSpecList(x: SpecList): Bytes { [x.nSpec] + EncMany(EncSpec, x.spec) }

  predicate AllCheck(spec: seq<Spec>) { forall i :: 0 <= i < |spec| ==> SpecCheck(spec[i]) }

  predicate AllFit(spec: seq<Spec>) { forall i :: 0 <= i < |spec| ==> SpecFits(spec[i]) }

  predicate AllShaped(spec: seq<Spec>) { forall i :: 0 <= i < |spec| ==> SpecShaped(spec[i]) }

  lemma AllSpecGood(spec: seq<Spec>)
    ensures AllGood(SpecGood, spec) <==> AllCheck(spec) && AllFit(spec) && AllShaped(spec)
  {
    if AllGood(SpecGood, spec) {
      forall i | 0 <= i < |spec| ensures SpecCheck(spec[i]) && SpecFits(spec[i]) && SpecShaped(spec[i]) {
        assert SpecGood(spec[i]);
      }
    }
  }

  /** link_specifier_list_check */
  predicate ListCheck(x: SpecList) { !x.err && AllCheck(x.spec) && |x.spec| == x.nSpec }

  ghost predicate ListGood(x: SpecList) { ListCheck(x) && AllFit(x.spec) && AllShaped(x.spec) }

  ghost function ListCanon(x: SpecList): SpecList { x.(spec := Canons(SpecCanon, x.spec)) }

  function ParseSpecList(b: Bytes): Parsed<SpecList> {
    if |b| < 1 then Truncated else
    match ParseMany(ParseSpec, b[1..], b[0])
    case Invalid => Invalid
    case Truncated => Truncated
    case Ok(spec, n) => Ok(SpecList(false, b[0], spec), 1 + n)
  }

  lemma ListCodec()
    ensures Codec(ParseSpecList, EncSpecList, ListGood, ListCanon)
  {
    hide SpecGood, EncSpec, ParseSpec, SpecCanon, EncMany, ParseMany, Exact, RoundTrips, Firm;
    SpecCodec();
    forall b: Bytes | ParseSpecList(b).Ok?
      ensures IsPrefix(ParseSpecList(b).value, ParseSpecList(b).used, b, EncSpecList, ListGood, ListCanon)
    {
      ManyExact(ParseSpec, EncSpec, SpecGood, SpecCanon, b[1..], b[0]);
      AllSpecGood(ParseSpecList(b).value.spec);
      assert b[1..][..ParseSpecList(b).used - 1] == b[1..ParseSpecList(b).used];
    }
    forall x, c: Bytes | ListGood(x) ensures ParseSpecList(EncSpecList(x) + c) == Ok(ListCanon(x), |EncSpecList(x)|) {
      AllSpecGood(x.spec);
      ManyRoundTrips(ParseSpec, EncSpec, SpecGood, SpecCanon, x.spec, c);
      assert (EncSpecList(x) + c)[1..] == EncMany(EncSpec, x.spec) + c;
    }
    forall b: Bytes, c: Bytes | ParseSpecList(b).Invalid? ensures ParseSpecList(b + c).Invalid? {
      CodecSteady(ParseSpec, EncSpec, SpecGood, SpecCanon);
      ManySteady(ParseSpec, b[1..], c, b[0]);
      assert (b + c)[1..] == b[1..] + c;
    }
    IsCodec(ParseSpecList, EncSpecList, ListGood, ListCanon);
  }

  // ----- extend2_cell_body -----

  datatype Extend2 = Extend2(err: bool, nSpec: byte, ls: seq<Spec>, create2: Create2)

  function EncExtend2(x: Extend2): Bytes { [x.nSpec] + EncMany(EncSpec, x.ls) + EncCreate2(x.create2) }

  /** extend2_cell_body_check */
  predicate Extend2Check(x: Extend2) {
    !x.err && AllCheck(x.ls) && |x.ls| == x.nSpec && Create2Check(x.create2)
  }

  ghost predicate Extend2Good(x: Extend2) { Extend2Check(x) && AllFit(x.ls) && AllShaped(x.ls) }

  ghost function Extend2Canon(x: Extend2): Extend2 { x.(ls := Canons(SpecCanon, x.ls)) }

  function ParseExtend2(b: Bytes): Parsed<Extend2> {
    match ParseSpecList(b)
    case Invalid => Invalid
    case Truncated => Truncated
    case Ok(list, n) =>
      if n > |b| then Invalid else
      match ParseCreate2(b[n..])
      case Invalid => Invalid
      case Truncated => Truncated
      case Ok(create2, m) => Ok(Extend2(false, list.nSpec, list.spec, create2), n + m)
  }

  lemma Extend2Codec()
    ensures Codec(ParseExtend2, EncExtend2, Extend2Good, Extend2Canon)
  {
    hide Exact, RoundTrips, Firm;
    forall b: Bytes | ParseExtend2(b).Ok?
      ensures IsPrefix(ParseExtend2(b).value, ParseExtend2(b).used, b, EncExtend2, Extend2Good, Extend2Canon)
    {
      Extend2Exact(b);
    }
    forall x, c: Bytes | Extend2Good(x) ensures ParseExtend2(EncExtend2(x) + c) == Ok(Extend2Canon(x), |EncExtend2(x)|) {
      Extend2RoundTrips(x, c);
    }
    forall b: Bytes, c: Bytes | ParseExtend2(b).Invalid? ensures ParseExtend2(b + c).Invalid? {
      Extend2Firm(b, c);
    }
    IsCodec(ParseExtend2, EncExtend2, Extend2Good, Extend2Canon);
  }

  lemma Extend2Exact(b: Bytes)
    requires ParseExtend2(b).Ok?
    ensures IsPrefix(ParseExtend2(b).value, ParseExtend2(b).used, b, EncExtend2, Extend2Good, Extend2Canon)
  {
    hide EncMany, EncSpec, Exact, RoundTrips, Firm, Create2Check, EncCreate2, ParseCreate2, ParseSpecList, Canons;
    ListCodec();
    Create2Codec();
    CodecExact(ParseSpecList, EncSpecList, ListGood, ListCanon, b);
    var n, m := ParseSpecList(b).used, ParseCreate2(b[ParseSpecList(b).used..]).used;
    CodecExact(ParseCreate2, EncCreate2, Create2Check, Same, b[n..]);
    assert b[..n + m] == b[..n] + b[n..][..m];
  }

  lemma Extend2RoundTrips(x: Extend2, c: Bytes)
    requires Extend2Good(x)
    ensures ParseExtend2(EncExtend2(x) + c) == Ok(Extend2Canon(x), |EncExtend2(x)|)
  {
    hide EncMany, EncSpec, Exact, RoundTrips, Firm, Create2Check, EncCreate2, ParseCreate2, ParseSpecList, Canons;
    ListCodec();
    Create2Codec();
    var list := SpecList(false, x.nSpec, x.ls);
    var tail := EncCreate2(x.create2) + c;
    assert EncExtend2(x) + c == EncSpecList(list) + tail;
    CodecRoundTrips(ParseSpecList, EncSpecList, ListGood, ListCanon, list, tail);
    CodecRoundTrips(ParseCreate2, EncCreate2, Create2Check, Same, x.create2, c);
    assert (EncExtend2(x) + c)[|EncSpecList(list)|..] == tail;
  }

  lemma Extend2Firm(b: Bytes, c: Bytes)
    requires ParseExtend2(b).Invalid?
    ensures ParseExtend2(b + c).Invalid?
  {
    hide EncMany, EncSpec, Exact, RoundTrips, Firm, Create2Check, EncCreate2, ParseSpecList, Canons;
    ListCodec();
    Final(ParseSpecList, EncSpecList, ListGood, ListCanon, b, c);
    if ParseSpecList(b).Ok? { CodecExact(ParseSpecList, EncSpecList, ListGood, ListCanon, b); }
  }

  // ----- What stands where -----

  /** The body that a link specifier of type k has, if its type is one of the four that are known. */
  function SpecSize(k: byte): Option<nat> {
    if k == 0 then Some(6) else if k == 1 then Some(18) else if k == 2 then Some(20) else if k == 3 then Some(32) else None
  }

  /** Type 0 is an IPv4 address and a port, 1 an IPv6 address and a port, 2 the digest of an identity key, 3 an ed25519
      identity; the body of any other type is kept as it is. */
  lemma SpecBytes(b: Bytes, r: int, x: Spec)
    requires Reports(r, x, ParseSpec(b))
    ensures r == -2 <==> |b| < 2 || Short(b, 2, b[1])
    ensures r == -1 <==> |b| >= 2 && !Short(b, 2, b[1]) && SpecSize(b[0]).Some? && b[1] != SpecSize(b[0]).value
    ensures r >= 0 ==> r == 2 + One(b, 1) && !x.err && x.kind == b[0] && x.length == b[1]
    ensures r >= 0 ==> if b[0] == 0 then x.ipv4Addr == Four(b, 2) && x.ipv4Port == Two(b, 6)
                       else x.ipv4Addr == 0 && x.ipv4Port == 0
    ensures r >= 0 ==> if b[0] == 1 then x.ipv6Addr == b[2..18] && x.ipv6Port == Two(b, 18)
                       else AllZero(x.ipv6Addr, 16) && x.ipv6Port == 0
    ensures r >= 0 ==> if b[0] == 2 then x.legacyId == b[2..22] else AllZero(x.legacyId, 20)
    ensures r >= 0 ==> if b[0] == 3 then x.ed25519Id == b[2..34] else AllZero(x.ed25519Id, 32)
    ensures r >= 0 ==> if b[0] > 3 then x.unrecognized == b[2..2 + One(b, 1)] else x.unrecognized == []
  {
  }

  lemma Create2Bytes(b: Bytes, r: int, x: Create2)
    requires Reports(r, x, ParseCreate2(b))
    ensures r == -2 <==> |b| < 4 || Short(b, 4, Two(b, 2))
    ensures r == -2 || (r == 4 + Two(b, 2) && x == Create2(false, Two(b, 0), Two(b, 2), b[4..r]))
  {
  }

  /** An EXTEND2 body with the address and the identity digest of the next relay, and the handshake behind them. */
  lemma Extend2Bytes(b: Bytes, r: int, x: Extend2)
    requires Reports(r, x, ParseExtend2(b)) && |b| >= 35 && !Short(b, 35, Two(b, 33))
    requires b[0] == 2 && b[1] == 0 && b[2] == 6 && b[9] == 2 && b[10] == 20
    ensures r == 35 + Two(b, 33) && |x.ls| == x.nSpec == 2
    ensures x.ls[0].ipv4Addr == Four(b, 3) && x.ls[0].ipv4Port == Two(b, 7) && x.ls[1].legacyId == b[11..31]
    ensures x.create2 == Create2(false, Two(b, 31), Two(b, 33), b[35..r])
  {
    var c, d := b[1..], b[9..];
    assert ParseSpec(c).Ok? && ParseSpec(c).used == 8;
    assert ParseSpec(d).Ok? && ParseSpec(d).used == 22 && ParseSpec(d).value.legacyId == d[2..22];
    assert c[8..] == d && d[2..22] == b[11..31];
    ParseCons(ParseSpec, d, 1, ParseSpec(d).value, 22, [], 0);
    assert [ParseSpec(d).value] + [] == [ParseSpec(d).value];
    ParseCons(ParseSpec, c, 2, ParseSpec(c).value, 8, [ParseSpec(d).value], 22);
    assert [ParseSpec(c).value] + [ParseSpec(d).value] == [ParseSpec(c).value, ParseSpec(d).value];
    assert ParseSpecList(b) == Ok(SpecList(false, 2, [ParseSpec(c).value, ParseSpec(d).value]), 31);
    var e := b[31..];
    assert ParseCreate2(e).Ok? && U16(e, 0) == Two(b, 31) && U16(e, 2) == Two(b, 33);
    assert e[4..4 + Two(b, 33)] == b[35..35 + Two(b, 33)];
  }
}
