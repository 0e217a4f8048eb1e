/** SOCKS requests as bytes: SOCKS4 and 4a, and sections 4 and 5 of RFC 1928. */
module SocksFormat {
  import opened Wire
  import opened Wrappers

  const CMD_CONNECT: byte := 1
  const CMD_BIND: byte := 2
  const CMD_UDP_ASSOCIATE: byte := 3
  const CMD_RESOLVE: byte := 240
  const CMD_RESOLVE_PTR: byte := 241
  const ATYPE_IPV4: byte := 1
  const ATYPE_IPV6: byte := 4
  const ATYPE_DOMAINNAME: byte := 3

  // ----- domainname -----

  datatype Domain = Domain(err: bool, len: byte, name: Bytes)

  function EncDomain(x: Domain): Bytes { [x.len] + x.name }

  /** domainname_check */
  predicate DomainCheck(x: Domain) { !x.err && |x.name| == x.len }

  function ParseDomain(b: Bytes): Parsed<Domain> {
    if |b| < 1 then Truncated else
    var n: nat := b[0];
    if |b| < 1 + n then Truncated else Ok(Domain(false, b[0], b[1..1 + n]), 1 + n)
  }

  lemma DomainCodec()
    ensures Codec(ParseDomain, EncDomain, DomainCheck, Same)
  {
    forall b: Bytes | ParseDomain(b).Ok?
      ensures IsPrefix(ParseDomain(b).value, ParseDomain(b).used, b, EncDomain, DomainCheck, Same)
    {
    }
    forall x, c: Bytes | DomainCheck(x) ensures ParseDomain(EncDomain(x) + c) == Ok(x, |EncDomain(x)|) {
      assert (EncDomain(x) + c)[1..1 + |x.name|] == x.name;
    }
  }

  // ----- socks4_client_request -----

  /** The strings are pointers that may be NULL. */
  datatype Socks4 = Socks4(err: bool, version: byte, command: byte, port: u16, addr: u32, username: Option<Bytes>,
                           hostname: Option<Bytes>)

  /** An address that says that a host name follows. */
  predicate Named(addr: u32) { 1 <= addr <= 255 }

  predicate Socks4Command(c: byte) { c == CMD_BIND || c == CMD_CONNECT || c == CMD_RESOLVE || c == CMD_RESOLVE_PTR }

  function EncSocks4(x: Socks4): Bytes
    requires Socks4Check(x)
  {
    EncSocks4Head(x) + (x.username.value + [0]) + if Named(x.addr) then x.hostname.value + [0] else []
  }

  function EncSocks4Head(x: Socks4): Bytes { [x.version, x.command] + Be16(x.port) + Be32(x.addr) }

  /** socks4_client_request_check */
  predicate Socks4Check(x: Socks4) {
    && !x.err && x.version == 4 && Socks4Command(x.command) && x.username.Some? && (Named(x.addr) ==> x.hostname.Some?)
  }

  /** C strings hold no NUL. */
  predicate Socks4Shaped(x: Socks4) {
    (x.username.Some? ==> 0 !in x.username.value) && (x.hostname.Some? ==> 0 !in x.hostname.value)
  }

  ghost predicate Socks4Good(x: Socks4) { Socks4Check(x) && Socks4Shaped(x) }

  ghost function Socks4Canon(x: Socks4): Socks4 { if Named(x.addr) then x else x.(hostname := None) }

  ghost function EncAnySocks4(x: Socks4): Bytes { if Socks4Check(x) then EncSocks4(x) else [] }

  /** memchr(ptr, 0, remaining): how many bytes there are before the first NUL. */
  function Nul(b: Bytes, i: nat): (r: nat)
    requires i <= |b|
    ensures i <= r <= |b| && 0 !in b[i..r] && (r < |b| ==> b[r] == 0)
    decreases |b| - i
  {
    if i == |b| || b[i] == 0 then i else Nul(b, i + 1)
  }

  lemma {:induction false} NulIs(b: Bytes, i: nat, r: nat)
    requires i <= r < |b| && 0 !in b[i..r] && b[r] == 0
    ensures Nul(b, i) == r
    decreases r - i
  {
    if i < r {
      assert b[i] == b[i..r][0] && b[i + 1..r] == b[i..r][1..];
      NulIs(b, i + 1, r);
    }
  }

  function ParseSocks4(b: Bytes): Parsed<Socks4> {
    if |b| < 1 then Truncated else
    if b[0] != 4 then Invalid else
    if |b| < 2 then Truncated else
    if !Socks4Command(b[1]) then Invalid else
    if |b| < 8 then Truncated else
    var u := Nul(b, 8);
    if u == |b| then Truncated else
    var x := Socks4(false, 4, b[1], U16(b, 2), U32(b, 4), Some(b[8..u]), None);
    if !Named(x.addr) then Ok(x, u + 1) else
    var h := Nul(b, u + 1);
    if h == |b| then Truncated else Ok(x.(hostname := Some(b[u + 1..h])), h + 1)
  }

  lemma Socks4Exact(b: Bytes)
    requires ParseSocks4(b).Ok?
    ensures IsPrefix(ParseSocks4(b).value, ParseSocks4(b).used, b, EncAnySocks4, Socks4Good, Socks4Canon)
  {
    var x, n, u := ParseSocks4(b).value, ParseSocks4(b).used, Nul(b, 8);
    Be16U16(b, 2);
    Be32U32(b, 4);
    assert EncSocks4Head(x) == b[..8];
    assert b[8..u + 1] == b[8..u] + [0];
    if Named(x.addr) { assert b[u + 1..n] == b[u + 1..n - 1] + [0]; }
    Parts(b, 8, u + 1, n);
  }

  lemma Socks4RoundTrips(x: Socks4, c: Bytes)
    requires Socks4Good(x)
    ensures ParseSocks4(EncSocks4(x) + c) == Ok(Socks4Canon(x), |EncSocks4(x)|)
  {
    var b, head, name := EncSocks4(x) + c, EncSocks4Head(x), x.username.value;
    var tail := if Named(x.addr) then x.hostname.value + [0] else [];
    Joined(head, name + [0], tail, c);
    var u := 8 + |name|;
    assert b[..8] == head;
    assert b[2..4] == head[2..4] == Be16(x.port) && b[4..8] == head[4..8] == Be32(x.addr);
    U16Be16(b, 2, x.port);
    U32Be32(b, 4, x.addr);
    assert b[0] == head[0] && b[1] == head[1];
    assert b[8..u] == name && b[u] == 0;
    NulIs(b, 8, u);
    if Named(x.addr) {
      var h := u + 1 + |x.hostname.value|;
      assert b[u + 1..h] == x.hostname.value && b[h] == 0;
      NulIs(b, u + 1, h);
    }
  }

  lemma Socks4Codec()
    ensures Codec(ParseSocks4, EncAnySocks4, Socks4Good, Socks4Canon)
  {
    forall b: Bytes | ParseSocks4(b).Ok?
      ensures IsPrefix(ParseSocks4(b).value, ParseSocks4(b).used, b, EncAnySocks4, Socks4Good, Socks4Canon)
    {
      Socks4Exact(b);
    }
    forall x, c: Bytes | Socks4Good(x)
      ensures ParseSocks4(EncAnySocks4(x) + c) == Ok(Socks4Canon(x), |EncAnySocks4(x)|)
    {
      Socks4RoundTrips(x, c);
    }
    forall b: Bytes, c: Bytes | ParseSocks4(b).Invalid? ensures ParseSocks4(b + c).Invalid? {
    }
    IsCodec(ParseSocks4, EncAnySocks4, Socks4Good, Socks4Canon);
  }

  // ----- socks5_client_request -----

  datatype Socks5 = Socks5(err: bool, version: byte, command: byte, reserved: byte, atype: byte, ipv4: u32, ipv6: Bytes,
                           domain: Option<Domain>, port: u16)

  predicate Socks5Command(c: byte) {
    c == CMD_BIND || c == CMD_CONNECT || c == CMD_RESOLVE || c == CMD_RESOLVE_PTR || c == CMD_UDP_ASSOCIATE
  }

  /** socks5_client_request_check */
  predicate Socks5Check(x: Socks5) {
    && !x.err && x.version == 5 && Socks5Command(x.command) && x.reserved == 0
    && if x.atype == ATYPE_DOMAINNAME then x.domain.Some? && DomainCheck(x.domain.value)
       else x.atype == ATYPE_IPV4 || x.atype == ATYPE_IPV6
  }

  predicate Socks5Shaped(x: Socks5) { |x.ipv6| == 16 }

  ghost predicate Socks5Good(x: Socks5) { Socks5Check(x) && Socks5Shaped(x) }

  function DestAddr(x: Socks5): Bytes
    requires Socks5Check(x)
  {
    if x.atype == ATYPE_IPV4 then Be32(x.ipv4) else if x.atype == ATYPE_IPV6 then x.ipv6 else EncDomain(x.domain.value)
  }

  function EncSocks5(x: Socks5): Bytes
    requires Socks5Check(x)
  {
    [x.version, x.command, x.reserved, x.atype] + DestAddr(x) + Be16(x.port)
  }

  ghost function EncAnySocks5(x: Socks5): Bytes { if Socks5Check(x) then EncSocks5(x) else [] }

  ghost function Socks5Canon(x: Socks5): Socks5 {
    x.(ipv4 := if x.atype == ATYPE_IPV4 then x.ipv4 else 0, ipv6 := if x.atype == ATYPE_IPV6 then x.ipv6 else Zeros(16),
       domain := if x.atype == ATYPE_DOMAINNAME then x.domain else None)
  }

  function ParseSocks5(b: Bytes): Parsed<Socks5> {
    if |b| < 1 then Truncated else
    if b[0] != 5 then Invalid else
    if |b| < 2 then Truncated else
    if !Socks5Command(b[1]) then Invalid else
    if |b| < 3 then Truncated else
    if b[2] != 0 then Invalid else
    if |b| < 4 then Truncated else
    var x := Socks5(false, 5, b[1], 0, b[3], 0, Zeros(16), None, 0);
    if b[3] == ATYPE_IPV4 then
      if |b| < 10 then Truncated else Ok(x.(ipv4 := U32(b, 4), port := U16(b, 8)), 10)
    else if b[3] == ATYPE_IPV6 then
      if |b| < 22 then Truncated else Ok(x.(ipv6 := b[4..20], port := U16(b, 20)), 22)
    else if b[3] == ATYPE_DOMAINNAME then
      match ParseDomain(b[4..])
      case Invalid => Invalid
      case Truncated => Truncated
      case Ok(d, n) => if |b| < 6 + n then Truncated else Ok(x.(domain := Some(d), port := U16(b, 4 + n)), 6 + n)
    else Invalid
  }

  lemma DestExact(b: Bytes)
    requires ParseSocks5(b).Ok?
    ensures var x, n := ParseSocks5(b).value, ParseSocks5(b).used;
            Socks5Check(x) && 6 <= n <= |b| && DestAddr(x) == b[4..n - 2]
  {
    var x := ParseSocks5(b).value;
    hide U16, U32, Be32, EncDomain, ParseDomain;
    if x.atype == ATYPE_IPV4 { Be32U32(b, 4); }
    if x.atype == ATYPE_DOMAINNAME { DomainAt(b, 4); }
  }

  lemma DomainAt(b: Bytes, i: nat)
    requires i <= |b| && ParseDomain(b[i..]).Ok?
    ensures var d, n := ParseDomain(b[i..]).value, ParseDomain(b[i..]).used;
            DomainCheck(d) && i + n <= |b| && EncDomain(d) == b[i..i + n]
  {
    var n := ParseDomain(b[i..]).used;
    assert b[i..][1..n] == b[i + 1..i + n];
    assert b[i..i + n] == [b[i]] + b[i + 1..i + n];
  }

  lemma Socks5Exact(b: Bytes)
    requires ParseSocks5(b).Ok?
    ensures IsPrefix(ParseSocks5(b).value, ParseSocks5(b).used, b, EncAnySocks5, Socks5Good, Socks5Canon)
  {
    var x, n := ParseSocks5(b).value, ParseSocks5(b).used;
    Be16U16(b, n - 2);
    DestExact(b);
    Parts(b, 4, n - 2, n);
    hide DestAddr, Be16, U16, U32, ParseDomain, EncDomain;
    assert b[..4] == [x.version, x.command, x.reserved, x.atype];
  }

  lemma Socks5RoundTrips(x: Socks5, c: Bytes)
    requires Socks5Good(x)
    ensures ParseSocks5(EncSocks5(x) + c) == Ok(Socks5Canon(x), |EncSocks5(x)|)
  {
    var b, head, addr := EncSocks5(x) + c, [x.version, x.command, x.reserved, x.atype], DestAddr(x);
    Joined(head, addr, Be16(x.port), c);
    var n := 4 + |addr|;
    assert b[..4] == head;
    assert b[0] == head[0] && b[1] == head[1] && b[2] == head[2] && b[3] == head[3];
    assert b[4..n] == addr;
    U16Be16(b, n, x.port);
    if x.atype == ATYPE_IPV4 {
      U32Be32(b, 4, x.ipv4);
    } else if x.atype == ATYPE_DOMAINNAME {
      assert b[4..] == addr + (Be16(x.port) + c);
      assert b[4..][1..1 + |x.domain.value.name|] == x.domain.value.name;
    }
  }

  lemma Socks5Codec()
    ensures Codec(ParseSocks5, EncAnySocks5, Socks5Good, Socks5Canon)
  {
    forall b: Bytes | ParseSocks5(b).Ok?
      ensures IsPrefix(ParseSocks5(b).value, ParseSocks5(b).used, b, EncAnySocks5, Socks5Good, Socks5Canon)
    {
      Socks5Exact(b);
    }
    forall x, c: Bytes | Socks5Good(x)
      ensures ParseSocks5(EncAnySocks5(x) + c) == Ok(Socks5Canon(x), |EncAnySocks5(x)|)
    {
      Socks5RoundTrips(x, c);
    }
    forall b: Bytes, c: Bytes | ParseSocks5(b).Invalid? ensures ParseSocks5(b + c).Invalid? {
    }
    IsCodec(ParseSocks5, EncAnySocks5, Socks5Good, Socks5Canon);
  }

  // ----- What stands where -----

  lemma DomainBytes(b: Bytes, r: int, x: Domain)
    requires Reports(r, x, ParseDomain(b))
    ensures r == -2 <==> |b| < 1 || Short(b, 1, b[0])
    ensures r == -2 || (r == 1 + One(b, 0) && x == Domain(false, b[0], b[1..r]))
  {
  }

  /** The commands of both versions: CONNECT is 1, BIND is 2, RESOLVE is 0xf0 and RESOLVE_PTR 0xf1. */
  predicate IsCommand(c: byte) { c in {1, 2, 0xf0, 0xf1} }

  /** The first zero byte from i on is at n. */
  predicate ZeroAt(b: Bytes, i: nat, n: nat) { i <= n < |b| && b[n] == 0 && 0 !in b[i..n] }

  /** A SOCKS4 request: 4, the command, port, address, and a user name that a zero byte ends. */
  lemma Socks4Bytes(b: Bytes, r: int, x: Socks4, n: nat)
    requires Reports(r, x, ParseSocks4(b)) && |b| >= 8 && ZeroAt(b, 8, n)
    ensures r == -1 <==> b[0] != 4 || !IsCommand(b[1])
    ensures r >= 0 ==> !x.err && x.version == 4 && x.command == b[1] && x.port == Two(b, 2) && x.addr == Four(b, 4)
    ensures r >= 0 ==> x.username == Some(b[8..n])
    ensures r != -1 && !(1 <= Four(b, 4) <= 255) ==> r == n + 1 && x.hostname == None
    ensures r != -1 && 1 <= Four(b, 4) <= 255 ==> (r == -2 <==> 0 !in b[n + 1..])
  {
    Fours(b, 4);
    NulIs(b, 8, n);
  }

  /** Of a SOCKS4 request that has not ended, a wrong version or command is noticed as soon as it is there. */
  lemma Socks4Short(b: Bytes, r: int, x: Socks4)
    requires Reports(r, x, ParseSocks4(b)) && (|b| < 8 || 0 !in b[8..])
    ensures r == if (|b| > 0 && b[0] != 4) || (|b| > 1 && !IsCommand(b[1])) then -1 else -2
  {
  }

  /** With an address 0.0.0.x, where x is not 0, a host name follows, which a zero byte ends. */
  lemma Socks4aBytes(b: Bytes, r: int, x: Socks4, n: nat, h: nat)
    requires Reports(r, x, ParseSocks4(b)) && |b| >= 8 && ZeroAt(b, 8, n) && ZeroAt(b, n + 1, h)
    requires b[0] == 4 && IsCommand(b[1]) && b[4..7] == [0, 0, 0] && b[7] != 0
    ensures r == h + 1 && x.username == Some(b[8..n]) && x.hostname == Some(b[n + 1..h])
  {
    Fours(b, 4);
    assert b[4] == b[4..7][0] && b[5] == b[4..7][1] && b[6] == b[4..7][2];
    NulIs(b, 8, n);
    NulIs(b, n + 1, h);
  }

  /** A SOCKS5 request: 5, the command, a zero byte, and an address, of type 1 for IPv4, 3 for a name and 4 for IPv6,
      with the port behind it. UDP ASSOCIATE is command 3. */
  lemma Socks5Bytes(b: Bytes, r: int, x: Socks5)
    requires Reports(r, x, ParseSocks5(b)) && |b| >= 5
    ensures r == -1 <==> b[0] != 5 || !(IsCommand(b[1]) || b[1] == 3) || b[2] != 0 || b[3] !in {1, 3, 4}
    ensures var end := if b[3] == 1 then 8 else if b[3] == 4 then 20 else 5 + One(b, 4) as nat;
            && (r != -1 ==> (r == -2 <==> |b| < end + 2))
            && (r >= 0 ==>
                && r == end + 2 && !x.err && x.version == 5 && x.command == b[1] && x.reserved == 0 && x.atype == b[3]
                && x.port == Two(b, end)
                && (if b[3] == 1 then x.ipv4 == Four(b, 4) else x.ipv4 == 0)
                && (if b[3] == 4 then x.ipv6 == b[4..20] else AllZero(x.ipv6, 16))
                && x.domain == if b[3] == 3 then Some(Domain(false, b[4], b[5..end])) else None)
  {
    if |b| >= 8 { Fours(b, 4); }
    var n: nat := b[4];
    if b[3] == 3 && |b| >= 5 + n { assert b[4..][1..1 + n] == b[5..5 + n]; }
  }

  /** Of a SOCKS5 request that has not got as far as its address, a wrong byte is noticed as soon as it is there. */
  lemma Socks5Short(b: Bytes, r: int, x: Socks5)
    requires Reports(r, x, ParseSocks5(b)) && |b| < 5
    ensures r == if (|b| > 0 && b[0] != 5) || (|b| > 1 && !(IsCommand(b[1]) || b[1] == 3)) || (|b| > 2 && b[2] != 0)
                    || (|b| > 3 && b[3] !in {1, 3, 4}) then -1 else -2
  {
  }
}
