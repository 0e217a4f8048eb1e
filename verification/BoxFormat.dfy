/** Two formats whose variable field takes the rest of the input: the password-protected box, with a fixed tail
    behind it, and the body of an AUTHENTICATE cell, which depends on a context. */
module BoxFormat {
  import opened Wire

  // ----- pwbox_encoded -----

  const PWBOX0_CONST0: u32 := 1414484546
  const PWBOX0_CONST1: u32 := 1331179568

  datatype Box = Box(err: bool, fixed0: u32, fixed1: u32, headerLen: byte, header: Bytes, iv: Bytes, data: Bytes,
                     hmac: Bytes)

  function EncBoxHead(x: Box): Bytes {
    Be32(x.fixed0) + Be32(x.fixed1) + ([x.headerLen] + x.header + x.iv)
  }

  function EncBox(x: Box): Bytes { EncBoxHead(x) + x.data + x.hmac }

  /** pwbox_encoded_check */
  predicate BoxCheck(x: Box) {
    !x.err && x.fixed0 == PWBOX0_CONST0 && x.fixed1 == PWBOX0_CONST1 && |x.header| == x.headerLen
  }

  predicate BoxShaped(x: Box) { |x.iv| == 16 && |x.hmac| == 32 }

  function ParseBox(b: Bytes): Parsed<Box> {
    if |b| < 4 then Truncated else
    if U32(b, 0) != PWBOX0_CONST0 then Invalid else
    if |b| < 8 then Truncated else
    if U32(b, 4) != PWBOX0_CONST1 then Invalid else
    if |b| < 9 then Truncated else
    var h: nat := b[8];
    if |b| < 57 + h then Truncated else
    Ok(Box(false, PWBOX0_CONST0, PWBOX0_CONST1, b[8], b[9..9 + h], b[9 + h..25 + h], b[25 + h..|b| - 32], b[|b| - 32..]), |b|)
  }

  /** The whole input is the box; every byte that is not of another field is data. */
  lemma BoxExact(b: Bytes)
    requires ParseBox(b).Ok?
    ensures var x := ParseBox(b).value;
            && BoxCheck(x) && BoxShaped(x) && EncBox(x) == b && ParseBox(b).used == |b|
            && |x.data| == |b| - 57 - b[8] as nat
  {
    var x, h: nat := ParseBox(b).value, b[8];
    Be32U32(b, 0);
    Be32U32(b, 4);
    assert b[8..25 + h] == [b[8]] + b[9..9 + h] + b[9 + h..25 + h];
    assert EncBoxHead(x) == b[..25 + h] by { Parts(b, 4, 8, 25 + h); }
    Parts(b, 25 + h, |b| - 32, |b|);
  }

  lemma BoxRoundTrips(x: Box)
    requires BoxCheck(x) && BoxShaped(x)
    ensures ParseBox(EncBox(x)) == Ok(x, |EncBox(x)|)
  {
    var b, head := EncBox(x), EncBoxHead(x);
    var h: nat := x.headerLen;
    Joined(head, x.data, x.hmac, []);
    assert b + [] == b;
    HeadParts(x);
    hide EncBoxHead, Be32, U32;
    Within(b, 25 + h, 0, 4);
    Within(b, 25 + h, 4, 8);
    U32Be32(b, 0, x.fixed0);
    U32Be32(b, 4, x.fixed1);
    assert b[8] == head[8];
    Within(b, 25 + h, 9, 9 + h);
    Within(b, 25 + h, 9 + h, 25 + h);
  }

  lemma HeadParts(x: Box)
    requires BoxCheck(x) && BoxShaped(x)
    ensures var head, h: nat := EncBoxHead(x), x.headerLen;
            && |head| == 25 + h && head[0..4] == Be32(x.fixed0) && head[4..8] == Be32(x.fixed1) && head[8] == x.headerLen
            && head[9..9 + h] == x.header && head[9 + h..25 + h] == x.iv
  {
    hide Be32;
    var head, h: nat := EncBoxHead(x), x.headerLen;
    var front, rest := Be32(x.fixed0) + Be32(x.fixed1), [x.headerLen] + x.header + x.iv;
    assert head[..8] == front && head[8..] == rest;
    assert rest[1..1 + h] == x.header && rest[1 + h..] == x.iv;
    Sub(head, 8, 25 + h, 1, 1 + h);
    Sub(head, 8, 25 + h, 1 + h, 17 + h);
    assert head[8..25 + h] == rest;
  }

  /** A failure is final; a box with more input behind it is another box. */
  lemma BoxMore(b: Bytes, c: Bytes)
    ensures ParseBox(b).Invalid? ==> ParseBox(b + c).Invalid?
    ensures ParseBox(b).Ok? ==>
      && ParseBox(b + c).Ok? && ParseBox(b + c).value.data + ParseBox(b + c).value.hmac
                                == ParseBox(b).value.data + ParseBox(b).value.hmac + c
  {
    if ParseBox(b).Ok? {
      var h: nat := b[8];
      assert ParseBox(b).value.data + ParseBox(b).value.hmac == b[25 + h..];
      assert ParseBox(b + c).value.data + ParseBox(b + c).value.hmac == (b + c)[25 + h..];
    }
  }

  // ----- auth1 -----

  /** A position in the input, or none. */
  datatype Position = Null | At(offset: nat)

  datatype Auth1 = Auth1(err: bool, kind: Bytes, cid: Bytes, sid: Bytes, cidEd: Bytes, sidEd: Bytes, slog: Bytes,
                         clog: Bytes, scert: Bytes, tlssecrets: Bytes, endOfFixedPart: Position, rand: Bytes,
                         endOfSigned: Position, sig: Bytes)

  const NO_AUTH1: Auth1 := Auth1(false, Zeros(8), Zeros(32), Zeros(32), Zeros(32), Zeros(32), Zeros(32), Zeros(32),
                                 Zeros(32), Zeros(32), Null, Zeros(24), Null, [])

  /** The union whose tag is in the context. */
  function EncU1(x: Auth1, isEd: byte): Bytes { if isEd == 1 then x.cidEd + x.sidEd else [] }

  /** What precedes the random bytes. */
  function EncFixed(x: Auth1, isEd: byte): Bytes {
    x.kind + x.cid + x.sid + EncU1(x, isEd) + (x.slog + x.clog + x.scert + x.tlssecrets)
  }

  /** What the signature is over. */
  function EncSigned(x: Auth1, isEd: byte): Bytes { EncFixed(x, isEd) + x.rand }

  function EncAuth1(x: Auth1, isEd: byte): Bytes { EncSigned(x, isEd) + x.sig }

  /** auth1_check, of a context that is there. */
  predicate Auth1Check(x: Auth1, isEd: byte) { !x.err && (isEd == 0 || isEd == 1) }

  predicate Auth1Shaped(x: Auth1) {
    && |x.kind| == 8 && |x.cid| == |x.sid| == |x.cidEd| == |x.sidEd| == 32
    && |x.slog| == |x.clog| == |x.scert| == |x.tlssecrets| == 32 && |x.rand| == 24
  }

  function ParseAuth1(b: Bytes, isEd: byte): Parsed<Auth1> {
    if |b| < 72 then Truncated else
    if isEd != 0 && isEd != 1 then Invalid else
    var u := if isEd == 1 then 136 else 72;
    if |b| < u + 152 then Truncated else
    Ok(Auth1(false, b[..8], b[8..40], b[40..72], if isEd == 1 then b[72..104] else Zeros(32),
             if isEd == 1 then b[104..136] else Zeros(32), b[u..u + 32], b[u + 32..u + 64], b[u + 64..u + 96],
             b[u + 96..u + 128], At(u + 128), b[u + 128..u + 152], At(u + 152), b[u + 152..]), |b|)
  }

  /** The positions that the parser records, and no union members the context does not select. */
  function Auth1Canon(x: Auth1, isEd: byte): Auth1 {
    var u := if isEd == 1 then 136 else 72;
    x.(cidEd := if isEd == 1 then x.cidEd else Zeros(32), sidEd := if isEd == 1 then x.sidEd else Zeros(32),
       endOfFixedPart := At(u + 128), endOfSigned := At(u + 152))
  }

  lemma Auth1Exact(b: Bytes, isEd: byte)
    requires ParseAuth1(b, isEd).Ok?
    ensures var x := ParseAuth1(b, isEd).value;
            && Auth1Check(x, isEd) && Auth1Shaped(x) && Auth1Canon(x, isEd) == x
            && EncAuth1(x, isEd) == b && ParseAuth1(b, isEd).used == |b|
            && x.endOfFixedPart.At? && x.endOfSigned.At? && x.endOfFixedPart.offset < x.endOfSigned.offset <= |b|
            && b[..x.endOfFixedPart.offset] == EncFixed(x, isEd) && b[..x.endOfSigned.offset] == EncSigned(x, isEd)
            && b[x.endOfSigned.offset..] == x.sig
  {
    var x := ParseAuth1(b, isEd).value;
    var u := if isEd == 1 then 136 else 72;
    FixedExact(b, x, isEd, u);
    hide EncFixed;
    assert b[..u + 152] == b[..u + 128] + b[u + 128..u + 152];
    assert b == b[..u + 152] + b[u + 152..];
  }

  lemma FixedExact(b: Bytes, x: Auth1, isEd: byte, u: nat)
    requires isEd <= 1 && u == (if isEd == 1 then 136 else 72) && |b| >= u + 152
    requires x.kind == b[..8] && x.cid == b[8..40] && x.sid == b[40..72]
    requires isEd == 1 ==> x.cidEd == b[72..104] && x.sidEd == b[104..136]
    requires x.slog == b[u..u + 32] && x.clog == b[u + 32..u + 64] && x.scert == b[u + 64..u + 96]
    requires x.tlssecrets == b[u + 96..u + 128]
    ensures EncFixed(x, isEd) == b[..u + 128]
  {
    Parts(b, 8, 40, 72);
    FourParts(b, u, u + 32, u + 64, u + 96, u + 128);
    assert b[..u] == b[..72] + EncU1(x, isEd);
    assert b[..u + 128] == b[..u] + b[u..u + 128];
  }

  lemma Auth1RoundTrips(x: Auth1, isEd: byte)
    requires Auth1Check(x, isEd) && Auth1Shaped(x)
    ensures ParseAuth1(EncAuth1(x, isEd), isEd) == Ok(Auth1Canon(x, isEd), |EncAuth1(x, isEd)|)
  {
    var b := EncAuth1(x, isEd);
    var u := if isEd == 1 then 136 else 72;
    var fixed, tail := EncFixed(x, isEd), x.slog + x.clog + x.scert + x.tlssecrets;
    assert |EncU1(x, isEd)| == u - 72 && |fixed| == u + 128;
    assert b[u + 152..] == x.sig && b[u + 128..u + 152] == x.rand && b[..u + 128] == fixed;
    assert fixed[..8] == x.kind && fixed[8..40] == x.cid && fixed[40..72] == x.sid && fixed[72..u] == EncU1(x, isEd);
    assert fixed[u..] == tail;
    assert tail[..32] == x.slog && tail[32..64] == x.clog && tail[64..96] == x.scert && tail[96..] == x.tlssecrets;
    Within(b, u + 128, 0, 8);
    Within(b, u + 128, 8, 40);
    Within(b, u + 128, 40, 72);
    Within(b, u + 128, 72, u);
    Within(b, u + 128, u, u + 128);
    Sub(b, u, u + 128, 0, 32);
    Sub(b, u, u + 128, 32, 64);
    Sub(b, u, u + 128, 64, 96);
    Sub(b, u, u + 128, 96, 128);
    if isEd == 1 {
      assert EncU1(x, isEd)[..32] == x.cidEd && EncU1(x, isEd)[32..] == x.sidEd;
      Sub(b, 72, 136, 0, 32);
      Sub(b, 72, 136, 32, 64);
    }
  }

  lemma Within(b: Bytes, n: nat, i: nat, j: nat)
    requires i <= j <= n <= |b|
    ensures b[..n][i..j] == b[i..j]
  {
  }

  // ----- What stands where -----

  /** A box starts with the letters TORBOX00 and the length of its header; the last 32 bytes are the MAC. */
  lemma BoxBytes(b: Bytes, r: int, x: Box)
    requires Reports(r, x, ParseBox(b))
    ensures |b| >= 8 ==> (r == -1 <==> b[..8] != [0x54, 0x4f, 0x52, 0x42, 0x4f, 0x58, 0x30, 0x30])
    ensures |b| >= 9 && r != -1 ==> (r == -2 <==> Short(b, 57, b[8]))
    ensures r >= 0 ==>
      && r == |b| >= 57 + One(b, 8) && !x.err && x.headerLen == b[8] && x.header == b[9..9 + One(b, 8)]
      && x.iv == b[9 + One(b, 8)..25 + One(b, 8)] && x.data == b[25 + One(b, 8)..r - 32] && x.hmac == b[r - 32..r]
  {
    if |b| >= 8 {
      Fours(b, 0);
      Fours(b, 4);
      Letters(b, 0, [0x54, 0x4f, 0x52, 0x42]);
      Letters(b, 4, [0x4f, 0x58, 0x30, 0x30]);
      assert b[..8] == b[0..4] + b[4..8];
      assert [0x54, 0x4f, 0x52, 0x42] + [0x4f, 0x58, 0x30, 0x30] == [0x54, 0x4f, 0x52, 0x42, 0x4f, 0x58, 0x30, 0x30];
    }
  }

  lemma Letters(b: Bytes, i: nat, c: Bytes)
    requires i + 4 <= |b| && |c| == 4
    ensures Four(b, i) == Four(c, 0) <==> b[i..i + 4] == c
  {
    SameTwo(b[i], b[i + 1], c[0], c[1]);
    SameTwo(b[i + 2], b[i + 3], c[2], c[3]);
    assert Four(b, i) == Two(b, i) * 0x1_0000 + Two(b, i + 2) && Four(c, 0) == Two(c, 0) * 0x1_0000 + Two(c, 2);
    assert b[i..i + 4] == [b[i], b[i + 1], b[i + 2], b[i + 3]] && c == [c[0], c[1], c[2], c[3]];
  }

  lemma SameTwo(a: int, b: int, c: int, d: int)
    requires 0 <= b < 0x100 && 0 <= d < 0x100
    ensures a * 0x100 + b == c * 0x100 + d <==> a == c && b == d
  {
  }

  /** The fields of the body, without and with the two Ed25519 identities between the RSA ones and the logs. */
  lemma Auth1Bytes(b: Bytes, isEd: byte, r: int, x: Auth1)
    requires Reports(r, x, ParseAuth1(b, isEd)) && isEd <= 1
    ensures var u := if isEd == 1 then 136 else 72;
            && (r == -2 <==> |b| < u + 152) && r != -1
            && (r >= 0 ==>
                && r == |b| && !x.err && x.kind == b[..8] && x.cid == b[8..40] && x.sid == b[40..72]
                && (isEd == 1 ==> x.cidEd == b[72..104] && x.sidEd == b[104..136])
                && x.slog == b[u..u + 32] && x.clog == b[u + 32..u + 64] && x.scert == b[u + 64..u + 96]
                && x.tlssecrets == b[u + 96..u + 128] && x.rand == b[u + 128..u + 152] && x.sig == b[u + 152..])
  {
  }

  lemma Auth1WrongContext(b: Bytes, isEd: byte, r: int, x: Auth1)
    requires Reports(r, x, ParseAuth1(b, isEd)) && isEd > 1
    ensures r == if |b| < 72 then -2 else -1
  {
  }
}
