/** Certificates and their extensions as bytes: section 2.1 of Tor's cert-spec. */
module CertFormat {
  import opened Wire

  const CERTEXT_SIGNED_WITH_KEY: byte := 4

  // ----- ed25519_cert_extension -----

  datatype Ext = Ext(err: bool, length: u16, kind: byte, flags: byte, signingKey: Bytes, unparsed: Bytes)

  /** The member of the union that the type selects. */
  function ExtBody(x: Ext): Bytes {
    if x.kind == CERTEXT_SIGNED_WITH_KEY then x.signingKey else x.unparsed
  }

  function EncExt(x: Ext): Bytes { Be16(|ExtBody(x)|) + [x.kind, x.flags] + ExtBody(x) }

  /** ed25519_cert_extension_check, of an object whose arrays have their sizes. */
  predicate ExtCheck(x: Ext) { !x.err }

  /** Its body fits the length field. */
  predicate ExtFits(x: Ext) { |ExtBody(x)| < 0x1_0000 }

  predicate ExtShaped(x: Ext) { |x.signingKey| == 32 }

  ghost predicate ExtGood(x: Ext) { ExtCheck(x) && ExtFits(x) && ExtShaped(x) }

  /** With the length field the encoder writes, and without what the type does not select. */
  ghost function ExtCanon(x: Ext): Ext {
    Ext(false, if ExtFits(x) then |ExtBody(x)| else 0, x.kind, x.flags,
        if x.kind == CERTEXT_SIGNED_WITH_KEY then x.signingKey else Zeros(32),
        if x.kind == CERTEXT_SIGNED_WITH_KEY then [] else x.unparsed)
  }

  function ParseExt(b: Bytes): Parsed<Ext> {
    if |b| < 4 then Truncated else
    var n := U16(b, 0);
    if |b| < 4 + n then Truncated else
    if b[2] != CERTEXT_SIGNED_WITH_KEY then Ok(Ext(false, n, b[2], b[3], Zeros(32), b[4..4 + n]), 4 + n) else
    if n != 32 then Invalid else Ok(Ext(false, n, b[2], b[3], b[4..4 + n], []), 4 + n)
  }

  lemma ExtCodec()
    ensures Codec(ParseExt, EncExt, ExtGood, ExtCanon)
  {
    forall b: Bytes | ParseExt(b).Ok? ensures IsPrefix(ParseExt(b).value, ParseExt(b).used, b, EncExt, ExtGood, ExtCanon) {
      Be16U16(b, 0);
      assert EncExt(ParseExt(b).value) == b[..ParseExt(b).used];
    }
    forall x, c: Bytes | ExtGood(x) ensures ParseExt(EncExt(x) + c) == Ok(ExtCanon(x), |EncExt(x)|) {
      var b := EncExt(x) + c;
      assert b[0..2] == Be16(|ExtBody(x)|) && b[2] == x.kind && b[3] == x.flags;
      U16Be16(b, 0, |ExtBody(x)|);
      assert b[4..4 + |ExtBody(x)|] == ExtBody(x);
    }
    forall b, c | ParseExt(b).Invalid? ensures ParseExt(b + c).Invalid? {
    }
  }

  // ----- ed25519_cert -----

  datatype Cert = Cert(err: bool, version: byte, certType: byte, expField: u32, certKeyType: byte,
                       certifiedKey: Bytes, nExtensions: byte, ext: seq<Ext>, signature: Bytes)

  /** What stands before the extensions. */
  function EncHead(x: Cert): Bytes {
    [x.version, x.certType] + Be32(x.expField) + [x.certKeyType] + x.certifiedKey + [x.nExtensions]
  }

  function EncCert(x: Cert): Bytes { EncHead(x) + EncMany(EncExt, x.ext) + x.signature }

  /** ed25519_cert_check */
  predicate CertCheck(x: Cert) {
    && !x.err && x.version == 1 && (forall i :: 0 <= i < |x.ext| ==> ExtCheck(x.ext[i]))
    && |x.ext| == x.nExtensions
  }

  predicate AllExtFit(ext: seq<Ext>) { forall i :: 0 <= i < |ext| ==> ExtFits(ext[i]) }

  predicate CertFits(x: Cert) { AllExtFit(x.ext) }

  predicate CertShaped(x: Cert) {
    |x.certifiedKey| == 32 && |x.signature| == 64 && forall i :: 0 <= i < |x.ext| ==> ExtShaped(x.ext[i])
  }

  ghost predicate CertGood(x: Cert) { CertCheck(x) && CertFits(x) && CertShaped(x) }

  ghost function CertCanon(x: Cert): Cert { x.(ext := Canons(ExtCanon, x.ext)) }

  function ParseCert(b: Bytes): Parsed<Cert> {
    if |b| < 1 then Truncated else
    if b[0] != 1 then Invalid else
    if |b| < 40 then Truncated else
    match ParseMany(ParseExt, b[40..], b[39])
    case Invalid => Invalid
    case Truncated => Truncated
    case Ok(ext, n) =>
      if |b| < 104 + n then Truncated else
      Ok(Cert(false, b[0], b[1], U32(b, 2), b[6], b[7..39], b[39], ext, b[40 + n..104 + n]), 104 + n)
  }

  lemma CertCodec()
    ensures Codec(ParseCert, EncCert, CertGood, CertCanon)
  {
    forall b: Bytes | ParseCert(b).Ok?
      ensures IsPrefix(ParseCert(b).value, ParseCert(b).used, b, EncCert, CertGood, CertCanon)
    {
      CertExact(b);
    }
    forall x, c: Bytes | CertGood(x) ensures ParseCert(EncCert(x) + c) == Ok(CertCanon(x), |EncCert(x)|) {
      CertRoundTrips(x, c);
    }
    forall b: Bytes, c: Bytes | ParseCert(b).Invalid? ensures ParseCert(b + c).Invalid? {
      if b[0] == 1 {
        ExtCodec();
        CodecSteady(ParseExt, EncExt, ExtGood, ExtCanon);
        ManySteady(ParseExt, b[40..], c, b[39]);
        assert (b + c)[40..] == b[40..] + c;
      }
    }
  }

  lemma HeadExact(b: Bytes, x: Cert)
    requires |b| >= 40 && x.version == b[0] && x.certType == b[1] && x.expField == U32(b, 2) && x.certKeyType == b[6]
    requires x.certifiedKey == b[7..39] && x.nExtensions == b[39]
    ensures EncHead(x) == b[..40]
  {
    Be32U32(b, 2);
  }

  lemma HeadRoundTrips(b: Bytes, x: Cert)
    requires |x.certifiedKey| == 32 && |b| >= 40 && b[..40] == EncHead(x)
    ensures b[0] == x.version && b[1] == x.certType && U32(b, 2) == x.expField && b[6] == x.certKeyType
    ensures b[7..39] == x.certifiedKey && b[39] == x.nExtensions
  {
    var h := b[..40];
    assert b[2..6] == h[2..6] == Be32(x.expField);
    U32Be32(b, 2, x.expField);
    assert b[7..39] == h[7..39] == x.certifiedKey;
    assert b[0] == h[0] && b[1] == h[1] && b[6] == h[6] && b[39] == h[39];
  }

  lemma CertExact(b: Bytes)
    requires ParseCert(b).Ok?
    ensures IsPrefix(ParseCert(b).value, ParseCert(b).used, b, EncCert, CertGood, CertCanon)
  {
    hide Exact, RoundTrips, Firm, EncHead, EncMany, ParseMany, EncExt, ParseExt, ExtCanon, U32;
    ExtCodec();
    ManyExact(ParseExt, EncExt, ExtGood, ExtCanon, b[40..], b[39]);
    var x, n := ParseCert(b).value, ParseMany(ParseExt, b[40..], b[39]).used;
    HeadExact(b, x);
    Parts(b, 40, 40 + n, 104 + n);
    assert b[40..][..n] == b[40..40 + n];
    forall i | 0 <= i < |x.ext| ensures ExtCheck(x.ext[i]) && ExtFits(x.ext[i]) && ExtShaped(x.ext[i]) {
      assert ExtGood(x.ext[i]);
    }
  }

  lemma CertRoundTrips(x: Cert, c: Bytes)
    requires CertGood(x)
    ensures ParseCert(EncCert(x) + c) == Ok(CertCanon(x), |EncCert(x)|)
  {
    hide Exact, RoundTrips, Firm, EncMany, ParseMany, EncExt, ParseExt, ExtCanon, U32;
    ExtCodec();
    var b, many := EncCert(x) + c, EncMany(EncExt, x.ext);
    assert AllGood(ExtGood, x.ext);
    ManyRoundTrips(ParseExt, EncExt, ExtGood, ExtCanon, x.ext, x.signature + c);
    assert |EncHead(x)| == 40;
    Joined(EncHead(x), many, x.signature, c);
    HeadRoundTrips(b, x);
  }

  // ----- What stands where -----

  /** An extension of type 4 holds a signing key of 32 bytes; one of another type holds whatever its length says. */
  lemma ExtBytes(b: Bytes, r: int, x: Ext)
    requires Reports(r, x, ParseExt(b))
    ensures r == -2 <==> |b| < 4 || Short(b, 4, Two(b, 0))
    ensures r == -1 <==> |b| >= 4 && !Short(b, 4, Two(b, 0)) && b[2] == 4 && b[..2] != [0, 32]
    ensures r >= 0 ==> r == 4 + Two(b, 0) && !x.err && x.length == Two(b, 0) && x.kind == b[2] && x.flags == b[3]
    ensures r >= 0 && b[2] == 4 ==> r == 36 && x.signingKey == b[4..36] && x.unparsed == []
    ensures r >= 0 && b[2] != 4 ==> AllZero(x.signingKey, 32) && x.unparsed == b[4..4 + Two(b, 0)]
  {
    if |b| >= 4 { assert b[..2] == [b[0], b[1]]; }
  }

  /** A certificate starts with version 1; without extensions it has 104 bytes. */
  lemma CertBytes(b: Bytes, r: int, x: Cert)
    requires Reports(r, x, ParseCert(b))
    ensures |b| > 0 && b[0] != 1 ==> r == -1
    ensures |b| == 0 || (b[0] == 1 && |b| < 40) ==> r == -2
    ensures r >= 0 ==>
      && 104 <= r <= |b| && !x.err && x.version == b[0] == 1 && x.certType == b[1] && x.expField == Four(b, 2)
      && x.certKeyType == b[6] && x.certifiedKey == b[7..39] && |x.ext| == x.nExtensions == b[39]
      && x.signature == b[r - 64..r]
  {
    hide Exact, RoundTrips, Firm, ParseMany, EncMany, Canons;
    if |b| >= 40 && b[0] == 1 {
      Fours(b, 2);
      ExtCodec();
      if ParseMany(ParseExt, b[40..], b[39]).Ok? {
        ManyExact(ParseExt, EncExt, ExtGood, ExtCanon, b[40..], b[39]);
      }
    }
  }

  lemma PlainCertBytes(b: Bytes, r: int, x: Cert)
    requires Reports(r, x, ParseCert(b)) && |b| >= 104 && b[0] == 1 && b[39] == 0
    ensures r == 104 && x.ext == [] && x.signature == b[40..104]
  {
  }

  /** A certificate with the signing key as its one extension has 140 bytes. */
  lemma KeyedCertBytes(b: Bytes, r: int, x: Cert)
    requires Reports(r, x, ParseCert(b)) && |b| >= 140 && b[0] == 1 && b[39] == 1 && b[40..43] == [0, 32, 4]
    ensures r == 140 && |x.ext| == 1 && x.ext[0].signingKey == b[44..76] && x.ext[0].flags == b[43]
    ensures x.signature == b[76..140]
  {
    assert b[40] == b[40..43][0] && b[41] == b[40..43][1] && b[42] == b[40..43][2];
    var c := b[40..];
    assert ParseExt(c).Ok? && ParseExt(c).used == 36;
    ParseCons(ParseExt, c, 1, ParseExt(c).value, 36, [], 0);
    assert c[4..36] == b[44..76];
  }
}
