/** The encoders and parsers of src/trunnel/ed25519_cert.c for certificates. */
module CertCodecs {
  import opened Wire
  import opened Buffers
  import opened CertFormat

  /** ed25519_cert_extension_encoded_len */
  method ExtEncodedLen(x: Ext) returns (result: int)
    requires ExtShaped(x)
    ensures result == if ExtCheck(x) then |EncExt(x)| else -1
  {
    if !ExtCheck(x) {
      return -1;
    }
    result := 2 + 1 + 1;
    if x.kind == CERTEXT_SIGNED_WITH_KEY {
      result := result + 32;
    } else {
      result := result + |x.unparsed|;
    }
  }

  /** ed25519_cert_extension_encode */
  method EncodeExt(output: array<byte>, base: nat, avail: nat, x: Ext) returns (result: int)
    requires base + avail <= output.Length && ExtShaped(x)
    modifies output
    ensures Written(old(output[..]), output[..], base, avail, result, ExtCheck(x), ExtFits(x), EncExt(x))
  {
    hide Holds, Inside, Written, Be16;
    var w := new Writer(output, base, avail);
    if !ExtCheck(x) {
      w.Stop(-1, false, ExtFits(x), EncExt(x));
      return -1;
    }
    var backptr := w.written;
    var ok := w.Field(Be16(x.length));
    if ok { ok := w.Field([x.kind]); }
    if ok { ok := w.Field([x.flags]); }
    if !ok {
      w.Stop(-2, true, ExtFits(x), EncExt(x));
      return -2;
    }
    var before := w.written;
    if x.kind == CERTEXT_SIGNED_WITH_KEY {
      ok := w.Field(x.signingKey);
    } else {
      ok := w.Field(x.unparsed);
    }
    if !ok {
      w.Stop(-2, true, ExtFits(x), EncExt(x));
      return -2;
    }
    if w.written - before > 0xFFFF {
      w.Stop(-1, true, ExtFits(x), EncExt(x));
      return -1;
    }
    w.Back(backptr, Be16(w.written - before));
    assert w.done == EncExt(x);
    result := w.written;
    w.Stop(result, true, ExtFits(x), EncExt(x));
  }

  /** ed25519_cert_extension_parse_into */
  method ParseExtInto(input: Bytes) returns (result: int, obj: Ext)
    ensures Reports(result, obj, ParseExt(input))
  {
    var ptr, remaining := 0, |input|;
    obj := Ext(false, 0, 0, 0, Zeros(32), []);
    if remaining < 2 {
      return -2, obj;
    }
    obj := obj.(length := U16(input, ptr));
    remaining, ptr := remaining - 2, ptr + 2;
    if remaining < 1 {
      return -2, obj;
    }
    obj := obj.(kind := input[ptr]);
    remaining, ptr := remaining - 1, ptr + 1;
    if remaining < 1 {
      return -2, obj;
    }
    obj := obj.(flags := input[ptr]);
    remaining, ptr := remaining - 1, ptr + 1;
    if remaining < obj.length {
      return -2, obj;
    }
    var after := remaining - obj.length;
    remaining := obj.length;
    if obj.kind == CERTEXT_SIGNED_WITH_KEY {
      if remaining < 32 {
        return -1, obj;
      }
      obj := obj.(signingKey := input[ptr..ptr + 32]);
      remaining, ptr := remaining - 32, ptr + 32;
    } else {
      obj := obj.(unparsed := input[ptr..ptr + remaining]);
      remaining, ptr := 0, ptr + remaining;
    }
    if remaining != 0 {
      return -1, obj;
    }
    remaining := after;
    assert ptr + remaining == |input|;
    result := |input| - remaining;
  }

  /** ed25519_cert_encoded_len */
  method CertEncodedLen(x: Cert) returns (result: int)
    requires CertShaped(x)
    ensures result == if CertCheck(x) then |EncCert(x)| else -1
  {
    if !CertCheck(x) {
      return -1;
    }
    result := 1 + 1 + 4 + 1 + 32 + 1;
    var idx := 0;
    while idx < |x.ext|
      invariant idx <= |x.ext| && result + |EncMany(EncExt, x.ext[idx..])| == 40 + |EncMany(EncExt, x.ext)|
    {
      LengthStep(EncExt, x.ext, idx);
      var n := ExtEncodedLen(x.ext[idx]);
      result := result + n;
      idx := idx + 1;
    }
    result := result + 64;
  }

  /** ed25519_cert_encode, its loop over the extensions. */
  method EncodeExts(output: array<byte>, base: nat, avail: nat, ext: seq<Ext>) returns (result: int)
    requires base + avail <= output.Length
    requires forall i :: 0 <= i < |ext| ==> ExtCheck(ext[i]) && ExtShaped(ext[i])
    modifies output
    ensures Written(old(output[..]), output[..], base, avail, result, true, AllExtFit(ext), EncMany(EncExt, ext))
  {
    hide Holds, Inside, Written, EncExt, ExtFits, EncMany;
    var w := new Writer(output, base, avail);
    var idx := 0;
    EncManyNone(EncExt, ext);
    while idx < |ext|
      invariant idx <= |ext| && w.Valid() && w.avail == avail
      invariant w.done == EncMany(EncExt, ext[..idx]) && AllExtFit(ext[..idx])
    {
      ghost var before := output[..];
      EncManySplit(EncExt, ext, idx);
      result := EncodeExt(output, base + w.written, avail - w.written, ext[idx]);
      w.Take(result, before, ExtFits(ext[idx]), EncExt(ext[idx]),
                    AllExtFit(ext), EncMany(EncExt, ext));
      if result < 0 {
        return;
      }
      assert ext[..idx + 1] == ext[..idx] + [ext[idx]];
      idx := idx + 1;
    }
    assert ext[..idx] == ext;
    result := w.written;
    w.Stop(result, true, true, EncMany(EncExt, ext));
  }

  /** ed25519_cert_encode, up to the extensions. */
  method EncodeHead(w: Writer, x: Cert) returns (ok: bool)
    requires w.Valid()
    modifies w`written, w`done, w.output
    ensures w.Valid() && (ok <==> |EncHead(x)| <= old(w.avail - w.written))
    ensures ok ==> w.done == old(w.done) + EncHead(x)
  {
    hide Holds, Be32;
    ok := w.Field([x.version]);
    if ok { ok := w.Field([x.certType]); }
    if ok { ok := w.Field(Be32(x.expField)); }
    if ok { ok := w.Field([x.certKeyType]); }
    if ok { ok := w.Field(x.certifiedKey); }
    if ok { ok := w.Field([x.nExtensions]); }
  }

  /** ed25519_cert_encode */
  method EncodeCert(output: array<byte>, base: nat, avail: nat, x: Cert) returns (result: int)
    requires base + avail <= output.Length && CertShaped(x)
    modifies output
    ensures Written(old(output[..]), output[..], base, avail, result, CertCheck(x), CertFits(x), EncCert(x))
  {
    hide Holds, Inside, Written, EncExt, AllExtFit, EncMany, EncHead;
    var w := new Writer(output, base, avail);
    if !CertCheck(x) {
      w.Stop(-1, false, CertFits(x), EncCert(x));
      return -1;
    }
    var ok := EncodeHead(w, x);
    if !ok {
      w.Stop(-2, true, CertFits(x), EncCert(x));
      return -2;
    }
    ghost var before := output[..];
    result := EncodeExts(output, base + w.written, avail - w.written, x.ext);
    w.Take(result, before, AllExtFit(x.ext), EncMany(EncExt, x.ext),
                  CertFits(x), EncCert(x));
    if result < 0 {
      return;
    }
    ok := w.Field(x.signature);
    if !ok {
      w.Stop(-2, true, CertFits(x), EncCert(x));
      return -2;
    }
    assert w.done == EncCert(x);
    result := w.written;
    w.Stop(result, true, CertFits(x), EncCert(x));
  }

  /** ed25519_cert_parse_into */
  method ParseCertInto(input: Bytes) returns (result: int, obj: Cert)
    ensures Reports(result, obj, ParseCert(input))
  {
    var ptr, remaining := 0, |input|;
    obj := Cert(false, 0, 0, 0, 0, Zeros(32), 0, [], Zeros(64));
    if remaining < 1 {
      return -2, obj;
    }
    obj := obj.(version := input[ptr]);
    remaining, ptr := remaining - 1, ptr + 1;
    if obj.version != 1 {
      return -1, obj;
    }
    if remaining < 1 {
      return -2, obj;
    }
    obj := obj.(certType := input[ptr]);
    remaining, ptr := remaining - 1, ptr + 1;
    if remaining < 4 {
      return -2, obj;
    }
    obj := obj.(expField := U32(input, ptr));
    remaining, ptr := remaining - 4, ptr + 4;
    if remaining < 1 {
      return -2, obj;
    }
    obj := obj.(certKeyType := input[ptr]);
    remaining, ptr := remaining - 1, ptr + 1;
    if remaining < 32 {
      return -2, obj;
    }
    obj := obj.(certifiedKey := input[ptr..ptr + 32]);
    remaining, ptr := remaining - 32, ptr + 32;
    if remaining < 1 {
      return -2, obj;
    }
    obj := obj.(nExtensions := input[ptr]);
    remaining, ptr := remaining - 1, ptr + 1;
    var ext;
    result, ext := ParseExtsInto(input[ptr..], obj.nExtensions);
    if result < 0 {
      return;
    }
    obj := obj.(ext := ext);
    remaining, ptr := remaining - result, ptr + result;
    if remaining < 64 {
      return -2, obj;
    }
    obj := obj.(signature := input[ptr..ptr + 64]);
    remaining, ptr := remaining - 64, ptr + 64;
    assert ptr + remaining == |input|;
    result := |input| - remaining;
  }

  /** ed25519_cert_parse_into, its loop over the extensions. */
  method ParseExtsInto(input: Bytes, n: nat) returns (result: int, ext: seq<Ext>)
    ensures Reports(result, ext, ParseMany(ParseExt, input, n)) && result <= |input|
  {
    ext := [];
    var ptr, remaining, idx := 0, |input|, 0;
    hide ParseExt, ParseMany, Codec, Steady, Prefixed, EncExt, ExtGood, ExtCanon;
    ExtCodec();
    CodecSteady(ParseExt, EncExt, ExtGood, ExtCanon);
    ManyStart(ParseExt, input, n);
    while idx < n
      invariant idx <= n && ptr + remaining == |input| && remaining >= 0
      invariant Prefixed(ext, ptr, ParseMany(ParseExt, input[ptr..], n - idx), ParseMany(ParseExt, input, n))
    {
      ManyNext(ParseExt, input, ptr, n - idx, ext, ParseMany(ParseExt, input, n));
      var elt;
      result, elt := ParseExtInto(input[ptr..]);
      if result < 0 {
        return;
      }
      remaining, ptr := remaining - result, ptr + result;
      ext := ext + [elt];
      idx := idx + 1;
    }
    result := |input| - remaining;
    ManyDone(ParseExt, input[ptr..], ext, ptr, ParseMany(ParseExt, input, n));
  }
}
