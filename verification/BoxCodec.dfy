/** The encoders and parsers of src/trunnel/pwbox.c and of auth1 in src/trunnel/link_handshake.c. */
module BoxCodecs {
  import opened Wire
  import opened Buffers
  import opened BoxFormat

  /** pwbox_encoded_encoded_len */
  method BoxEncodedLen(x: Box) returns (result: int)
    requires BoxShaped(x)
    ensures result == if BoxCheck(x) then |EncBox(x)| else -1
  {
    if !BoxCheck(x) {
      return -1;
    }
    result := 4 + 4 + 1;
    result := result + |x.header|;
    result := result + 16;
    result := result + |x.data|;
    result := result + 32;
  }

  /** pwbox_encoded_encode. After the first check no other one fails: it is -1 just if pwbox_encoded_check fails. */
  method EncodeBoxTo(output: array<byte>, base: nat, avail: nat, x: Box) returns (result: int)
    requires base + avail <= output.Length && BoxShaped(x)
    modifies output
    ensures Written(old(output[..]), output[..], base, avail, result, BoxCheck(x), true, EncBox(x))
  {
    hide Holds, Inside, Written, Be32;
    var w := new Writer(output, base, avail);
    var enforceAvail := false;
    if !BoxCheck(x) {
      w.Stop(-1, false, true, EncBox(x));
      return -1;
    }
    var ok := EncodeBoxHead(w, x);
    if ok { ok := w.Field(x.data); }
    if !ok || w.avail - w.written < 32 {
      w.Stop(-2, true, true, EncBox(x));
      return -2;
    }
    w.Shrink(w.written + 32);
    enforceAvail := true;
    if w.avail - w.written < 32 {
      assert false;
    }
    ok := w.Field(x.hmac);
    if enforceAvail && w.avail != w.written {
      assert false;
    }
    assert w.done == EncBox(x);
    result := w.written;
    w.StopShort(result, avail, EncBox(x));
  }

  /** pwbox_encoded_encode, up to the data. */
  method EncodeBoxHead(w: Writer, x: Box) returns (ok: bool)
    requires w.Valid() && BoxCheck(x) && BoxShaped(x)
    modifies w`written, w`done, w.output
    ensures w.Valid() && (ok <==> |EncBoxHead(x)| <= old(w.avail - w.written))
    ensures ok ==> w.done == old(w.done) + EncBoxHead(x)
  {
    hide Holds, Be32;
    ok := w.Field(Be32(x.fixed0));
    if ok { ok := w.Field(Be32(x.fixed1)); }
    if ok { ok := w.Field([x.headerLen]); }
    if ok { ok := w.Field(x.header); }
    if ok { ok := w.Field(x.iv); }
  }

  /** pwbox_encoded_parse_into */
  method ParseBoxInto(input: Bytes) returns (result: int, obj: Box)
    ensures Reports(result, obj, ParseBox(input))
  {
    hide U32;
    var ptr, remaining: nat := 0, |input|;
    obj := Box(false, 0, 0, 0, [], Zeros(16), [], Zeros(32));
    if remaining < 4 {
      return -2, obj;
    }
    obj := obj.(fixed0 := U32(input, ptr));
    remaining, ptr := remaining - 4, ptr + 4;
    if obj.fixed0 != PWBOX0_CONST0 {
      return -1, obj;
    }
    if remaining < 4 {
      return -2, obj;
    }
    obj := obj.(fixed1 := U32(input, ptr));
    remaining, ptr := remaining - 4, ptr + 4;
    if obj.fixed1 != PWBOX0_CONST1 {
      return -1, obj;
    }
    if remaining < 1 {
      return -2, obj;
    }
    obj := obj.(headerLen := input[ptr]);
    remaining, ptr := remaining - 1, ptr + 1;
    if remaining < obj.headerLen {
      return -2, obj;
    }
    obj := obj.(header := input[ptr..ptr + obj.headerLen]);
    ptr, remaining := ptr + obj.headerLen, remaining - obj.headerLen;
    if remaining < 16 {
      return -2, obj;
    }
    obj := obj.(iv := input[ptr..ptr + 16]);
    remaining, ptr := remaining - 16, ptr + 16;
    if remaining < 32 {
      return -2, obj;
    }
    var after := 32;
    remaining := remaining - 32;
    obj := obj.(data := input[ptr..ptr + remaining]);
    ptr, remaining := ptr + remaining, 0;
    if remaining != 0 {
      assert false;
    }
    remaining := after;
    if remaining < 32 {
      assert false;
    }
    assert input[ptr..ptr + 32] == input[|input| - 32..];
    obj := obj.(hmac := input[ptr..ptr + 32]);
    remaining, ptr := remaining - 32, ptr + 32;
    assert ptr + remaining == |input|;
    result := |input| - remaining;
  }

  /** auth1_encoded_len; the context may be missing. */
  method Auth1EncodedLen(x: Auth1, isEd: byte, ctx: bool) returns (result: int)
    requires Auth1Shaped(x)
    ensures result == if ctx && Auth1Check(x, isEd) then |EncAuth1(x, isEd)| else -1
  {
    if !ctx || !Auth1Check(x, isEd) {
      return -1;
    }
    result := 8 + 32 + 32;
    if isEd == 0 {
    } else if isEd == 1 {
      result := result + 32 + 32;
    } else {
      assert false;
    }
    result := result + 32 + 32 + 32 + 32 + 24;
    result := result + |x.sig|;
  }

  /** auth1_encode; the context may be missing. */
  method EncodeAuth1To(output: array<byte>, base: nat, avail: nat, x: Auth1, isEd: byte, ctx: bool) returns (result: int)
    requires base + avail <= output.Length && Auth1Shaped(x)
    modifies output
    ensures Written(old(output[..]), output[..], base, avail, result, ctx && Auth1Check(x, isEd), true, EncAuth1(x, isEd))
  {
    hide Holds, Inside, Written, EncSigned;
    var w := new Writer(output, base, avail);
    if !ctx || !Auth1Check(x, isEd) {
      w.Stop(-1, false, true, EncAuth1(x, isEd));
      return -1;
    }
    var ok := EncodeSigned(w, x, isEd);
    if ok { ok := w.Field(x.sig); }
    if !ok {
      w.Stop(-2, true, true, EncAuth1(x, isEd));
      return -2;
    }
    assert w.done == EncAuth1(x, isEd);
    result := w.written;
    w.Stop(result, true, true, EncAuth1(x, isEd));
  }

  /** auth1_encode, up to the signature. */
  method EncodeSigned(w: Writer, x: Auth1, isEd: byte) returns (ok: bool)
    requires w.Valid() && Auth1Shaped(x) && (isEd == 0 || isEd == 1)
    modifies w`written, w`done, w.output
    ensures w.Valid() && (ok <==> |EncSigned(x, isEd)| <= old(w.avail - w.written))
    ensures ok ==> w.done == old(w.done) + EncSigned(x, isEd)
  {
    hide Holds, EncSigned;
    ok := EncodeFront(w, x, isEd);
    if ok { ok := EncodeTail(w, x); }
    SignedParts(old(w.done), x, isEd);
  }

  /** auth1_encode, up to the union. */
  method EncodeFront(w: Writer, x: Auth1, isEd: byte) returns (ok: bool)
    requires w.Valid() && Auth1Shaped(x) && (isEd == 0 || isEd == 1)
    modifies w`written, w`done, w.output
    ensures w.Valid() && (ok <==> 72 + |EncU1(x, isEd)| <= old(w.avail - w.written)) && w.avail == old(w.avail)
    ensures ok ==> w.done == old(w.done) + (x.kind + x.cid + x.sid + EncU1(x, isEd))
  {
    hide Holds;
    ok := w.Field(x.kind);
    if ok { ok := w.Field(x.cid); }
    if ok { ok := w.Field(x.sid); }
    if ok && isEd == 1 {
      ok := w.Field(x.cidEd);
      if ok { ok := w.Field(x.sidEd); }
    }
  }

  lemma SignedParts(done: Bytes, x: Auth1, isEd: byte)
    requires Auth1Shaped(x)
    ensures |EncSigned(x, isEd)| == 72 + |EncU1(x, isEd)| + 152
    ensures done + (x.kind + x.cid + x.sid + EncU1(x, isEd)) + (x.slog + x.clog + x.scert + x.tlssecrets) + x.rand
         == done + EncSigned(x, isEd)
  {
  }

  /** auth1_encode, from slog to rand. */
  method EncodeTail(w: Writer, x: Auth1) returns (ok: bool)
    requires w.Valid()
    modifies w`written, w`done, w.output
    ensures w.Valid() && (ok <==> |x.slog + x.clog + x.scert + x.tlssecrets + x.rand| <= old(w.avail - w.written))
    ensures ok ==> w.done == old(w.done) + (x.slog + x.clog + x.scert + x.tlssecrets) + x.rand
  {
    hide Holds;
    ok := w.Field(x.slog);
    if ok { ok := w.Field(x.clog); }
    if ok { ok := w.Field(x.scert); }
    if ok { ok := w.Field(x.tlssecrets); }
    if ok { ok := w.Field(x.rand); }
  }

  /** auth1_parse_into; the context may be missing. */
  method ParseAuth1Into(input: Bytes, isEd: byte, ctx: bool) returns (result: int, obj: Auth1)
    ensures if ctx then Reports(result, obj, ParseAuth1(input, isEd)) else result == -1
  {
    var ptr, remaining: nat := 0, |input|;
    obj := NO_AUTH1;
    if !ctx {
      return -1, obj;
    }
    if remaining < 8 {
      return -2, obj;
    }
    obj := obj.(kind := input[ptr..ptr + 8]);
    remaining, ptr := remaining - 8, ptr + 8;
    if remaining < 32 {
      return -2, obj;
    }
    obj := obj.(cid := input[ptr..ptr + 32]);
    remaining, ptr := remaining - 32, ptr + 32;
    if remaining < 32 {
      return -2, obj;
    }
    obj := obj.(sid := input[ptr..ptr + 32]);
    remaining, ptr := remaining - 32, ptr + 32;
    if isEd == 0 {
    } else if isEd == 1 {
      if remaining < 32 {
        return -2, obj;
      }
      obj := obj.(cidEd := input[ptr..ptr + 32]);
      remaining, ptr := remaining - 32, ptr + 32;
      if remaining < 32 {
        return -2, obj;
      }
      obj := obj.(sidEd := input[ptr..ptr + 32]);
      remaining, ptr := remaining - 32, ptr + 32;
    } else {
      return -1, obj;
    }
    if remaining < 32 {
      return -2, obj;
    }
    obj := obj.(slog := input[ptr..ptr + 32]);
    remaining, ptr := remaining - 32, ptr + 32;
    if remaining < 32 {
      return -2, obj;
    }
    obj := obj.(clog := input[ptr..ptr + 32]);
    remaining, ptr := remaining - 32, ptr + 32;
    if remaining < 32 {
      return -2, obj;
    }
    obj := obj.(scert := input[ptr..ptr + 32]);
    remaining, ptr := remaining - 32, ptr + 32;
    if remaining < 32 {
      return -2, obj;
    }
    obj := obj.(tlssecrets := input[ptr..ptr + 32]);
    remaining, ptr := remaining - 32, ptr + 32;
    obj := obj.(endOfFixedPart := At(ptr));
    if remaining < 24 {
      return -2, obj;
    }
    obj := obj.(rand := input[ptr..ptr + 24]);
    remaining, ptr := remaining - 24, ptr + 24;
    obj := obj.(endOfSigned := At(ptr));
    obj := obj.(sig := input[ptr..ptr + remaining]);
    ptr, remaining := ptr + remaining, 0;
    assert ptr + remaining == |input|;
    result := |input| - remaining;
  }
}
