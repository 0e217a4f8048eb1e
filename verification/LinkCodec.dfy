/** The encoders and parsers of src/trunnel/ed25519_cert.c for link specifiers and cell bodies. */
module LinkCodecs {
  import opened Wire
  import opened Buffers
  import opened LinkFormat

  /** link_specifier_encoded_len */
  method SpecEncodedLen(x: Spec) returns (result: int)
    requires SpecShaped(x)
    ensures result == if SpecCheck(x) then |EncSpec(x)| else -1
  {
    if !SpecCheck(x) {
      return -1;
    }
    result := 1 + 1;
    if x.kind == LS_IPV4 {
      result := result + 4 + 2;
    } else if x.kind == LS_IPV6 {
      result := result + 16 + 2;
    } else if x.kind == LS_LEGACY_ID {
      result := result + 20;
    } else if x.kind == LS_ED25519_ID {
      result := result + 32;
    } else {
      result := result + |x.unrecognized|;
    }
  }

  /** link_specifier_encode, the union. */
  method EncodeBody(w: Writer, x: Spec) returns (ok: bool)
    requires w.Valid()
    modifies w`written, w`done, w.output
    ensures w.Valid() && (ok <==> |SpecBody(x)| <= old(w.avail - w.written))
    ensures ok ==> w.done == old(w.done) + SpecBody(x)
  {
    hide Holds, Be16, Be32;
    if x.kind == LS_IPV4 {
      ok := w.Field(Be32(x.ipv4Addr));
      if ok { ok := w.Field(Be16(x.ipv4Port)); }
    } else if x.kind == LS_IPV6 {
      ok := w.Field(x.ipv6Addr);
      if ok { ok := w.Field(Be16(x.ipv6Port)); }
    } else if x.kind == LS_LEGACY_ID {
      ok := w.Field(x.legacyId);
    } else if x.kind == LS_ED25519_ID {
      ok := w.Field(x.ed25519Id);
    } else {
      ok := w.Field(x.unrecognized);
    }
  }

  /** link_specifier_encode */
  method EncodeSpec(output: array<byte>, base: nat, avail: nat, x: Spec) returns (result: int)
    requires base + avail <= output.Length && SpecShaped(x)
    modifies output
    ensures Written(old(output[..]), output[..], base, avail, result, SpecCheck(x), SpecFits(x), EncSpec(x))
  {
    hide Holds, Inside, Written, SpecBody;
    var w := new Writer(output, base, avail);
    if !SpecCheck(x) {
      w.Stop(-1, false, SpecFits(x), EncSpec(x));
      return -1;
    }
    var ok := w.Field([x.kind]);
    var backptr := w.written;
    if ok { ok := w.Field([x.length]); }
    if !ok {
      w.Stop(-2, true, SpecFits(x), EncSpec(x));
      return -2;
    }
    var before := w.written;
    ok := EncodeBody(w, x);
    if !ok {
      w.Stop(-2, true, SpecFits(x), EncSpec(x));
      return -2;
    }
    assert w.done == [x.kind, x.length] + SpecBody(x);
    if w.written - before > 0xFF {
      w.Stop(-1, true, SpecFits(x), EncSpec(x));
      return -1;
    }
    w.Back(backptr, [w.written - before]);
    assert w.done == EncSpec(x);
    result := w.written;
    w.Stop(result, true, SpecFits(x), EncSpec(x));
  }

  /** link_specifier_parse_into */
  method ParseSpecInto(input: Bytes) returns (result: int, obj: Spec)
    ensures Reports(result, obj, ParseSpec(input))
  {
    hide U16, U32;
    var ptr, remaining: nat := 0, |input|;
    obj := NO_SPEC;
    if remaining < 1 {
      return -2, obj;
    }
    obj := obj.(kind := input[ptr]);
    remaining, ptr := remaining - 1, ptr + 1;
    if remaining < 1 {
      return -2, obj;
    }
    obj := obj.(length := input[ptr]);
    remaining, ptr := remaining - 1, ptr + 1;
    if remaining < obj.length {
      return -2, obj;
    }
    var after := remaining - obj.length;
    remaining := obj.length;
    if obj.kind == LS_IPV4 {
      if remaining < 4 {
        return -1, obj;
      }
      obj := obj.(ipv4Addr := U32(input, ptr));
      remaining, ptr := remaining - 4, ptr + 4;
      if remaining < 2 {
        return -1, obj;
      }
      obj := obj.(ipv4Port := U16(input, ptr));
      remaining, ptr := remaining - 2, ptr + 2;
    } else if obj.kind == LS_IPV6 {
      if remaining < 16 {
        return -1, obj;
      }
      obj := obj.(ipv6Addr := input[ptr..ptr + 16]);
      remaining, ptr := remaining - 16, ptr + 16;
      if remaining < 2 {
        return -1, obj;
      }
      obj := obj.(ipv6Port := U16(input, ptr));
      remaining, ptr := remaining - 2, ptr + 2;
    } else if obj.kind == LS_LEGACY_ID {
      if remaining < 20 {
        return -1, obj;
      }
      obj := obj.(legacyId := input[ptr..ptr + 20]);
      remaining, ptr := remaining - 20, ptr + 20;
    } else if obj.kind == LS_ED25519_ID {
      if remaining < 32 {
        return -1, obj;
      }
      obj := obj.(ed25519Id := input[ptr..ptr + 32]);
      remaining, ptr := remaining - 32, ptr + 32;
    } else {
      obj := obj.(unrecognized := input[ptr..ptr + remaining]);
      remaining, ptr := 0, ptr + remaining;
    }
    if remaining != 0 {
      return -1, obj;
    }
    remaining := after;
    assert ptr + remaining == |input|;
    result := |input| - remaining;
  }

  /** The loop of link_specifier_list_encode and extend2_cell_body_encode. */
  method EncodeSpecs(output: array<byte>, base: nat, avail: nat, spec: seq<Spec>) returns (result: int)
    requires base + avail <= output.Length && AllCheck(spec) && AllShaped(spec)
    modifies output
    ensures Written(old(output[..]), output[..], base, avail, result, true, AllFit(spec), EncMany(EncSpec, spec))
  {
    hide Holds, Inside, Written, EncSpec, SpecFits, EncMany;
    var w := new Writer(output, base, avail);
    var idx := 0;
    EncManyNone(EncSpec, spec);
    while idx < |spec|
      invariant idx <= |spec| && w.Valid() && w.avail == avail
      invariant w.done == EncMany(EncSpec, spec[..idx]) && AllFit(spec[..idx])
    {
      ghost var before := output[..];
      EncManySplit(EncSpec, spec, idx);
      result := EncodeSpec(output, base + w.written, avail - w.written, spec[idx]);
      w.Take(result, before, SpecFits(spec[idx]), EncSpec(spec[idx]),
                    AllFit(spec), EncMany(EncSpec, spec));
      if result < 0 {
        return;
      }
      assert spec[..idx + 1] == spec[..idx] + [spec[idx]];
      idx := idx + 1;
    }
    assert spec[..idx] == spec;
    result := w.written;
    w.Stop(result, true, true, EncMany(EncSpec, spec));
  }

  /** The loop of link_specifier_list_parse_into and extend2_cell_body_parse_into. */
  method ParseSpecsInto(input: Bytes, n: nat) returns (result: int, spec: seq<Spec>)
    ensures Reports(result, spec, ParseMany(ParseSpec, input, n)) && result <= |input|
  {
    hide ParseSpec, ParseMany, Codec, Steady, Prefixed, EncSpec, SpecGood, SpecCanon;
    spec := [];
    var ptr, remaining, idx := 0, |input|, 0;
    SpecCodec();
    CodecSteady(ParseSpec, EncSpec, SpecGood, SpecCanon);
    ManyStart(ParseSpec, input, n);
    while idx < n
      invariant idx <= n && ptr + remaining == |input| && remaining >= 0
      invariant Prefixed(spec, ptr, ParseMany(ParseSpec, input[ptr..], n - idx), ParseMany(ParseSpec, input, n))
    {
      ManyNext(ParseSpec, input, ptr, n - idx, spec, ParseMany(ParseSpec, input, n));
      var elt;
      result, elt := ParseSpecInto(input[ptr..]);
      if result < 0 {
        return;
      }
      remaining, ptr := remaining - result, ptr + result;
      spec := spec + [elt];
      idx := idx + 1;
    }
    result := |input| - remaining;
    ManyDone(ParseSpec, input[ptr..], spec, ptr, ParseMany(ParseSpec, input, n));
  }

  /** link_specifier_list_encoded_len */
  method SpecListEncodedLen(x: SpecList) returns (result: int)
    requires AllShaped(x.spec)
    ensures result == if ListCheck(x) then |EncSpecList(x)| else -1
  {
    hide EncSpec, EncMany;
    if !ListCheck(x) {
      return -1;
    }
    result := 1;
    var idx := 0;
    while idx < |x.spec|
      invariant idx <= |x.spec| && result + |EncMany(EncSpec, x.spec[idx..])| == 1 + |EncMany(EncSpec, x.spec)|
    {
      LengthStep(EncSpec, x.spec, idx);
      var n := SpecEncodedLen(x.spec[idx]);
      result := result + n;
      idx := idx + 1;
    }
    EncManyNone(EncSpec, x.spec[idx..]);
    assert x.spec[idx..] == x.spec[idx..][..0];
  }

  /** link_specifier_list_encode */
  method EncodeSpecListTo(output: array<byte>, base: nat, avail: nat, x: SpecList) returns (result: int)
    requires base + avail <= output.Length && AllShaped(x.spec)
    modifies output
    ensures Written(old(output[..]), output[..], base, avail, result, ListCheck(x), AllFit(x.spec), EncSpecList(x))
  {
    hide Holds, Inside, Written, EncSpec, SpecFits, EncMany;
    var w := new Writer(output, base, avail);
    if !ListCheck(x) {
      w.Stop(-1, false, AllFit(x.spec), EncSpecList(x));
      return -1;
    }
    var ok := w.Field([x.nSpec]);
    if !ok {
      w.Stop(-2, true, AllFit(x.spec), EncSpecList(x));
      return -2;
    }
    ghost var before := output[..];
    result := EncodeSpecs(output, base + w.written, avail - w.written, x.spec);
    w.Take(result, before, AllFit(x.spec), EncMany(EncSpec, x.spec),
                  AllFit(x.spec), EncSpecList(x));
    if result < 0 {
      return;
    }
    assert w.done == EncSpecList(x);
    result := w.written;
    w.Stop(result, true, AllFit(x.spec), EncSpecList(x));
  }

  /** link_specifier_list_parse_into */
  method ParseSpecListInto(input: Bytes) returns (result: int, obj: SpecList)
    ensures Reports(result, obj, ParseSpecList(input)) && result <= |input|
  {
    hide ParseMany;
    var ptr, remaining := 0, |input|;
    obj := SpecList(false, 0, []);
    if remaining < 1 {
      return -2, obj;
    }
    obj := obj.(nSpec := input[ptr]);
    remaining, ptr := remaining - 1, ptr + 1;
    var spec;
    result, spec := ParseSpecsInto(input[ptr..], obj.nSpec);
    if result < 0 {
      return;
    }
    obj := obj.(spec := spec);
    remaining, ptr := remaining - result, ptr + result;
    assert ptr + remaining == |input|;
    result := |input| - remaining;
  }

  /** create2_cell_body_encoded_len */
  method Create2EncodedLen(x: Create2) returns (result: int)
    ensures result == if Create2Check(x) then |EncCreate2(x)| else -1
  {
    if !Create2Check(x) {
      return -1;
    }
    result := 2 + 2 + |x.data|;
  }

  /** create2_cell_body_encode */
  method EncodeCreate2(output: array<byte>, base: nat, avail: nat, x: Create2) returns (result: int)
    requires base + avail <= output.Length
    modifies output
    ensures Written(old(output[..]), output[..], base, avail, result, Create2Check(x), true, EncCreate2(x))
  {
    hide Holds, Inside, Written, Be16;
    var w := new Writer(output, base, avail);
    if !Create2Check(x) {
      w.Stop(-1, false, true, EncCreate2(x));
      return -1;
    }
    var ok := w.Field(Be16(x.kind));
    if ok { ok := w.Field(Be16(x.length)); }
    if ok { ok := w.Field(x.data); }
    if !ok {
      w.Stop(-2, true, true, EncCreate2(x));
      return -2;
    }
    assert w.done == EncCreate2(x);
    result := w.written;
    w.Stop(result, true, true, EncCreate2(x));
  }

  /** create2_cell_body_parse_into */
  method ParseCreate2Into(input: Bytes) returns (result: int, obj: Create2)
    ensures Reports(result, obj, ParseCreate2(input)) && result <= |input|
  {
    var ptr, remaining := 0, |input|;
    obj := Create2(false, 0, 0, []);
    if remaining < 2 {
      return -2, obj;
    }
    obj := obj.(kind := U16(input, ptr));
    remaining, ptr := remaining - 2, ptr + 2;
    if remaining < 2 {
      return -2, obj;
    }
    obj := obj.(length := U16(input, ptr));
    remaining, ptr := remaining - 2, ptr + 2;
    if remaining < obj.length {
      return -2, obj;
    }
    obj := obj.(data := input[ptr..ptr + obj.length]);
    ptr, remaining := ptr + obj.length, remaining - obj.length;
    assert ptr + remaining == |input|;
    result := |input| - remaining;
  }

  /** extend2_cell_body_encoded_len */
  method Extend2EncodedLen(x: Extend2) returns (result: int)
    requires AllShaped(x.ls)
    ensures result == if Extend2Check(x) then |EncExtend2(x)| else -1
  {
    hide EncSpec, EncMany, EncCreate2, Create2Check;
    if !Extend2Check(x) {
      return -1;
    }
    result := 1;
    var idx := 0;
    while idx < |x.ls|
      invariant idx <= |x.ls| && result + |EncMany(EncSpec, x.ls[idx..])| == 1 + |EncMany(EncSpec, x.ls)|
    {
      LengthStep(EncSpec, x.ls, idx);
      var n := SpecEncodedLen(x.ls[idx]);
      result := result + n;
      idx := idx + 1;
    }
    EncManyNone(EncSpec, x.ls[idx..]);
    assert x.ls[idx..] == x.ls[idx..][..0];
    var n := Create2EncodedLen(x.create2);
    result := result + n;
  }

  /** extend2_cell_body_encode */
  method EncodeExtend2(output: array<byte>, base: nat, avail: nat, x: Extend2) returns (result: int)
    requires base + avail <= output.Length && AllShaped(x.ls)
    modifies output
    ensures Written(old(output[..]), output[..], base, avail, result, Extend2Check(x), AllFit(x.ls), EncExtend2(x))
  {
    hide Holds, Inside, Written, EncSpec, SpecFits, EncMany, EncCreate2, AllShaped, AllCheck, AllFit, Create2Check;
    var w := new Writer(output, base, avail);
    if !Extend2Check(x) {
      w.Stop(-1, false, AllFit(x.ls), EncExtend2(x));
      return -1;
    }
    var ok := w.Field([x.nSpec]);
    if !ok {
      w.Stop(-2, true, AllFit(x.ls), EncExtend2(x));
      return -2;
    }
    ghost var before := output[..];
    result := EncodeSpecs(output, base + w.written, avail - w.written, x.ls);
    w.Take(result, before, AllFit(x.ls), EncMany(EncSpec, x.ls),
                  AllFit(x.ls), EncExtend2(x));
    if result < 0 {
      return;
    }
    before := output[..];
    result := EncodeCreate2(output, base + w.written, avail - w.written, x.create2);
    w.Take(result, before, true, EncCreate2(x.create2),
                  AllFit(x.ls), EncExtend2(x));
    if result < 0 {
      return;
    }
    assert w.done == EncExtend2(x);
    result := w.written;
    w.Stop(result, true, AllFit(x.ls), EncExtend2(x));
  }

  /** extend2_cell_body_parse_into */
  method ParseExtend2Into(input: Bytes) returns (result: int, obj: Extend2)
    ensures Reports(result, obj, ParseExtend2(input)) && result <= |input|
  {
    hide ParseMany, ParseCreate2;
    var ptr, remaining := 0, |input|;
    obj := Extend2(false, 0, [], Create2(false, 0, 0, []));
    if remaining < 1 {
      return -2, obj;
    }
    obj := obj.(nSpec := input[ptr]);
    remaining, ptr := remaining - 1, ptr + 1;
    var ls;
    result, ls := ParseSpecsInto(input[ptr..], obj.nSpec);
    if result < 0 {
      return;
    }
    obj := obj.(ls := ls);
    remaining, ptr := remaining - result, ptr + result;
    var create2;
    result, create2 := ParseCreate2Into(input[ptr..]);
    if result < 0 {
      return;
    }
    obj := obj.(create2 := create2);
    remaining, ptr := remaining - result, ptr + result;
    assert ptr + remaining == |input|;
    result := |input| - remaining;
  }
}
