/** The encoders and parsers of src/trunnel/socks5.c for requests. */
module SocksCodecs {
  import opened Wire
  import opened Buffers
  import opened SocksFormat
  import opened Wrappers

  /** domainname_encoded_len; the object may be missing. */
  method DomainEncodedLen(x: Option<Domain>) returns (result: int)
    ensures result == if x.Some? && DomainCheck(x.value) then |EncDomain(x.value)| else -1
  {
    if x.None? || !DomainCheck(x.value) {
      return -1;
    }
    result := 1 + |x.value.name|;
  }

  /** domainname_encode; the object may be missing. */
  method EncodeDomainTo(output: array<byte>, base: nat, avail: nat, x: Option<Domain>) returns (result: int)
    requires base + avail <= output.Length
    modifies output
    ensures Written(old(output[..]), output[..], base, avail, result, x.Some? && DomainCheck(x.value), true,
                    if x.Some? then EncDomain(x.value) else [])
  {
    hide Holds, Inside, Written;
    var w := new Writer(output, base, avail);
    if x.None? || !DomainCheck(x.value) {
      w.Stop(-1, false, true, if x.Some? then EncDomain(x.value) else []);
      return -1;
    }
    var ok := w.Field([x.value.len]);
    if ok { ok := w.Field(x.value.name); }
    if !ok {
      w.Stop(-2, true, true, EncDomain(x.value));
      return -2;
    }
    assert w.done == EncDomain(x.value);
    result := w.written;
    w.Stop(result, true, true, EncDomain(x.value));
  }

  /** domainname_parse_into */
  method ParseDomainInto(input: Bytes) returns (result: int, obj: Domain)
    ensures Reports(result, obj, ParseDomain(input)) && result <= |input|
  {
    var ptr, remaining: nat := 0, |input|;
    obj := Domain(false, 0, []);
    if remaining < 1 {
      return -2, obj;
    }
    obj := obj.(len := input[ptr]);
    remaining, ptr := remaining - 1, ptr + 1;
    if remaining < obj.len {
      return -2, obj;
    }
    obj := obj.(name := input[ptr..ptr + obj.len]);
    ptr, remaining := ptr + obj.len, remaining - obj.len;
    assert ptr + remaining == |input|;
    result := |input| - remaining;
  }

  /** socks4_client_request_encoded_len */
  method Socks4EncodedLen(x: Socks4) returns (result: int)
    ensures result == if Socks4Check(x) then |EncSocks4(x)| else -1
  {
    if !Socks4Check(x) {
      return -1;
    }
    result := 1 + 1 + 2 + 4;
    result := result + |x.username.value| + 1;
    if Named(x.addr) {
      result := result + |x.hostname.value| + 1;
    }
  }

  /** socks4_client_request_encode */
  method EncodeSocks4To(output: array<byte>, base: nat, avail: nat, x: Socks4) returns (result: int)
    requires base + avail <= output.Length
    modifies output
    ensures Written(old(output[..]), output[..], base, avail, result, Socks4Check(x), true, EncAnySocks4(x))
  {
    hide Holds, Inside, Written, Be16, Be32;
    var w := new Writer(output, base, avail);
    if !Socks4Check(x) {
      w.Stop(-1, false, true, EncAnySocks4(x));
      return -1;
    }
    var ok := w.Field([x.version]);
    if ok { ok := w.Field([x.command]); }
    if ok { ok := w.Field(Be16(x.port)); }
    if ok { ok := w.Field(Be32(x.addr)); }
    assert ok ==> w.done == EncSocks4Head(x);
    if ok { ok := w.Field(x.username.value + [0]); }
    if ok && Named(x.addr) { ok := w.Field(x.hostname.value + [0]); }
    if !ok {
      w.Stop(-2, true, true, EncAnySocks4(x));
      return -2;
    }
    assert w.done == EncSocks4(x);
    result := w.written;
    w.Stop(result, true, true, EncAnySocks4(x));
  }

  /** memchr(ptr, 0, remaining) */
  method FindNul(input: Bytes, ptr: nat) returns (eos: nat)
    requires ptr <= |input|
    ensures eos == Nul(input, ptr)
  {
    eos := ptr;
    while eos < |input| && input[eos] != 0
      invariant ptr <= eos <= |input| && Nul(input, eos) == Nul(input, ptr)
    {
      eos := eos + 1;
    }
  }

  /** socks4_client_request_parse_into */
  method ParseSocks4Into(input: Bytes) returns (result: int, obj: Socks4)
    ensures Reports(result, obj, ParseSocks4(input))
  {
    hide U16, U32;
    var ptr, remaining: nat := 0, |input|;
    obj := Socks4(false, 0, 0, 0, 0, None, None);
    if remaining < 1 {
      return -2, obj;
    }
    obj := obj.(version := input[ptr]);
    remaining, ptr := remaining - 1, ptr + 1;
    if obj.version != 4 {
      return -1, obj;
    }
    if remaining < 1 {
      return -2, obj;
    }
    obj := obj.(command := input[ptr]);
    remaining, ptr := remaining - 1, ptr + 1;
    if !(obj.command == CMD_BIND || obj.command == CMD_CONNECT || obj.command == CMD_RESOLVE
         || obj.command == CMD_RESOLVE_PTR) {
      return -1, obj;
    }
    if remaining < 2 {
      return -2, obj;
    }
    obj := obj.(port := U16(input, ptr));
    remaining, ptr := remaining - 2, ptr + 2;
    if remaining < 4 {
      return -2, obj;
    }
    obj := obj.(addr := U32(input, ptr));
    remaining, ptr := remaining - 4, ptr + 4;
    var eos := FindNul(input, ptr);
    if eos == |input| {
      return -2, obj;
    }
    var memlen := eos - ptr + 1;
    obj := obj.(username := Some(input[ptr..ptr + memlen - 1]));
    remaining, ptr := remaining - memlen, ptr + memlen;
    if 1 <= obj.addr <= 255 {
      eos := FindNul(input, ptr);
      if eos == |input| {
        return -2, obj;
      }
      memlen := eos - ptr + 1;
      obj := obj.(hostname := Some(input[ptr..ptr + memlen - 1]));
      remaining, ptr := remaining - memlen, ptr + memlen;
    }
    assert ptr + remaining == |input|;
    result := |input| - remaining;
  }

  /** socks5_client_request_encoded_len */
  method Socks5EncodedLen(x: Socks5) returns (result: int)
    requires Socks5Shaped(x)
    ensures result == if Socks5Check(x) then |EncSocks5(x)| else -1
  {
    if !Socks5Check(x) {
      return -1;
    }
    result := 1 + 1 + 1 + 1;
    if x.atype == ATYPE_IPV4 {
      result := result + 4;
    } else if x.atype == ATYPE_IPV6 {
      result := result + 16;
    } else {
      var n := DomainEncodedLen(x.domain);
      result := result + n;
    }
    result := result + 2;
  }

  /** socks5_client_request_encode, up to the address. */
  method EncodeSocks5Head(w: Writer, x: Socks5) returns (ok: bool)
    requires w.Valid()
    modifies w`written, w`done, w.output
    ensures w.Valid() && (ok <==> 4 <= old(w.avail - w.written))
    ensures ok ==> w.done == old(w.done) + [x.version, x.command, x.reserved, x.atype]
  {
    hide Holds;
    ok := w.Field([x.version]);
    if ok { ok := w.Field([x.command]); }
    if ok { ok := w.Field([x.reserved]); }
    if ok { ok := w.Field([x.atype]); }
  }

  /** socks5_client_request_encode */
  method EncodeSocks5To(output: array<byte>, base: nat, avail: nat, x: Socks5) returns (result: int)
    requires base + avail <= output.Length && Socks5Shaped(x)
    modifies output
    ensures Written(old(output[..]), output[..], base, avail, result, Socks5Check(x), true, EncAnySocks5(x))
  {
    hide Holds, Inside, Written, Be16, Be32, EncDomain, DomainCheck;
    var w := new Writer(output, base, avail);
    if !Socks5Check(x) {
      w.Stop(-1, false, true, EncAnySocks5(x));
      return -1;
    }
    var ok := EncodeSocks5Head(w, x);
    if ok && x.atype == ATYPE_IPV4 {
      ok := w.Field(Be32(x.ipv4));
    } else if ok && x.atype == ATYPE_IPV6 {
      ok := w.Field(x.ipv6);
    }
    if !ok {
      w.Stop(-2, true, true, EncAnySocks5(x));
      return -2;
    }
    if x.atype == ATYPE_DOMAINNAME {
      ghost var before := output[..];
      result := EncodeDomainTo(output, base + w.written, avail - w.written, x.domain);
      w.Take(result, before, true, EncDomain(x.domain.value), true,
                    EncAnySocks5(x));
      if result < 0 {
        return;
      }
    }
    assert w.done == [x.version, x.command, x.reserved, x.atype] + DestAddr(x);
    ok := w.Field(Be16(x.port));
    if !ok {
      w.Stop(-2, true, true, EncAnySocks5(x));
      return -2;
    }
    assert w.done == EncSocks5(x);
    result := w.written;
    w.Stop(result, true, true, EncAnySocks5(x));
  }

  /** socks5_client_request_parse_into */
  method ParseSocks5Into(input: Bytes) returns (result: int, obj: Socks5)
    ensures Reports(result, obj, ParseSocks5(input))
  {
    hide U16, U32, ParseDomain;
    var ptr, remaining: nat := 0, |input|;
    obj := Socks5(false, 0, 0, 0, 0, 0, Zeros(16), None, 0);
    if remaining < 1 {
      return -2, obj;
    }
    obj := obj.(version := input[ptr]);
    remaining, ptr := remaining - 1, ptr + 1;
    if obj.version != 5 {
      return -1, obj;
    }
    if remaining < 1 {
      return -2, obj;
    }
    obj := obj.(command := input[ptr]);
    remaining, ptr := remaining - 1, ptr + 1;
    if !(obj.command == CMD_BIND || obj.command == CMD_CONNECT || obj.command == CMD_RESOLVE
         || obj.command == CMD_RESOLVE_PTR || obj.command == CMD_UDP_ASSOCIATE) {
      return -1, obj;
    }
    if remaining < 1 {
      return -2, obj;
    }
    obj := obj.(reserved := input[ptr]);
    remaining, ptr := remaining - 1, ptr + 1;
    if obj.reserved != 0 {
      return -1, obj;
    }
    if remaining < 1 {
      return -2, obj;
    }
    obj := obj.(atype := input[ptr]);
    remaining, ptr := remaining - 1, ptr + 1;
    if obj.atype == ATYPE_IPV4 {
      if remaining < 4 {
        return -2, obj;
      }
      obj := obj.(ipv4 := U32(input, ptr));
      remaining, ptr := remaining - 4, ptr + 4;
    } else if obj.atype == ATYPE_IPV6 {
      if remaining < 16 {
        return -2, obj;
      }
      obj := obj.(ipv6 := input[ptr..ptr + 16]);
      remaining, ptr := remaining - 16, ptr + 16;
    } else if obj.atype == ATYPE_DOMAINNAME {
      var domain;
      result, domain := ParseDomainInto(input[ptr..]);
      if result < 0 {
        return;
      }
      obj := obj.(domain := Some(domain));
      remaining, ptr := remaining - result, ptr + result;
    } else {
      return -1, obj;
    }
    if remaining < 2 {
      return -2, obj;
    }
    obj := obj.(port := U16(input, ptr));
    remaining, ptr := remaining - 2, ptr + 2;
    assert ptr + remaining == |input|;
    result := |input| - remaining;
  }
}
