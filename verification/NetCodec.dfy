/** The encoders and parsers of src/trunnel/netinfo.c. */
module NetCodecs {
  import opened Wire
  import opened Buffers
  import opened NetFormat

  /** netinfo_addr_encoded_len */
  method AddrEncodedLen(x: Addr) returns (result: int)
    requires AddrShaped(x)
    ensures result == if AddrCheck(x) then |EncAddr(x)| else -1
  {
    if !AddrCheck(x) {
      return -1;
    }
    result := 1 + 1;
    if x.kind == TYPE_IPV4 {
      result := result + 4;
    } else if x.kind == TYPE_IPV6 {
      result := result + 16;
    }
  }

  /** netinfo_addr_encode */
  method EncodeAddr(output: array<byte>, base: nat, avail: nat, x: Addr) returns (result: int)
    requires base + avail <= output.Length && AddrShaped(x)
    modifies output
    ensures Written(old(output[..]), output[..], base, avail, result, AddrCheck(x), true, EncAddr(x))
  {
    hide Holds, Inside, Written, Be32;
    var w := new Writer(output, base, avail);
    if !AddrCheck(x) {
      w.Stop(-1, false, true, EncAddr(x));
      return -1;
    }
    var ok := w.Field([x.kind]);
    var backptr := w.written;
    if ok { ok := w.Field([x.length]); }
    if !ok {
      w.Stop(-2, true, true, EncAddr(x));
      return -2;
    }
    var before := w.written;
    if x.kind == TYPE_IPV4 {
      ok := w.Field(Be32(x.ipv4));
    } else if x.kind == TYPE_IPV6 {
      ok := w.Field(x.ipv6);
    }
    if !ok {
      w.Stop(-2, true, true, EncAddr(x));
      return -2;
    }
    assert w.done == [x.kind, x.length] + AddrBody(x);
    if w.written - before > 0xFF {
      assert false;
    }
    w.Back(backptr, [w.written - before]);
    assert w.done == EncAddr(x);
    result := w.written;
    w.Stop(result, true, true, EncAddr(x));
  }

  /** netinfo_addr_parse_into */
  method ParseAddrInto(input: Bytes) returns (result: int, obj: Addr)
    ensures Reports(result, obj, ParseAddr(input)) && result <= |input|
  {
    hide U32;
    var ptr, remaining: nat := 0, |input|;
    obj := NO_ADDR;
    if remaining < 1 {
      return -2, obj;
    }
    obj := obj.(kind := input[ptr]);
    remaining, ptr := remaining - 1, ptr + 1;
    if remaining < 1 {
      return -2, obj;
    }
    obj := obj.(length := input[ptr]);
    remaining, ptr := remaining - 1, ptr + 1;
    if remaining < obj.length {
      return -2, obj;
    }
    var after := remaining - obj.length;
    remaining := obj.length;
    if obj.kind == TYPE_IPV4 {
      if remaining < 4 {
        return -1, obj;
      }
      obj := obj.(ipv4 := U32(input, ptr));
      remaining, ptr := remaining - 4, ptr + 4;
    } else if obj.kind == TYPE_IPV6 {
      if remaining < 16 {
        return -1, obj;
      }
      obj := obj.(ipv6 := input[ptr..ptr + 16]);
      remaining, ptr := remaining - 16, ptr + 16;
    } else {
      remaining, ptr := 0, ptr + remaining;
    }
    if remaining != 0 {
      return -1, obj;
    }
    remaining := after;
    assert ptr + remaining == |input|;
    result := |input| - remaining;
  }

  /** The loop of netinfo_cell_encode. */
  method EncodeAddrs(output: array<byte>, base: nat, avail: nat, mine: seq<Addr>) returns (result: int)
    requires base + avail <= output.Length && AllChecked(mine) && AllShaped(mine)
    modifies output
    ensures Written(old(output[..]), output[..], base, avail, result, true, true, EncMany(EncAddr, mine))
  {
    hide Holds, Inside, Written, EncAddr, EncMany;
    var w := new Writer(output, base, avail);
    var idx := 0;
    EncManyNone(EncAddr, mine);
    while idx < |mine|
      invariant idx <= |mine| && w.Valid() && w.avail == avail && w.done == EncMany(EncAddr, mine[..idx])
    {
      ghost var before := output[..];
      EncManySplit(EncAddr, mine, idx);
      result := EncodeAddr(output, base + w.written, avail - w.written, mine[idx]);
      w.Take(result, before, true, EncAddr(mine[idx]),
                    true, EncMany(EncAddr, mine));
      if result < 0 {
        return;
      }
      idx := idx + 1;
    }
    assert mine[..idx] == mine;
    result := w.written;
    w.Stop(result, true, true, EncMany(EncAddr, mine));
  }

  /** The loop of netinfo_cell_parse_into. */
  method ParseAddrsInto(input: Bytes, n: nat) returns (result: int, mine: seq<Addr>)
    ensures Reports(result, mine, ParseMany(ParseAddr, input, n)) && result <= |input|
  {
    hide ParseAddr, ParseMany, Steady, Prefixed;
    mine := [];
    var ptr, remaining, idx := 0, |input|, 0;
    AddrSteady();
    ManyStart(ParseAddr, input, n);
    while idx < n
      invariant idx <= n && ptr + remaining == |input| && remaining >= 0
      invariant Prefixed(mine, ptr, ParseMany(ParseAddr, input[ptr..], n - idx), ParseMany(ParseAddr, input, n))
    {
      ManyNext(ParseAddr, input, ptr, n - idx, mine, ParseMany(ParseAddr, input, n));
      var elt;
      result, elt := ParseAddrInto(input[ptr..]);
      if result < 0 {
        return;
      }
      remaining, ptr := remaining - result, ptr + result;
      mine := mine + [elt];
      idx := idx + 1;
    }
    result := |input| - remaining;
    ManyDone(ParseAddr, input[ptr..], mine, ptr, ParseMany(ParseAddr, input, n));
  }

  /** netinfo_cell_encoded_len */
  method NetEncodedLen(x: Net) returns (result: int)
    requires NetShaped(x)
    ensures result == if NetCheck(x) then |EncNet(x)| else -1
  {
    hide EncAddr, EncMany, Be32;
    if !NetCheck(x) {
      return -1;
    }
    result := 4;
    var n := AddrEncodedLen(x.other);
    result := result + n + 1;
    ghost var head := result;
    var idx := 0;
    while idx < |x.mine|
      invariant idx <= |x.mine| && result + |EncMany(EncAddr, x.mine[idx..])| == head + |EncMany(EncAddr, x.mine)|
    {
      LengthStep(EncAddr, x.mine, idx);
      var n := AddrEncodedLen(x.mine[idx]);
      result := result + n;
      idx := idx + 1;
    }
    EncManyNone(EncAddr, x.mine[idx..]);
    assert x.mine[idx..] == x.mine[idx..][..0];
  }

  /** netinfo_cell_encode */
  method EncodeNet(output: array<byte>, base: nat, avail: nat, x: Net) returns (result: int)
    requires base + avail <= output.Length && NetShaped(x)
    modifies output
    ensures Written(old(output[..]), output[..], base, avail, result, NetCheck(x), true, EncNet(x))
  {
    hide Holds, Inside, Written, EncAddr, EncMany, Be32, AllChecked, AllShaped;
    var w := new Writer(output, base, avail);
    if !NetCheck(x) {
      w.Stop(-1, false, true, EncNet(x));
      return -1;
    }
    var ok := w.Field(Be32(x.timestamp));
    if !ok {
      w.Stop(-2, true, true, EncNet(x));
      return -2;
    }
    ghost var before := output[..];
    result := EncodeAddr(output, base + w.written, avail - w.written, x.other);
    w.Take(result, before, true, EncAddr(x.other), true, EncNet(x));
    if result < 0 {
      return;
    }
    ok := w.Field([x.nMine]);
    if !ok {
      w.Stop(-2, true, true, EncNet(x));
      return -2;
    }
    before := output[..];
    result := EncodeAddrs(output, base + w.written, avail - w.written, x.mine);
    w.Take(result, before, true, EncMany(EncAddr, x.mine), true, EncNet(x));
    if result < 0 {
      return;
    }
    assert w.done == EncNet(x);
    result := w.written;
    w.Stop(result, true, true, EncNet(x));
  }

  /** netinfo_cell_parse_into */
  method ParseNetInto(input: Bytes) returns (result: int, obj: Net)
    ensures Reports(result, obj, ParseNet(input)) && result <= |input|
  {
    hide ParseAddr, ParseMany, U32;
    var ptr, remaining := 0, |input|;
    obj := Net(false, 0, NO_ADDR, 0, []);
    if remaining < 4 {
      return -2, obj;
    }
    obj := obj.(timestamp := U32(input, ptr));
    remaining, ptr := remaining - 4, ptr + 4;
    var other;
    result, other := ParseAddrInto(input[ptr..]);
    if result < 0 {
      return;
    }
    obj := obj.(other := other);
    remaining, ptr := remaining - result, ptr + result;
    if remaining < 1 {
      return -2, obj;
    }
    obj := obj.(nMine := input[ptr]);
    remaining, ptr := remaining - 1, ptr + 1;
    var mine;
    result, mine := ParseAddrsInto(input[ptr..], obj.nMine);
    if result < 0 {
      return;
    }
    obj := obj.(mine := mine);
    remaining, ptr := remaining - result, ptr + result;
    assert ptr + remaining == |input|;
    result := |input| - remaining;
  }
}
