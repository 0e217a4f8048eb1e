/** The encoders and parsers of src/trunnel/link_handshake.c for CERTS cells. */
module CellCodecs {
  import opened Wire
  import opened Buffers
  import opened CellFormat

  /** certs_cell_cert_encoded_len */
  method CellCertEncodedLen(x: CellCert) returns (result: int)
    ensures result == if CellCertCheck(x) then |EncCellCert(x)| else -1
  {
    if !CellCertCheck(x) {
      return -1;
    }
    result := 1 + 2 + |x.body|;
  }

  /** certs_cell_cert_encode */
  method EncodeCellCert(output: array<byte>, base: nat, avail: nat, x: CellCert) returns (result: int)
    requires base + avail <= output.Length
    modifies output
    ensures Written(old(output[..]), output[..], base, avail, result, CellCertCheck(x), true, EncCellCert(x))
  {
    hide Holds, Inside, Written, Be16;
    var w := new Writer(output, base, avail);
    if !CellCertCheck(x) {
      w.Stop(-1, false, true, EncCellCert(x));
      return -1;
    }
    var ok := w.Field([x.kind]);
    if ok { ok := w.Field(Be16(x.length)); }
    if ok { ok := w.Field(x.body); }
    if !ok {
      w.Stop(-2, true, true, EncCellCert(x));
      return -2;
    }
    assert w.done == EncCellCert(x);
    result := w.written;
    w.Stop(result, true, true, EncCellCert(x));
  }

  /** certs_cell_cert_parse_into */
  method ParseCellCertInto(input: Bytes) returns (result: int, obj: CellCert)
    ensures Reports(result, obj, ParseCellCert(input)) && result <= |input|
  {
    var ptr, remaining := 0, |input|;
    obj := CellCert(false, 0, 0, []);
    if remaining < 1 {
      return -2, obj;
    }
    obj := obj.(kind := input[ptr]);
    remaining, ptr := remaining - 1, ptr + 1;
    if remaining < 2 {
      return -2, obj;
    }
    obj := obj.(length := U16(input, ptr));
    remaining, ptr := remaining - 2, ptr + 2;
    if remaining < obj.length {
      return -2, obj;
    }
    obj := obj.(body := input[ptr..ptr + obj.length]);
    ptr, remaining := ptr + obj.length, remaining - obj.length;
    assert ptr + remaining == |input|;
    result := |input| - remaining;
  }

  /** certs_cell_encoded_len */
  method CellEncodedLen(x: Cell) returns (result: int)
    ensures result == if CellCheck(x) then |EncCell(x)| else -1
  {
    hide EncCellCert, CellCertCheck, EncMany;
    if !CellCheck(x) {
      return -1;
    }
    result := 1;
    var idx := 0;
    while idx < |x.certs|
      invariant idx <= |x.certs| && result + |EncMany(EncCellCert, x.certs[idx..])| == 1 + |EncMany(EncCellCert, x.certs)|
    {
      LengthStep(EncCellCert, x.certs, idx);
      var n := CellCertEncodedLen(x.certs[idx]);
      result := result + n;
      idx := idx + 1;
    }
    EncManyNone(EncCellCert, x.certs[idx..]);
    assert x.certs[idx..] == x.certs[idx..][..0];
  }

  /** certs_cell_encode */
  method EncodeCell(output: array<byte>, base: nat, avail: nat, x: Cell) returns (result: int)
    requires base + avail <= output.Length
    modifies output
    ensures Written(old(output[..]), output[..], base, avail, result, CellCheck(x), true, EncCell(x))
  {
    hide Holds, Inside, Written, EncCellCert, CellCertCheck, EncMany;
    var w := new Writer(output, base, avail);
    if !CellCheck(x) {
      w.Stop(-1, false, true, EncCell(x));
      return -1;
    }
    var ok := w.Field([x.nCerts]);
    if !ok {
      w.Stop(-2, true, true, EncCell(x));
      return -2;
    }
    ghost var before := output[..];
    result := EncodeCellCerts(output, base + w.written, avail - w.written, x.certs);
    w.Take(result, before, true, EncMany(EncCellCert, x.certs), true, EncCell(x));
    if result < 0 {
      return;
    }
    assert w.done == EncCell(x);
    result := w.written;
    w.Stop(result, true, true, EncCell(x));
  }

  /** The loop of certs_cell_encode. */
  method EncodeCellCerts(output: array<byte>, base: nat, avail: nat, certs: seq<CellCert>) returns (result: int)
    requires base + avail <= output.Length && AllCellCerts(certs)
    modifies output
    ensures Written(old(output[..]), output[..], base, avail, result, true, true, EncMany(EncCellCert, certs))
  {
    hide Holds, Inside, Written, EncCellCert, CellCertCheck, EncMany;
    var w := new Writer(output, base, avail);
    var idx := 0;
    EncManyNone(EncCellCert, certs);
    while idx < |certs|
      invariant idx <= |certs| && w.Valid() && w.avail == avail && w.done == EncMany(EncCellCert, certs[..idx])
    {
      ghost var before := output[..];
      EncManySplit(EncCellCert, certs, idx);
      result := EncodeCellCert(output, base + w.written, avail - w.written, certs[idx]);
      w.Take(result, before, true, EncCellCert(certs[idx]), true, EncMany(EncCellCert, certs));
      if result < 0 {
        return;
      }
      idx := idx + 1;
    }
    assert certs[..idx] == certs;
    result := w.written;
    w.Stop(result, true, true, EncMany(EncCellCert, certs));
  }

  /** certs_cell_parse_into */
  method ParseCellInto(input: Bytes) returns (result: int, obj: Cell)
    ensures Reports(result, obj, ParseCell(input)) && result <= |input|
  {
    hide ParseMany;
    var ptr, remaining := 0, |input|;
    obj := Cell(false, 0, []);
    if remaining < 1 {
      return -2, obj;
    }
    obj := obj.(nCerts := input[ptr]);
    remaining, ptr := remaining - 1, ptr + 1;
    var certs;
    result, certs := ParseCellCertsInto(input[ptr..], obj.nCerts);
    if result < 0 {
      return;
    }
    obj := obj.(certs := certs);
    remaining, ptr := remaining - result, ptr + result;
    assert ptr + remaining == |input|;
    result := |input| - remaining;
  }

  /** The loop of certs_cell_parse_into. */
  method ParseCellCertsInto(input: Bytes, n: nat) returns (result: int, certs: seq<CellCert>)
    ensures Reports(result, certs, ParseMany(ParseCellCert, input, n)) && result <= |input|
  {
    hide ParseCellCert, ParseMany, Codec, Steady, Prefixed, EncCellCert, CellCertCheck;
    certs := [];
    var ptr, remaining, idx := 0, |input|, 0;
    CellCertCodec();
    CodecSteady(ParseCellCert, EncCellCert, CellCertCheck, Same);
    ManyStart(ParseCellCert, input, n);
    while idx < n
      invariant idx <= n && ptr + remaining == |input| && remaining >= 0
      invariant Prefixed(certs, ptr, ParseMany(ParseCellCert, input[ptr..], n - idx), ParseMany(ParseCellCert, input, n))
    {
      ManyNext(ParseCellCert, input, ptr, n - idx, certs, ParseMany(ParseCellCert, input, n));
      var elt;
      result, elt := ParseCellCertInto(input[ptr..]);
      if result < 0 {
        return;
      }
      remaining, ptr := remaining - result, ptr + result;
      certs := certs + [elt];
      idx := idx + 1;
    }
    result := |input| - remaining;
    ManyDone(ParseCellCert, input[ptr..], certs, ptr, ParseMany(ParseCellCert, input, n));
  }
}
