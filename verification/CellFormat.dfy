/** CERTS cells as bytes. */
module CellFormat {
  import opened Wire

  // ----- certs_cell_cert -----

  datatype CellCert = CellCert(err: bool, kind: byte, length: u16, body: Bytes)

  function EncCellCert(x: CellCert): Bytes { [x.kind] + Be16(x.length) + x.body }

  /** certs_cell_cert_check */
  predicate CellCertCheck(x: CellCert) { !x.err && |x.body| == x.length }

  function ParseCellCert(b: Bytes): Parsed<CellCert> {
    if |b| < 3 then Truncated else
    var n := U16(b, 1);
    if |b| < 3 + n then Truncated else Ok(CellCert(false, b[0], n, b[3..3 + n]), 3 + n)
  }

  lemma CellCertCodec()
    ensures Codec(ParseCellCert, EncCellCert, CellCertCheck, Same)
  {
    forall b: Bytes | ParseCellCert(b).Ok?
      ensures IsPrefix(ParseCellCert(b).value, ParseCellCert(b).used, b, EncCellCert, CellCertCheck, Same)
    {
      Be16U16(b, 1);
      Parts(b, 1, 3, ParseCellCert(b).used);
    }
    forall x, c: Bytes | CellCertCheck(x) ensures ParseCellCert(EncCellCert(x) + c) == Ok(x, |EncCellCert(x)|) {
      var b := EncCellCert(x) + c;
      Joined([x.kind], Be16(x.length), x.body, c);
      assert b[0] == x.kind && b[1..3] == Be16(x.length);
      U16Be16(b, 1, x.length);
    }
  }

  // ----- certs_cell -----

  datatype Cell = Cell(err: bool, nCerts: byte, certs: seq<CellCert>)

  function EncCell(x: Cell): Bytes { [x.nCerts] + EncMany(EncCellCert, x.certs) }

  predicate AllCellCerts(certs: seq<CellCert>) { forall i :: 0 <= i < |certs| ==> CellCertCheck(certs[i]) }

  /** certs_cell_check */
  predicate CellCheck(x: Cell) { !x.err && AllCellCerts(x.certs) && |x.certs| == x.nCerts }

  function ParseCell(b: Bytes): Parsed<Cell> {
    if |b| < 1 then Truncated else
    match ParseMany(ParseCellCert, b[1..], b[0])
    case Invalid => Invalid
    case Truncated => Truncated
    case Ok(certs, n) => Ok(Cell(false, b[0], certs), 1 + n)
  }

  lemma CanonsSame(xs: seq<CellCert>)
    ensures Canons(Same, xs) == xs
  {
    var same: CellCert -> CellCert := Same;
    forall i | 0 <= i < |xs| ensures Canons(Same, xs)[i] == xs[i] {
      assert same(xs[i]) == xs[i];
    }
  }

  lemma CellCodec()
    ensures Codec(ParseCell, EncCell, CellCheck, Same)
  {
    hide CellCertCheck, EncCellCert, ParseCellCert, EncMany, ParseMany, Exact, RoundTrips, Firm, Canons;
    CellCertCodec();
    forall b: Bytes | ParseCell(b).Ok?
      ensures IsPrefix(ParseCell(b).value, ParseCell(b).used, b, EncCell, CellCheck, Same)
    {
      ManyExact(ParseCellCert, EncCellCert, CellCertCheck, Same, b[1..], b[0]);
      assert b[1..][..ParseCell(b).used - 1] == b[1..ParseCell(b).used];
    }
    forall x, c: Bytes | CellCheck(x) ensures ParseCell(EncCell(x) + c) == Ok(x, |EncCell(x)|) {
      ManyRoundTrips(ParseCellCert, EncCellCert, CellCertCheck, Same, x.certs, c);
      CanonsSame(x.certs);
      assert (EncCell(x) + c)[1..] == EncMany(EncCellCert, x.certs) + c;
    }
    forall b: Bytes, c: Bytes | ParseCell(b).Invalid? ensures ParseCell(b + c).Invalid? {
      CodecSteady(ParseCellCert, EncCellCert, CellCertCheck, Same);
      ManySteady(ParseCellCert, b[1..], c, b[0]);
      assert (b + c)[1..] == b[1..] + c;
    }
    IsCodec(ParseCell, EncCell, CellCheck, Same);
  }

  // ----- What stands where -----

  lemma CellCertBytes(b: Bytes, r: int, x: CellCert)
    requires Reports(r, x, ParseCellCert(b))
    ensures r == -2 <==> |b| < 3 || Short(b, 3, Two(b, 1))
    ensures r == -2 || (r == 3 + Two(b, 1) && x == CellCert(false, b[0], Two(b, 1), b[3..r]))
  {
  }

  /** The number of certificates, and the first of them. */
  lemma CellBytes(b: Bytes, r: int, x: Cell)
    requires Reports(r, x, ParseCell(b)) && r >= 0
    ensures 1 <= r <= |b| && !x.err && x.nCerts == |x.certs| == b[0] && (b[0] == 0 ==> r == 1)
    ensures b[0] > 0 ==>
      |b| >= 4 && !Short(b, 4, Two(b, 2)) && x.certs[0] == CellCert(false, b[1], Two(b, 2), b[4..4 + Two(b, 2)])
  {
    hide Exact, RoundTrips, Firm, ParseMany, EncMany, Canons, AllGood, EncCellCert, CellCertCheck;
    CellCertCodec();
    ManyExact(ParseCellCert, EncCellCert, CellCertCheck, Same, b[1..], b[0]);
    if b[0] == 0 {
      NoneParsed(ParseCellCert, b[1..]);
    } else {
      ConsParsed(ParseCellCert, b[1..], b[0]);
      assert b[1..][3..3 + Two(b, 2)] == b[4..4 + Two(b, 2)];
    }
  }
}
