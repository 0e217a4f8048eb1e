/** What the self-delimiting formats have in common. */
module Codecs {
  import opened Wire
  import CertFormat
  import LinkFormat
  import NetFormat
  import CellFormat
  import SocksFormat

  /** Success with n bytes and failure are not changed by more input. */
  lemma AllSteady()
    ensures Steady(CertFormat.ParseExt) && Steady(CertFormat.ParseCert)
    ensures Steady(LinkFormat.ParseSpec) && Steady(LinkFormat.ParseSpecList) && Steady(LinkFormat.ParseCreate2)
    ensures Steady(CellFormat.ParseCellCert) && Steady(CellFormat.ParseCell)
    ensures Steady(LinkFormat.ParseExtend2) && Steady(NetFormat.ParseAddr) && Steady(NetFormat.ParseNet)
    ensures Steady(SocksFormat.ParseDomain) && Steady(SocksFormat.ParseSocks4) && Steady(SocksFormat.ParseSocks5)
  {
    hide Codec, Steady;
    CertFormat.ExtCodec();
    CodecSteady(CertFormat.ParseExt, CertFormat.EncExt, CertFormat.ExtGood, CertFormat.ExtCanon);
    CertFormat.CertCodec();
    CodecSteady(CertFormat.ParseCert, CertFormat.EncCert, CertFormat.CertGood, CertFormat.CertCanon);
    LinkFormat.SpecCodec();
    CodecSteady(LinkFormat.ParseSpec, LinkFormat.EncSpec, LinkFormat.SpecGood, LinkFormat.SpecCanon);
    LinkFormat.ListCodec();
    CodecSteady(LinkFormat.ParseSpecList, LinkFormat.EncSpecList, LinkFormat.ListGood, LinkFormat.ListCanon);
    LinkFormat.Create2Codec();
    CodecSteady(LinkFormat.ParseCreate2, LinkFormat.EncCreate2, LinkFormat.Create2Check, Same);
    LinkFormat.Extend2Codec();
    CodecSteady(LinkFormat.ParseExtend2, LinkFormat.EncExtend2, LinkFormat.Extend2Good, LinkFormat.Extend2Canon);
    CellFormat.CellCertCodec();
    CodecSteady(CellFormat.ParseCellCert, CellFormat.EncCellCert, CellFormat.CellCertCheck, Same);
    CellFormat.CellCodec();
    CodecSteady(CellFormat.ParseCell, CellFormat.EncCell, CellFormat.CellCheck, Same);
    NetFormat.AddrSteady();
    NetFormat.NetSteady();
    SocksFormat.DomainCodec();
    CodecSteady(SocksFormat.ParseDomain, SocksFormat.EncDomain, SocksFormat.DomainCheck, Same);
    SocksFormat.Socks4Codec();
    CodecSteady(SocksFormat.ParseSocks4, SocksFormat.EncAnySocks4, SocksFormat.Socks4Good, SocksFormat.Socks4Canon);
    SocksFormat.Socks5Codec();
    CodecSteady(SocksFormat.ParseSocks5, SocksFormat.EncAnySocks5, SocksFormat.Socks5Good, SocksFormat.Socks5Canon);
  }

  /** So a strict prefix of an accepted input is reported as truncated, and never accepted or refused. */
  lemma PrefixTruncated(b: Bytes, k: nat)
    ensures CertFormat.ParseCert(b).Ok? && k < CertFormat.ParseCert(b).used ==>
      k <= |b| && CertFormat.ParseCert(b[..k]).Truncated?
    ensures LinkFormat.ParseExtend2(b).Ok? && k < LinkFormat.ParseExtend2(b).used ==>
      k <= |b| && LinkFormat.ParseExtend2(b[..k]).Truncated?
    ensures NetFormat.ParseNet(b).Ok? && k < NetFormat.ParseNet(b).used ==>
      k <= |b| && NetFormat.ParseNet(b[..k]).Truncated?
    ensures CellFormat.ParseCell(b).Ok? && k < CellFormat.ParseCell(b).used ==>
      k <= |b| && CellFormat.ParseCell(b[..k]).Truncated?
    ensures SocksFormat.ParseSocks4(b).Ok? && k < SocksFormat.ParseSocks4(b).used ==>
      k <= |b| && SocksFormat.ParseSocks4(b[..k]).Truncated?
    ensures SocksFormat.ParseSocks5(b).Ok? && k < SocksFormat.ParseSocks5(b).used ==>
      k <= |b| && SocksFormat.ParseSocks5(b[..k]).Truncated?
  {
    AllSteady();
    hide CertFormat.ParseCert, LinkFormat.ParseExtend2, NetFormat.ParseNet, CellFormat.ParseCell;
    hide SocksFormat.ParseSocks4, SocksFormat.ParseSocks5;
    if CertFormat.ParseCert(b).Ok? && k < CertFormat.ParseCert(b).used { AsksForMore(CertFormat.ParseCert, b, k); }
    if LinkFormat.ParseExtend2(b).Ok? && k < LinkFormat.ParseExtend2(b).used { AsksForMore(LinkFormat.ParseExtend2, b, k); }
    if NetFormat.ParseNet(b).Ok? && k < NetFormat.ParseNet(b).used { AsksForMore(NetFormat.ParseNet, b, k); }
    if CellFormat.ParseCell(b).Ok? && k < CellFormat.ParseCell(b).used { AsksForMore(CellFormat.ParseCell, b, k); }
    if SocksFormat.ParseSocks4(b).Ok? && k < SocksFormat.ParseSocks4(b).used { AsksForMore(SocksFormat.ParseSocks4, b, k); }
    if SocksFormat.ParseSocks5(b).Ok? && k < SocksFormat.ParseSocks5(b).used { AsksForMore(SocksFormat.ParseSocks5, b, k); }
  }
}
