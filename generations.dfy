/** How the three generations of the decoder relate, and whole-record
    scenarios run through the two later ones. */
module Generations {
  import opened TlsTypes
  import opened Record
  import Src = SrcParser
  import Root = RootParser
  import Early = EarlyParser

  /** The version tests of the later generations are the same test. */
  lemma VersionTestsAgree(major: Byte, minor: Byte)
    ensures Src.IsValidTlsVersion(major, minor) == !Root.VersionRejected(major, minor)
  {
  }

  /** The two later record decoders agree on every record except one of
      exactly four bytes, which both reject: the root version with
      InvalidFileLength before looking at it, the src version with
      InvalidContentType, InvalidVersion or InvalidFileLength, whichever
      of its tests fails first. */
  lemma RecordDecodersAgree(raw: seq<Byte>)
    ensures |raw| != 4 ==> Src.DecodeRecord(raw) == Root.DecodeRecord(raw)
    ensures |raw| == 4 ==> Root.DecodeRecord(raw) == Err(InvalidFileLength)
    ensures |raw| == 4 && raw[0] != Handshake ==> Src.DecodeRecord(raw) == Err(InvalidContentType)
    ensures |raw| == 4 && raw[0] == Handshake && !Src.IsValidTlsVersion(raw[1], raw[2]) ==>
              Src.DecodeRecord(raw) == Err(InvalidVersion)
    ensures |raw| == 4 && Src.HeaderAccepted(raw) ==> Src.DecodeRecord(raw) == Err(InvalidFileLength)
  {
    if |raw| > 4 {
      VersionTestsAgree(raw[1], raw[2]);
    }
  }

  /** A four-byte record with the wrong content type gets a different code
      from each later decoder. */
  lemma FourByteRecordCodesDiffer()
    ensures Src.DecodeRecord([0x17, 3, 1, 0]) == Err(InvalidContentType)
    ensures Root.DecodeRecord([0x17, 3, 1, 0]) == Err(InvalidFileLength)
  {
  }

  /** Every record a later decoder accepts is accepted by the early one,
      which reads the same fragment length and sees the handshake header
      and body as its fragment. */
  lemma LaterDecodersRefineEarly(raw: seq<Byte>)
    requires Src.DecodeRecord(raw).Ok?
    ensures Early.Accepts(raw)
    ensures Be16(raw[3], raw[4]) == Src.DecodeRecord(raw).value.fLength
    ensures var e := Src.DecodeRecord(raw).value;
      raw[5..] == [e.hsType] + Be24Bytes(e.mLength) + e.body
  {
    var e := Src.DecodeRecord(raw).value;
    Src.EncodeOfDecodeRecord(raw);
    assert raw == [e.cType, e.major, e.minor] + Be16Bytes(e.fLength) + ([e.hsType] + Be24Bytes(e.mLength) + e.body);
  }

  /** The early decoder never compares the length field with the buffer: a
      five-byte record declaring a 65535-byte fragment passes it and is
      rejected by both later decoders. */
  lemma EarlyAcceptsUnframed()
    ensures Early.Accepts([Handshake, 3, 1, 0xFF, 0xFF])
    ensures Src.DecodeRecord([Handshake, 3, 1, 0xFF, 0xFF]) == Err(InvalidFileLength)
    ensures Root.DecodeRecord([Handshake, 3, 1, 0xFF, 0xFF]) == Err(InvalidFileLength)
  {
    assert Src.IsValidTlsVersion(3, 1);
  }

  // ---------------------------------------------------------------------
  // Whole-record scenarios
  // ---------------------------------------------------------------------

  /** A ServerHelloDone record: header 16 03 01 00 04, handshake header
      0E 00 00 00. The src decoder accepts it, type 14, empty body, and its
      parser accepts the body. */
  lemma ServerHelloDoneRecordAccepted()
    ensures EmptyBodyRecord(ServerHelloDoneType) == [0x16, 0x03, 0x01, 0x00, 0x04, 0x0E, 0x00, 0x00, 0x00]
    ensures var r := Src.DecodeRecord(EmptyBodyRecord(ServerHelloDoneType));
      r.Ok? && r.value.hsType == ServerHelloDoneType && r.value.mLength == 0
    ensures Src.ParseMessage(EmptyBodyRecord(ServerHelloDoneType)) == Some(NoError)
  {
    Src.EmptyBodyAccepted(ServerHelloDoneType);
    var r := Src.DecodeRecord(EmptyBodyRecord(ServerHelloDoneType));
    assert ValidEnvelope(r.value);
  }

  /** The same ServerHelloDone record passes the root decoder and parser. */
  lemma ServerHelloDoneRecordAcceptedByRoot()
    ensures Root.ParseMessage(EmptyBodyRecord(ServerHelloDoneType)) == NoError
  {
    Root.EmptyBodyAccepted(ServerHelloDoneType);
  }

  /** A 14-byte file whose header declares a 10-byte fragment. */
  lemma ShortFileRejected()
    ensures var raw := [Handshake, 3, 1, 0, 10, 0, 0, 0, 0, 0, 0, 0, 0, 0];
      Src.ParseMessage(raw) == Some(InvalidFileLength) && Root.ParseMessage(raw) == InvalidFileLength
  {
  }

  /** A record of content type 0x17, application data. */
  lemma ApplicationDataRejected()
    ensures var raw := [0x17, 3, 1, 0, 4, ServerHelloDoneType, 0, 0, 0];
      Src.ParseMessage(raw) == Some(InvalidContentType) && Root.ParseMessage(raw) == InvalidContentType
  {
  }

  /** A record with version bytes 03 04. */
  lemma Version13Rejected()
    ensures var raw := [Handshake, 3, 4, 0, 4, ServerHelloDoneType, 0, 0, 0];
      Src.ParseMessage(raw) == Some(InvalidVersion) && Root.ParseMessage(raw) == InvalidVersion
  {
    assert !Src.IsValidTlsVersion(3, 4) && Root.VersionRejected(3, 4);
  }

  /** A 37-byte ClientHello body with a good version: one byte short for the
      src parser, while the root parser checks only the version. */
  lemma ShortClientHello()
    ensures var body := [3, 1] + seq(35, _ => 0);
      Src.Dispatch(ClientHelloType, body) == Some(InvalidFileLength)
      && Root.Dispatch(ClientHelloType, body) == NoError
  {
    var body := [3, 1] + seq(35, _ => 0);
    assert |body| == 37 && body[0] == 3 && body[1] == 1;
  }

  /** A ServerKeyExchange body whose dh_p is longer than the declared params
      length is accepted by both generations: neither ever reports a length
      mismatch for it. */
  lemma OverlongDhPNotRejected()
    ensures Src.Dispatch(ServerKeyExchangeType, Root.OverlongDhPBody()) == Some(NoError)
    ensures Root.Dispatch(ServerKeyExchangeType, Root.OverlongDhPBody()) == NoError
  {
    Root.OverlongDhPAccepted();
  }

  /** A handshake type no parser handles (CertificateRequest, 13): the src
      dispatch selects no parser; the root one reports it as unsupported. */
  lemma CertificateRequestUnsupported(body: seq<Byte>)
    requires |body| < 0x1_0000
    ensures Src.Dispatch(13, body).None?
    ensures Root.Dispatch(13, body) == UnsupportedHandshakeMessageType
  {
  }
}
