/** The record layer as both later generations decode it: a 5-byte
    TLSPlaintext header (section 6.2.1 of RFC 5246) followed by the 4-byte
    handshake header (section 7.4 of RFC 5246) and the handshake body.

      offset 0      content type (22, handshake)
      offset 1..2   protocol version
      offset 3..4   fragment length fLength, big-endian
      offset 5      handshake type
      offset 6..8   body length mLength, big-endian
      offset 9..    body

    The HandshakeMessage structure both header files declare is the class
    below; Envelope is the value of its fields. */
module Record {
  import opened TlsTypes

  /** The fields of HandshakeMessage as one value. */
  datatype Envelope = Envelope(
    cType: Byte,
    major: Byte,
    minor: Byte,
    fLength: nat,
    hsType: Byte,
    mLength: nat,
    body: seq<Byte>)

  /** An envelope whose lengths tie up: fLength counts the body and the
      4-byte handshake header, and fits the 16-bit field. */
  predicate ValidEnvelope(e: Envelope) {
    && e.cType == Handshake
    && e.mLength == |e.body|
    && e.fLength == e.mLength + 4
    && e.fLength < 0x1_0000
  }

  /** The record whose decoding is `e`. */
  function Encode(e: Envelope): (raw: seq<Byte>)
    requires ValidEnvelope(e)
    ensures |raw| == e.fLength + 5 && |raw| >= 9
    ensures raw[0] == e.cType && raw[1] == e.major && raw[2] == e.minor
    ensures Be16(raw[3], raw[4]) == e.fLength
    ensures raw[5] == e.hsType
    ensures Be24(raw[6], raw[7], raw[8]) == e.mLength
    ensures raw[9..] == e.body
  {
    [e.cType, e.major, e.minor] + Be16Bytes(e.fLength) + [e.hsType]
      + Be24Bytes(e.mLength) + e.body
  }

  /** Both length cross-checks of a record: fLength + 5 is the buffer size
      and fLength is mLength + 4. */
  predicate Framed(raw: seq<Byte>) {
    && |raw| >= 9
    && Be16(raw[3], raw[4]) + 5 == |raw|
    && Be16(raw[3], raw[4]) == Be24(raw[6], raw[7], raw[8]) + 4
  }

  /** The fields a successful decoder stores: the content type constant, the
      version bytes, both lengths, the type byte and a copy of the body. */
  function EnvelopeOf(raw: seq<Byte>): Envelope
    requires |raw| >= 9
  {
    Envelope(Handshake, raw[1], raw[2], Be16(raw[3], raw[4]), raw[5],
             Be24(raw[6], raw[7], raw[8]), raw[9..])
  }

  /** Every framed handshake record is the encoding of what is read from it,
      and its body is at most 65531 bytes long. */
  lemma EncodeEnvelopeOf(raw: seq<Byte>)
    requires Framed(raw) && raw[0] == Handshake
    ensures ValidEnvelope(EnvelopeOf(raw))
    ensures Encode(EnvelopeOf(raw)) == raw
    ensures EnvelopeOf(raw).mLength <= 0xFFFB
  {
    var e := EnvelopeOf(raw);
    Be16BytesOf(raw[3], raw[4]);
    Be24BytesOf(raw[6], raw[7], raw[8]);
    assert raw == [raw[0], raw[1], raw[2]] + raw[3..5] + [raw[5]] + raw[6..9] + raw[9..];
  }

  /** Reading the fields back out of an encoded envelope gives the envelope,
      and an encoded envelope passes both length cross-checks. */
  lemma EnvelopeOfEncode(e: Envelope)
    requires ValidEnvelope(e)
    ensures Framed(Encode(e))
    ensures EnvelopeOf(Encode(e)) == e
  {
  }

  /** A nine-byte record with an empty body of handshake type `hsType`. */
  function EmptyBodyRecord(hsType: Byte): seq<Byte> {
    [Handshake, 3, 1, 0, 4, hsType, 0, 0, 0]
  }

  /** The empty-body record passes both length cross-checks. */
  lemma EmptyBodyFramed(t: Byte)
    ensures Framed(EmptyBodyRecord(t))
  {
  }

  /** The empty-body record is a TLS 1.0 handshake record carrying its
      handshake type at offset 5. */
  lemma EmptyBodyType(t: Byte)
    ensures |EmptyBodyRecord(t)| == 9 && EmptyBodyRecord(t)[5] == t
    ensures EmptyBodyRecord(t)[0] == Handshake && EmptyBodyRecord(t)[1] == 3 && EmptyBodyRecord(t)[2] == 1
  {
  }

  /** The envelope read from the empty-body record has type `t` and no body. */
  lemma EmptyBodyEnvelope(t: Byte)
    ensures EnvelopeOf(EmptyBodyRecord(t)).hsType == t
    ensures EnvelopeOf(EmptyBodyRecord(t)).mLength == 0
    ensures EnvelopeOf(EmptyBodyRecord(t)).body == []
  {
  }

  /** The HandshakeMessage structure the record decoders fill in place. */
  class HandshakeMessage {
    var cType: Byte
    var major: Byte
    var minor: Byte
    var fLength: nat
    var hsType: Byte
    var mLength: nat
    var body: seq<Byte>

    /** `HandshakeMessage tls_message = { 0 };` (or the memset to zero). */
    constructor ()
      ensures cType == 0 && major == 0 && minor == 0 && fLength == 0
      ensures hsType == 0 && mLength == 0 && body == []
    {
      cType, major, minor, fLength := 0, 0, 0, 0;
      hsType, mLength, body := 0, 0, [];
    }

    /** The current field values. */
    function Fields(): Envelope
      reads this
    {
      Envelope(cType, major, minor, fLength, hsType, mLength, body)
    }
  }
}
