/** Model of the first generation of the parser, tls-parser/tls-parser.c:
    `initialize_tls_structure` reads only the TLSPlaintext header (section
    6.2.1 of RFC 5246) into a TLSPlaintext structure and reports every
    failure with one code. */
module EarlyParser {
  import opened TlsTypes

  /** NO_ERROR and INVALID_INPUT_FILE, the only two codes of this version. */
  const NoErrorCode: nat := 0
  const InvalidInputFile: nat := 1

  /** The TLSPlaintext structure the decoder fills in place. `fragment` is
      the pointer raw + 5, modelled as the bytes it points to. */
  class TlsPlaintext {
    var contentType: Byte
    var major: Byte
    var minor: Byte
    var length: nat
    var fragment: seq<Byte>

    /** An uninitialised structure: its fields hold whatever they hold. */
    constructor (contentType0: Byte, major0: Byte, minor0: Byte, length0: nat, fragment0: seq<Byte>)
      ensures contentType == contentType0 && major == major0 && minor == minor0
      ensures length == length0 && fragment == fragment0
    {
      contentType, major, minor := contentType0, major0, minor0;
      length, fragment := length0, fragment0;
    }
  }

  /** The decoder accepts a buffer of more than four bytes with content type
      22 and a supported version; the length field is never compared with
      the buffer. */
  predicate Accepts(raw: seq<Byte>): (r: bool)
    ensures r <==> |raw| > 4 && raw[0] == Handshake
                   && exists v: TlsVersion :: v.Major() == raw[1] && v.Minor() == raw[2]
  {
    var r := |raw| > 4 && raw[0] == Handshake && raw[1] == 0x03
             && (raw[2] == 0x01 || raw[2] == 0x02 || raw[2] == 0x03);
    assert r ==> (if raw[2] == 1 then Tls10 else if raw[2] == 2 then Tls11 else Tls12).Minor() == raw[2];
    r
  }

  /** The TLSPlaintext header is accepted on content type and major version
      alone, before the minor version is looked at. */
  predicate MajorAccepted(raw: seq<Byte>) {
    |raw| > 4 && raw[0] == Handshake && raw[1] == 0x03
  }

  /** `initialize_tls_structure(raw, size, tls_message)`. */
  method InitializeTlsStructure(raw: seq<Byte>, msg: TlsPlaintext) returns (err: nat)
    modifies msg
    ensures err == (if Accepts(raw) then NoErrorCode else InvalidInputFile)
    // Lines 34-40: nothing is written before the content type and major
    // version are accepted.
    ensures !MajorAccepted(raw) ==> unchanged(msg)
    // Lines 42-47: type and major are written before the minor version is
    // tested; the other fields keep their old values when it fails.
    ensures MajorAccepted(raw) ==> msg.contentType == Handshake && msg.major == 0x03
    ensures MajorAccepted(raw) && !Accepts(raw) ==>
              msg.minor == old(msg.minor) && msg.length == old(msg.length)
              && msg.fragment == old(msg.fragment)
    // Lines 49-57: on success the 16-bit length and the fragment after the
    // 5-byte header.
    ensures Accepts(raw) ==>
              msg.minor == raw[2] && msg.length == Be16(raw[3], raw[4]) && msg.fragment == raw[5..]
  {
    if |raw| <= 4 {
      return InvalidInputFile;
    }
    if raw[0] != Handshake || raw[1] != 0x03 {
      return InvalidInputFile;
    }
    msg.contentType := Handshake;
    msg.major := raw[1];
    if raw[2] != 0x01 && raw[2] != 0x02 && raw[2] != 0x03 {
      return InvalidInputFile;
    }
    msg.minor := raw[2];
    msg.length := 0;
    // `length = (length << 8) | raw[i]` on a `uint16_t`: the shift leaves the
    // low byte zero, so the OR adds raw[i], and the store wraps modulo 2^16.
    for i := 3 to 5
      invariant msg.length == BeValue(raw[3..i])
      invariant i <= 4 ==> msg.length < 256
      invariant msg.contentType == Handshake && msg.major == raw[1] && msg.minor == raw[2]
      invariant msg.fragment == old(msg.fragment)
    {
      assert raw[3..i + 1] == raw[3..i] + [raw[i]];
      BeValueSnoc(raw[3..i], raw[i]);
      msg.length := U16(msg.length * 256 + raw[i]);
    }
    assert raw[3..5] == [raw[3], raw[4]];
    BeValuePair(raw[3], raw[4]);
    msg.fragment := raw[5..];
    return NoErrorCode;
  }
}
