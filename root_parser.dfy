/** Model of the middle generation of the parser, tls_parser.c at the
    repository root: the record-layer decoder, the dispatch in `main`, the
    version checks of the two Hello parsers, and the Certificate,
    ServerKeyExchange, ServerHelloDone and ClientKeyExchange parsers.

    Several parsers read body bytes before any size test; each read the C
    makes unchecked gets a guard that returns InvalidFileLength, marked in a
    comment. */
module RootParser {
  import opened TlsTypes
  import opened Record

  /** The version test written out inline at lines 112, 194 and 294: true
      when the two bytes are not TLS 1.0, 1.1 or 1.2. */
  function VersionRejected(major: Byte, minor: Byte): (r: bool)
    ensures r <==> !exists v: TlsVersion :: v.Major() == major && v.Minor() == minor
  {
    var r := major != 0x03 || (minor != 0x01 && minor != 0x02 && minor != 0x03);
    assert !r ==> (if minor == 1 then Tls10 else if minor == 2 then Tls11 else Tls12).Minor() == minor;
    r
  }

  // ---------------------------------------------------------------------
  // Record layer
  // ---------------------------------------------------------------------

  /** The record passes the first three tests: more than four bytes,
      content type 22 and a supported version. */
  predicate HeaderAccepted(raw: seq<Byte>) {
    |raw| > 4 && raw[0] == Handshake && !VersionRejected(raw[1], raw[2])
  }

  /** What `initialize_tls_structure` returns and, on success, the fields it
      stores. */
  function DecodeRecord(raw: seq<Byte>): (r: Result<Envelope>)
    ensures r.Ok? ==> ValidEnvelope(r.value) && !VersionRejected(r.value.major, r.value.minor)
    ensures r.Ok? ==> r.value.mLength <= 0xFFFB
    ensures r.Err? ==> r.error in {InvalidFileLength, InvalidContentType, InvalidVersion}
    ensures |raw| <= 4 ==> r == Err(InvalidFileLength)
    ensures |raw| > 4 && raw[0] != Handshake ==> r == Err(InvalidContentType)
    ensures |raw| > 4 && raw[0] == Handshake && VersionRejected(raw[1], raw[2]) ==> r == Err(InvalidVersion)
  {
    if |raw| <= 4 then Err(InvalidFileLength)
    else if raw[0] != Handshake then Err(InvalidContentType)
    else if VersionRejected(raw[1], raw[2]) then Err(InvalidVersion)
    else if Be16(raw[3], raw[4]) + 5 != |raw| then Err(InvalidFileLength)
    // Guard: with fLength == size - 5 < 4 the C reads raw[5..8] past the
    // end; the body-length test that follows fails whatever they hold.
    else if |raw| < 9 then Err(InvalidFileLength)
    else if Be16(raw[3], raw[4]) != Be24(raw[6], raw[7], raw[8]) + 4 then Err(InvalidFileLength)
    else Ok(EnvelopeOf(raw))
  }

  /** The verdict in full: a record is accepted exactly when its header
      passes and both length cross-checks hold, and a header that passes
      with a length that does not is an invalid file length. */
  lemma DecodeRecordVerdict(raw: seq<Byte>)
    ensures DecodeRecord(raw).Ok? <==> HeaderAccepted(raw) && Framed(raw)
    ensures HeaderAccepted(raw) && Framed(raw) ==> DecodeRecord(raw) == Ok(EnvelopeOf(raw))
    ensures HeaderAccepted(raw) && !Framed(raw) ==> DecodeRecord(raw) == Err(InvalidFileLength)
    ensures DecodeRecord(raw).Ok? ==> DecodeRecord(raw).value.hsType == raw[5]
    ensures DecodeRecord(raw).Ok? ==> DecodeRecord(raw).value.mLength == Be24(raw[6], raw[7], raw[8])
  {
  }

  /** Every valid envelope with a supported version is accepted and decoded
      back to itself. */
  lemma DecodeRecordOfEncode(e: Envelope)
    requires ValidEnvelope(e) && !VersionRejected(e.major, e.minor)
    ensures DecodeRecord(Encode(e)) == Ok(e)
  {
    EnvelopeOfEncode(e);
  }

  /** Every accepted record is exactly the encoding of what it decodes to;
      in particular the body is raw[9..9 + mLength] == raw[9..size]. */
  lemma EncodeOfDecodeRecord(raw: seq<Byte>)
    requires DecodeRecord(raw).Ok?
    ensures Encode(DecodeRecord(raw).value) == raw
    ensures DecodeRecord(raw).value.body == raw[9..9 + DecodeRecord(raw).value.mLength]
  {
    EncodeEnvelopeOf(raw);
  }

  /** `initialize_tls_structure(raw, size, tls_message)`: fills `msg` field
      by field; on failure the fields written before the failing test keep
      their new values. */
  method InitializeTlsStructure(raw: seq<Byte>, msg: HandshakeMessage) returns (err: ErrorCode)
    modifies msg
    ensures err == DecodeRecord(raw).Status()
    ensures err == NoError <==> HeaderAccepted(raw) && Framed(raw)
    ensures HeaderAccepted(raw) && !Framed(raw) ==> err == InvalidFileLength
    // The rejection order of lines 96-114; nothing is written before it.
    ensures |raw| <= 4 ==> err == InvalidFileLength
    ensures |raw| > 4 && raw[0] != Handshake ==> err == InvalidContentType
    ensures |raw| > 4 && raw[0] == Handshake && VersionRejected(raw[1], raw[2]) ==> err == InvalidVersion
    ensures !HeaderAccepted(raw) ==> unchanged(msg)
    // Lines 118-124: type, version and fragment length are stored before the
    // fragment length is compared.
    ensures HeaderAccepted(raw) ==>
              msg.cType == Handshake && msg.major == raw[1] && msg.minor == raw[2]
              && msg.fLength == Be16(raw[3], raw[4])
    // Lines 131-135: type and body length are stored once the fragment length fits.
    ensures HeaderAccepted(raw) && |raw| >= 9 && Be16(raw[3], raw[4]) + 5 == |raw| ==>
              msg.hsType == raw[5] && msg.mLength == Be24(raw[6], raw[7], raw[8])
    ensures !(HeaderAccepted(raw) && |raw| >= 9 && Be16(raw[3], raw[4]) + 5 == |raw|) ==>
              msg.hsType == old(msg.hsType) && msg.mLength == old(msg.mLength)
    // Lines 145-146: the body is copied only on success.
    ensures err != NoError ==> msg.body == old(msg.body)
    ensures err == NoError ==> msg.Fields() == DecodeRecord(raw).value
  {
    DecodeRecordVerdict(raw);
    if |raw| <= 4 {
      return InvalidFileLength;
    }
    if raw[0] != Handshake {
      return InvalidContentType;
    }
    if VersionRejected(raw[1], raw[2]) {
      return InvalidVersion;
    }
    msg.cType := Handshake;
    msg.major := raw[1];
    msg.minor := raw[2];
    msg.fLength := Be16(raw[3], raw[4]);
    if msg.fLength + 5 != |raw| {
      return InvalidFileLength;
    }
    // Guard: raw[5..8] are past the end of a record shorter than nine bytes.
    if |raw| < 9 {
      return InvalidFileLength;
    }
    msg.hsType := raw[5];
    msg.mLength := Be24(raw[6], raw[7], raw[8]);
    if msg.fLength != msg.mLength + 4 {
      return InvalidFileLength;
    }
    msg.body := raw[9..9 + msg.mLength];
    return NoError;
  }

  // ---------------------------------------------------------------------
  // Body parsers
  // ---------------------------------------------------------------------

  /** `parse_client_hello`: only the version is checked; the fields read
      after it are printed and never validated. */
  function ParseClientHello(message: seq<Byte>): (r: ErrorCode)
    ensures r == InvalidFileLength <==> |message| == 0 || (|message| == 1 && message[0] == 0x03)
    ensures |message| >= 1 && message[0] != 0x03 ==> r == InvalidVersion
    ensures |message| >= 2 ==> (r == NoError <==> exists v: TlsVersion :: v.Major() == message[0] && v.Minor() == message[1])
    ensures |message| >= 2 ==> (r == InvalidVersion <==> VersionRejected(message[0], message[1]))
    ensures r in {NoError, InvalidVersion, InvalidFileLength}
  {
    // Guard: line 194 reads message[0] of a body of any size.
    if |message| < 1 then InvalidFileLength
    else if message[0] != 0x03 then InvalidVersion
    // Guard: the `||` of line 194 reads message[1] once message[0] is 0x03.
    else if |message| < 2 then InvalidFileLength
    else if VersionRejected(message[0], message[1]) then InvalidVersion
    else NoError
  }

  /** `parse_server_hello`: only the version is checked, as in ClientHello. */
  function ParseServerHello(message: seq<Byte>): (r: ErrorCode)
    ensures r == InvalidFileLength <==> |message| == 0 || (|message| == 1 && message[0] == 0x03)
    ensures |message| >= 1 && message[0] != 0x03 ==> r == InvalidVersion
    ensures |message| >= 2 ==> (r == NoError <==> exists v: TlsVersion :: v.Major() == message[0] && v.Minor() == message[1])
    ensures |message| >= 2 ==> (r == InvalidVersion <==> VersionRejected(message[0], message[1]))
    ensures r in {NoError, InvalidVersion, InvalidFileLength}
  {
    // Guard: line 294 reads message[0] of a body of any size.
    if |message| < 1 then InvalidFileLength
    else if message[0] != 0x03 then InvalidVersion
    // Guard: the `||` of line 294 reads message[1] once message[0] is 0x03.
    else if |message| < 2 then InvalidFileLength
    else if VersionRejected(message[0], message[1]) then InvalidVersion
    else NoError
  }

  /** `parse_certificate`: only an empty chain is rejected. */
  function ParseCertificate(message: seq<Byte>): (r: ErrorCode)
    ensures r == NoError <==> |message| != 0
    ensures r != NoError ==> r == InvalidFileLength
  {
    if |message| == 0 then InvalidFileLength else NoError
  }

  /** `parse_server_hello_done`: only an empty body is accepted. */
  function ParseServerHelloDone(message: seq<Byte>): (r: ErrorCode)
    ensures r == NoError <==> message == []
    ensures r != NoError ==> r == InvalidFileLength
  {
    if |message| != 0 then InvalidFileLength else NoError
  }

  /** `parse_client_key_exchange`: the first body byte must be 0x16, the
      record content type (not CLIENT_KEY_EXCHANGE, 0x10); the counter the C
      then updates is uninitialised and `length < 0` is never true of a
      `uint16_t`, so the value is the public-key length it reads. */
  function ParseClientKeyExchange(message: seq<Byte>): (r: Result<nat>)
    ensures r == Err(UnsupportedHandshakeMessageType) <==> |message| >= 1 && message[0] != Handshake
    ensures r.Ok? <==> |message| >= 2 && message[0] == Handshake
    ensures r.Ok? ==> 0x1600 <= r.value < 0x1700 && r.value % 256 == message[1]
  {
    // Guard: line 451 reads message[0] of a body of any size.
    if |message| < 1 then Err(InvalidFileLength)
    else if message[0] != Handshake then Err(UnsupportedHandshakeMessageType)
    // Guard: line 460 reads message[1].
    else if |message| < 2 then Err(InvalidFileLength)
    else Ok(Be16(message[0], message[1]))
  }

  // ---------------------------------------------------------------------
  // ServerKeyExchange (the ServerDHParams of section 7.4.3 of RFC 5246)
  // ---------------------------------------------------------------------

  /** What `parse_server_key_exchange` computes: the declared params length,
      the three vector lengths, and the final values of the two `uint16_t`
      counters `length` and `indexOfProcessedByte`. */
  datatype ServerDhReport = ServerDhReport(
    mLength: nat,
    dhPLength: nat,
    dhGLength: nat,
    dhYsLength: nat,
    remaining: nat,
    processed: nat)

  /** The offset the C reads the dh_g length from, as written: the cursor
      counts 3 + 2 + p bytes and forgets the type byte at offset 0. */
  function DhGLengthAt(p: Uint16): (at: Uint16)
    ensures p + 5 < 0x1_0000 ==> at == p + 5
  {
    Add16(5, p)
  }

  /** The offset the C reads the dh_Ys length from, as written: the cursor
      at the dh_g length, plus 2, plus g, each sum stored in a `uint16_t`. */
  function DhYsLengthAt(gAt: Uint16, g: Uint16): (at: Uint16)
    ensures gAt + 2 + g < 0x1_0000 ==> at == gAt + 2 + g
  {
    Add16(Add16(gAt, 2), g)
  }

  /** The running `length` counter: the declared params length stored in a
      `uint16_t`, then reduced by 2, p, 2, g, 2 and Ys, each difference
      stored back. */
  function Countdown(start: Uint16, p: Uint16, g: Uint16, ys: Uint16): (length: Uint16)
    ensures 6 + p + g + ys <= start ==> length == start - (6 + p + g + ys)
    ensures start < 6 + p + g + ys <= start + 0x1_0000 ==> length == start - (6 + p + g + ys) + 0x1_0000
  {
    Sub16(Sub16(Sub16(Sub16(Sub16(Sub16(start, 2), p), 2), g), 2), ys)
  }

  /** The counter ends at the declared params length minus the bytes the
      three vectors and their length fields claim, modulo 2^16: it never
      saturates or stops at zero. */
  lemma CountdownWraps(mLength: nat, p: Uint16, g: Uint16, ys: Uint16)
    ensures Countdown(U16(mLength), p, g, ys) == U16(mLength - (2 + p) - (2 + g) - (2 + ys))
  {
    var l1 := Sub16(U16(mLength), 2);
    CountdownStep(mLength, U16(mLength), 2);
    var l2 := Sub16(l1, p);
    CountdownStep(mLength - 2, l1, p);
    var l3 := Sub16(l2, 2);
    CountdownStep(mLength - 2 - p, l2, 2);
    var l4 := Sub16(l3, g);
    CountdownStep(mLength - 2 - p - 2, l3, g);
    var l5 := Sub16(l4, 2);
    CountdownStep(mLength - 2 - p - 2 - g, l4, 2);
    CountdownStep(mLength - 2 - p - 2 - g - 2, l5, ys);
  }

  /** One step of the counter: subtracting from a stored value is
      subtracting from the exact value, modulo 2^16. */
  lemma CountdownStep(x: int, l: Uint16, d: Uint16)
    requires l == U16(x)
    ensures Sub16(l, d) == U16(x - d)
  {
    Sub16Wraps(l, d);
    U16Sub(x, d);
  }

  /** What `parse_server_key_exchange` returns, with the values it computes. */
  function ServerKeyExchangeSpec(m: seq<Byte>): (r: Result<ServerDhReport>)
    ensures r.Err? ==> r.error == InvalidFileLength || r.error == UnsupportedHandshakeMessageType
    ensures r.Ok? ==> r.value.remaining < 0x1_0000 && r.value.processed < 0x1_0000
  {
    // Guard: line 386 reads message[0] of a body of any size.
    if |m| < 1 then Err(InvalidFileLength)
    else if m[0] != 0x0C then Err(UnsupportedHandshakeMessageType)
    // Guard: lines 394 and 400 read message[1..5].
    else if |m| < 6 then Err(InvalidFileLength)
    else
      var mLength := Be24(m[1], m[2], m[3]);
      var p := Be16(m[4], m[5]);
      var gAt := DhGLengthAt(p);
      // Guard: line 413 reads two bytes at the cursor.
      if |m| < gAt + 2 then Err(InvalidFileLength)
      else
        var g := Be16(m[gAt], m[gAt + 1]);
        var ysAt := DhYsLengthAt(gAt, g);
        // Guard: line 426 reads two bytes at the cursor.
        if |m| < ysAt + 2 then Err(InvalidFileLength)
        else
          var ys := Be16(m[ysAt], m[ysAt + 1]);
          Ok(ServerDhReport(mLength, p, g, ys, Countdown(U16(mLength), p, g, ys), Add16(Add16(ysAt, 2), ys)))
  }

  /** `parse_server_key_exchange(message, size)`: two `uint16_t` counters,
      `length` and `indexOfProcessedByte`, walk the three DH vectors. The
      three `length < 0` tests (lines 403, 416 and 429) cannot succeed on
      an unsigned counter and are left out of the body. */
  method ParseServerKeyExchange(message: seq<Byte>) returns (r: Result<ServerDhReport>)
    ensures r == ServerKeyExchangeSpec(message)
  {
    var index: Uint16 := 0;
    if |message| < 1 {
      return Err(InvalidFileLength);
    }
    if message[0] != 0x0C {
      return Err(UnsupportedHandshakeMessageType);
    }
    if |message| < 6 {
      return Err(InvalidFileLength);
    }
    var mLength := Be24(message[1], message[2], message[3]);
    var length: Uint16 := U16(mLength);
    index := Add16(index, 3);
    length := Sub16(length, 2);
    var dhP := Be16(message[4], message[5]);
    index := Add16(index, 2);
    length := Sub16(length, dhP);
    index := Add16(index, dhP);
    length := Sub16(length, 2);
    assert index == DhGLengthAt(dhP);
    if |message| < index + 2 {
      return Err(InvalidFileLength);
    }
    var dhG := Be16(message[index], message[index + 1]);
    index := Add16(index, 2);
    length := Sub16(length, dhG);
    index := Add16(index, dhG);
    length := Sub16(length, 2);
    assert index == DhYsLengthAt(DhGLengthAt(dhP), dhG);
    if |message| < index + 2 {
      return Err(InvalidFileLength);
    }
    var dhYs := Be16(message[index], message[index + 1]);
    index := Add16(index, 2);
    length := Sub16(length, dhYs);
    index := Add16(index, dhYs);
    return Ok(ServerDhReport(mLength, dhP, dhG, dhYs, length, index));
  }

  /** The declared ServerDHParams length (bytes 1..3) never decides the
      verdict: the counter it starts is only compared by the dead
      `length < 0` tests. (When the 16-bit cursor wraps back below offset 4
      it reads the dh_g length out of those very bytes; that case is
      excluded.) */
  lemma ParamsLengthNeverChecked(m: seq<Byte>, b1: Byte, b2: Byte, b3: Byte)
    requires |m| >= 6 && DhGLengthAt(Be16(m[4], m[5])) >= 4
    ensures ServerKeyExchangeSpec(m).Status() == ServerKeyExchangeSpec(m[1 := b1][2 := b2][3 := b3]).Status()
  {
    var m' := m[1 := b1][2 := b2][3 := b3];
    assert |m'| == |m| && m'[0] == m[0] && m'[4] == m[4] && m'[5] == m[5];
    var gAt := DhGLengthAt(Be16(m[4], m[5]));
    if gAt + 2 <= |m| {
      assert m'[gAt] == m[gAt] && m'[gAt + 1] == m[gAt + 1];
    }
  }

  /** Apart from the guarded reads, the only failure is a first byte other
      than 0x0C, reported as an unsupported handshake message type. */
  lemma ServerKeyExchangeVerdict(m: seq<Byte>)
    ensures ServerKeyExchangeSpec(m) == Err(UnsupportedHandshakeMessageType) <==> |m| >= 1 && m[0] != 0x0C
    ensures ServerKeyExchangeSpec(m) == Err(InvalidFileLength) ==>
              |m| < 6 || |m| < DhGLengthAt(Be16(m[4], m[5])) + 2
              || |m| < DhYsLengthAt(DhGLengthAt(Be16(m[4], m[5])),
                                    Be16(m[DhGLengthAt(Be16(m[4], m[5]))], m[DhGLengthAt(Be16(m[4], m[5])) + 1])) + 2
  {
  }

  /** When no counter wraps, the cursor reads the dh_g length at offset
      5 + p and the dh_Ys length at 7 + p + g, one byte earlier than the
      layout type(1) || length(3) || p-length(2) || p || g-length(2) || ...
      puts them, and the counters end at 9 + p + g + Ys and at mLength
      minus the bytes the three vectors claim, reduced modulo 2^16. */
  lemma ServerKeyExchangeLayout(m: seq<Byte>)
    requires ServerKeyExchangeSpec(m).Ok?
    requires var rep := ServerKeyExchangeSpec(m).value;
      9 + rep.dhPLength + rep.dhGLength + rep.dhYsLength < 0x1_0000
    ensures var rep := ServerKeyExchangeSpec(m).value;
      && rep.dhPLength == Be16(m[4], m[5])
      && 7 + rep.dhPLength <= |m|
      && rep.dhGLength == Be16(m[5 + rep.dhPLength], m[6 + rep.dhPLength])
      && 9 + rep.dhPLength + rep.dhGLength <= |m|
      && rep.dhYsLength == Be16(m[7 + rep.dhPLength + rep.dhGLength], m[8 + rep.dhPLength + rep.dhGLength])
      && rep.processed == 9 + rep.dhPLength + rep.dhGLength + rep.dhYsLength
      && rep.remaining == U16(rep.mLength - 6 - rep.dhPLength - rep.dhGLength - rep.dhYsLength)
  {
    var rep := ServerKeyExchangeSpec(m).value;
    var p := Be16(m[4], m[5]);
    assert rep.dhPLength == p;
    var gAt := DhGLengthAt(p);
    assert gAt == 5 + p;
    var g := Be16(m[gAt], m[gAt + 1]);
    assert rep.dhGLength == g;
    var ysAt := DhYsLengthAt(gAt, g);
    assert ysAt == 7 + p + g;
    assert rep.dhYsLength == Be16(m[ysAt], m[ysAt + 1]);
    CountdownWraps(rep.mLength, p, g, rep.dhYsLength);
    U16Sub(rep.mLength, 6 + p + g + rep.dhYsLength);
  }

  /** On every accepted body, wrap-around included, indexOfProcessedByte
      ends at 9 + p + g + Ys modulo 2^16: each cursor step is an addition
      stored in a `uint16_t`. */
  lemma ProcessedWraps(m: seq<Byte>)
    requires ServerKeyExchangeSpec(m).Ok?
    ensures var rep := ServerKeyExchangeSpec(m).value;
      rep.processed == U16(9 + rep.dhPLength + rep.dhGLength + rep.dhYsLength)
  {
    var rep := ServerKeyExchangeSpec(m).value;
    ProcessedOfLengths(m);
    CursorWraps(rep.dhPLength, rep.dhGLength, rep.dhYsLength);
  }

  /** The final cursor is the three `uint16_t` steps taken over the three
      vector lengths the report holds. */
  lemma ProcessedOfLengths(m: seq<Byte>)
    requires ServerKeyExchangeSpec(m).Ok?
    ensures var rep := ServerKeyExchangeSpec(m).value;
      rep.processed == Add16(Add16(DhYsLengthAt(DhGLengthAt(rep.dhPLength), rep.dhGLength), 2), rep.dhYsLength)
  {
    var rep := ServerKeyExchangeSpec(m).value;
    var p := Be16(m[4], m[5]);
    var gAt := DhGLengthAt(p);
    var g := Be16(m[gAt], m[gAt + 1]);
    var ysAt := DhYsLengthAt(gAt, g);
    assert rep.dhPLength == p && rep.dhGLength == g;
  }

  /** The cursor arithmetic alone: 5 + p, then + 2 + g, then + 2 + Ys, each
      step stored in a `uint16_t`, is 9 + p + g + Ys modulo 2^16. */
  lemma CursorWraps(p: Uint16, g: Uint16, ys: Uint16)
    ensures Add16(Add16(DhYsLengthAt(DhGLengthAt(p), g), 2), ys) == U16(9 + p + g + ys)
  {
    var gAt := DhGLengthAt(p);
    var ysAt := DhYsLengthAt(gAt, g);
    Add16Wraps(5, p);
    CursorStep(5 + p, gAt, 2);
    CursorStep(7 + p, Add16(gAt, 2), g);
    CursorStep(7 + p + g, ysAt, 2);
    CursorStep(9 + p + g, Add16(ysAt, 2), ys);
  }

  /** One step of the cursor: adding to a stored value is adding to the
      exact value, modulo 2^16. */
  lemma CursorStep(x: int, l: Uint16, d: Uint16)
    requires l == U16(x)
    ensures Add16(l, d) == U16(x + d)
  {
    Add16Wraps(l, d);
    U16Add(x, d);
  }

  /** A nine-byte body with zero p and g lengths and a dh_Ys length of 255:
      the Ys vector claims 255 bytes of a body that has none left. */
  function YsOverrunBody(): (m: seq<Byte>)
    ensures |m| == 9 && m[0] == 0x0C && Be16(m[4], m[5]) == 0
  {
    [0x0C, 0, 0, 0, 0, 0, 0, 0, 0xFF]
  }

  /** The body whose Ys vector runs 255 bytes past its end is accepted: no
      vector is ever compared with `size`, and the cursor ends past the
      body. */
  lemma YsOverrunAccepted()
    ensures ServerKeyExchangeSpec(YsOverrunBody()).Ok?
    ensures ServerKeyExchangeSpec(YsOverrunBody()).value.dhYsLength == 255
    ensures ServerKeyExchangeSpec(YsOverrunBody()).value.processed > |YsOverrunBody()|
  {
    var m := YsOverrunBody();
    assert DhGLengthAt(0) == 5 && Be16(m[5], m[6]) == 0;
    assert DhYsLengthAt(5, 0) == 7 && Be16(m[7], m[8]) == 255;
    assert Add16(Add16(7, 2), 255) == 264;
    var r := ServerKeyExchangeSpec(m);
    assert r.Ok? && r.value.dhPLength == 0 && r.value.dhGLength == 0;
    assert r.value.dhYsLength == 255 && r.value.processed == 264;
  }

  /** A ServerKeyExchange body that declares a params length of 4 but a
      10-byte dh_p, followed by zero g and Ys lengths as the cursor finds
      them. */
  function OverlongDhPBody(): (m: seq<Byte>)
    ensures |m| == 19 && m[0] == 0x0C
    ensures Be24(m[1], m[2], m[3]) == 4 && Be16(m[4], m[5]) == 10
  {
    [0x0C, 0, 0, 4, 0, 10, 0, 0, 0, 0, 0, 0, 0, 0, 0, 0, 0, 0, 0]
  }

  /** The body whose dh_p is longer than the whole declared params length is
      accepted, and the counter wraps to 4 - 16 + 2^16 == 65524. */
  lemma OverlongDhPAccepted()
    ensures ServerKeyExchangeSpec(OverlongDhPBody()).Ok?
    ensures ServerKeyExchangeSpec(OverlongDhPBody()).value.remaining == 65524
  {
    var m := OverlongDhPBody();
    assert DhGLengthAt(10) == 15 && Be16(m[15], m[16]) == 0;
    assert DhYsLengthAt(15, 0) == 17 && Be16(m[17], m[18]) == 0;
    assert Countdown(4, 10, 0, 0) == 65524;
  }

  /** A six-byte body declaring a 5-byte dh_p: the cursor's next read lies
      past the body. The record decoder accepts a record carrying it. */
  function ShortDhBody(): (m: seq<Byte>)
    ensures |m| == 6 && m[0] == 0x0C && Be16(m[4], m[5]) == 5
  {
    [0x0C, 0, 0, 2, 0, 5]
  }

  /** As written, the dh_g length of ShortDhBody is read at offsets 10 and
      11 of a six-byte body; the guarded parser rejects the body. */
  lemma DhCursorReadsPastBody()
    ensures DhGLengthAt(Be16(ShortDhBody()[4], ShortDhBody()[5])) + 2 > |ShortDhBody()|
    ensures ServerKeyExchangeSpec(ShortDhBody()) == Err(InvalidFileLength)
    ensures DecodeRecord([Handshake, 3, 3, 0, 10, ServerKeyExchangeType, 0, 0, 6] + ShortDhBody()).Ok?
  {
    var raw := [Handshake, 3, 3, 0, 10, ServerKeyExchangeType, 0, 0, 6] + ShortDhBody();
    assert |raw| == 15 && raw[1] == 3 && raw[2] == 3;
    assert Be16(raw[3], raw[4]) == 10 && Be24(raw[6], raw[7], raw[8]) == 6;
  }

  // ---------------------------------------------------------------------
  // Dispatch (the switch in main, lines 63-79)
  // ---------------------------------------------------------------------

  /** The switch on the handshake type: the status of the selected parser,
      or UnsupportedHandshakeMessageType without parsing when the type is
      not one of the six supported ones. The same code also comes back from
      the two key-exchange parsers when the first body byte is not
      0x0C or 0x16. */
  function Dispatch(hsType: Byte, body: seq<Byte>): (r: ErrorCode)
    ensures (hsType !in {ClientHelloType, ServerHelloType, CertificateType,
                         ServerKeyExchangeType, ServerHelloDoneType, ClientKeyExchangeType})
              ==> r == UnsupportedHandshakeMessageType
    ensures r == UnsupportedHandshakeMessageType <==>
              || hsType !in {ClientHelloType, ServerHelloType, CertificateType,
                             ServerKeyExchangeType, ServerHelloDoneType, ClientKeyExchangeType}
              || (hsType == ServerKeyExchangeType && |body| >= 1 && body[0] != 0x0C)
              || (hsType == ClientKeyExchangeType && |body| >= 1 && body[0] != Handshake)
    ensures r != InvalidContentType
  {
    if hsType == ClientHelloType then ParseClientHello(body)
    else if hsType == ServerHelloType then ParseServerHello(body)
    else if hsType == CertificateType then ParseCertificate(body)
    else if hsType == ServerKeyExchangeType then ServerKeyExchangeSpec(body).Status()
    else if hsType == ServerHelloDoneType then ParseServerHelloDone(body)
    else if hsType == ClientKeyExchangeType then ParseClientKeyExchange(body).Status()
    else UnsupportedHandshakeMessageType
  }

  /** The code `main` exits with for a record once it is read: the
      decoder's error, or the dispatch result. */
  function ParseMessage(raw: seq<Byte>): (r: ErrorCode)
    ensures DecodeRecord(raw).Err? ==> r == DecodeRecord(raw).error
    ensures DecodeRecord(raw).Ok? ==> r != InvalidContentType
  {
    match DecodeRecord(raw)
    case Err(e) => e
    case Ok(env) => Dispatch(env.hsType, env.body)
  }

  /** `main` on an accepted record: the parser that byte 5 selects receives
      exactly the bytes after the nine-byte header, and its status is the
      result. */
  lemma ParseMessageAccepted(raw: seq<Byte>)
    ensures HeaderAccepted(raw) && Framed(raw) ==> |raw[9..]| < 0x1_0000 && ParseMessage(raw) == Dispatch(raw[5], raw[9..])
  {
    DecodeRecordVerdict(raw);
    if HeaderAccepted(raw) && Framed(raw) {
      EncodeOfDecodeRecord(raw);
    }
  }

  /** `main` on an encoded valid envelope with a supported version: the
      parser of its type receives its body, and its status is the result. */
  lemma ParseMessageOfEncode(e: Envelope)
    requires ValidEnvelope(e) && !VersionRejected(e.major, e.minor)
    ensures |e.body| < 0x1_0000 && ParseMessage(Encode(e)) == Dispatch(e.hsType, e.body)
  {
    DecodeRecordOfEncode(e);
  }

  /** The record decoder hands a zero-byte body to the Hello and
      key-exchange parsers, whose first test as written reads message[0]
      (and message[1]) of it; the guarded parsers reject it. */
  lemma FirstByteReadPastEmptyBody(t: Byte)
    ensures DecodeRecord(EmptyBodyRecord(t)).Ok?
    ensures DecodeRecord(EmptyBodyRecord(t)).value.hsType == t
    ensures DecodeRecord(EmptyBodyRecord(t)).value.body == []
    ensures ParseClientHello([]) == InvalidFileLength && ParseServerHello([]) == InvalidFileLength
    ensures ServerKeyExchangeSpec([]) == Err(InvalidFileLength)
    ensures ParseClientKeyExchange([]) == Err(InvalidFileLength)
  {
    EmptyBodyAccepted(t);
  }

  /** The record decoder accepts a record whose body is empty, whatever its
      handshake type. */
  lemma EmptyBodyAccepted(t: Byte)
    ensures DecodeRecord(EmptyBodyRecord(t)).Ok?
    ensures DecodeRecord(EmptyBodyRecord(t)).value.hsType == t
    ensures DecodeRecord(EmptyBodyRecord(t)).value.body == []
  {
    EmptyBodyHeaderAccepted(t);
    EmptyBodyFramed(t);
    DecodeRecordVerdict(EmptyBodyRecord(t));
    EmptyBodyEnvelope(t);
  }

  /** The empty-body record passes the content-type and version tests. */
  lemma EmptyBodyHeaderAccepted(t: Byte)
    ensures HeaderAccepted(EmptyBodyRecord(t))
  {
    EmptyBodyType(t);
  }

  /** A one-byte body is read past only where the C reads a second byte:
      the version test reads message[1] once message[0] is 0x03 (the `||`
      of lines 194 and 294 stops at a first byte that is not), the
      ServerKeyExchange parser reads message[1..5] (lines 394-400) and the
      ClientKeyExchange parser message[1] (line 460). The guarded parsers
      reject exactly those bodies, and answer InvalidVersion for the rest. */
  lemma SecondByteReadPastOneByteBody(b: Byte)
    ensures ParseClientHello([0x03]) == InvalidFileLength && ParseServerHello([0x03]) == InvalidFileLength
    ensures b != 0x03 ==> ParseClientHello([b]) == InvalidVersion && ParseServerHello([b]) == InvalidVersion
    ensures ServerKeyExchangeSpec([0x0C]) == Err(InvalidFileLength)
    ensures ParseClientKeyExchange([Handshake]) == Err(InvalidFileLength)
  {
  }

  /** The record 16 03 01 00 05 01 00 00 01 00 carries a one-byte
      ClientHello whose first byte is not 0x03: the C reports
      INVALID_VERSION without reading past it, and so does the model; with
      the byte 0x03 the version test would read past the body, and the
      guard reports InvalidFileLength. */
  lemma OneByteClientHelloRecords()
    ensures ParseMessage([Handshake, 3, 1, 0, 5, ClientHelloType, 0, 0, 1, 0x00]) == InvalidVersion
    ensures ParseMessage([Handshake, 3, 1, 0, 5, ClientHelloType, 0, 0, 1, 0x03]) == InvalidFileLength
  {
    ParseMessageAccepted([Handshake, 3, 1, 0, 5, ClientHelloType, 0, 0, 1, 0x00]);
    ParseMessageAccepted([Handshake, 3, 1, 0, 5, ClientHelloType, 0, 0, 1, 0x03]);
  }
}
