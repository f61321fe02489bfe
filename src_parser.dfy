/** Model of the latest generation of the parser, src/tls_parser.c: the
    record-layer decoder `initialize_tls_structure`, the body parsers for
    ClientHello, ServerHello, Certificate, ServerKeyExchange,
    ServerHelloDone and ClientKeyExchange, and the dispatch on the handshake
    type that `main` performs.

    Each C function that advances a cursor is a method proved equal to a
    pure `...Spec` function written with absolute offsets; the dispatch is
    a function over those pure functions.  Where the C reads past
    the bytes it has checked, the model adds a guard that returns
    InvalidFileLength; each guard is marked in a comment. */
module SrcParser {
  import opened TlsTypes
  import opened Record

  // ---------------------------------------------------------------------
  // Versions
  // ---------------------------------------------------------------------

  /** `is_valid_tls_version`: the two version bytes name TLS 1.0, 1.1 or 1.2. */
  function IsValidTlsVersion(major: Byte, minor: Byte): (r: bool)
    ensures r <==> exists v: TlsVersion :: v.Major() == major && v.Minor() == minor
  {
    var r := major == 0x03 && (minor == 0x01 || minor == 0x02 || minor == 0x03);
    assert r ==> (if minor == 1 then Tls10 else if minor == 2 then Tls11 else Tls12).Minor() == minor;
    r
  }

  // ---------------------------------------------------------------------
  // Record layer
  // ---------------------------------------------------------------------

  /** The record passes the first three tests: at least four bytes, content
      type 22 and a supported version. */
  predicate HeaderAccepted(raw: seq<Byte>) {
    |raw| > 3 && raw[0] == Handshake && IsValidTlsVersion(raw[1], raw[2])
  }

  /** What `initialize_tls_structure` returns and, on success, the fields it
      stores. */
  function DecodeRecord(raw: seq<Byte>): (r: Result<Envelope>)
    ensures r.Ok? ==> ValidEnvelope(r.value) && IsValidTlsVersion(r.value.major, r.value.minor)
    ensures r.Ok? ==> r.value.mLength <= 0xFFFB
    ensures r.Err? ==> r.error in {InvalidFileLength, InvalidContentType, InvalidVersion}
    ensures |raw| <= 3 ==> r == Err(InvalidFileLength)
    ensures |raw| > 3 && raw[0] != Handshake ==> r == Err(InvalidContentType)
    ensures |raw| > 3 && raw[0] == Handshake && !IsValidTlsVersion(raw[1], raw[2]) ==> r == Err(InvalidVersion)
  {
    if |raw| <= 3 then Err(InvalidFileLength)
    else if raw[0] != Handshake then Err(InvalidContentType)
    else if !IsValidTlsVersion(raw[1], raw[2]) then Err(InvalidVersion)
    // Guard: with four bytes the C reads raw[4] past the end; the size test
    // that follows fails whatever that byte holds.
    else if |raw| == 4 then Err(InvalidFileLength)
    else if Be16(raw[3], raw[4]) + 5 != |raw| then Err(InvalidFileLength)
    // Guard: with fLength == size - 5 < 4 the C reads raw[5..8] past the
    // end; the body-length test that follows fails whatever they hold.
    else if |raw| < 9 then Err(InvalidFileLength)
    else if Be16(raw[3], raw[4]) != Be24(raw[6], raw[7], raw[8]) + 4 then Err(InvalidFileLength)
    else Ok(EnvelopeOf(raw))
  }

  /** The verdict in full: a record is accepted exactly when its header
      passes and both length cross-checks hold, and a header that passes
      with a length that does not is an invalid file length. */
  lemma DecodeRecordVerdict(raw: seq<Byte>)
    ensures DecodeRecord(raw).Ok? <==> HeaderAccepted(raw) && Framed(raw)
    ensures HeaderAccepted(raw) && Framed(raw) ==> DecodeRecord(raw) == Ok(EnvelopeOf(raw))
    ensures HeaderAccepted(raw) && !Framed(raw) ==> DecodeRecord(raw) == Err(InvalidFileLength)
    ensures DecodeRecord(raw).Ok? ==> DecodeRecord(raw).value.hsType == raw[5]
    ensures DecodeRecord(raw).Ok? ==> DecodeRecord(raw).value.mLength == Be24(raw[6], raw[7], raw[8])
  {
  }

  /** Every valid envelope with a supported version is accepted and decoded
      back to itself. */
  lemma DecodeRecordOfEncode(e: Envelope)
    requires ValidEnvelope(e) && IsValidTlsVersion(e.major, e.minor)
    ensures DecodeRecord(Encode(e)) == Ok(e)
  {
    EnvelopeOfEncode(e);
  }

  /** Every accepted record is exactly the encoding of what it decodes to:
      type, version, both lengths, handshake type and body. */
  lemma EncodeOfDecodeRecord(raw: seq<Byte>)
    requires DecodeRecord(raw).Ok?
    ensures Encode(DecodeRecord(raw).value) == raw
  {
    EncodeEnvelopeOf(raw);
  }

  /** `initialize_tls_structure(raw, size, tls_message)`: fills `msg` field
      by field; on failure the fields written before the failing test keep
      their new values. */
  method InitializeTlsStructure(raw: seq<Byte>, msg: HandshakeMessage) returns (err: ErrorCode)
    modifies msg
    ensures err == DecodeRecord(raw).Status()
    ensures err == NoError <==> HeaderAccepted(raw) && Framed(raw)
    ensures HeaderAccepted(raw) && !Framed(raw) ==> err == InvalidFileLength
    // The rejection order of lines 84-97; nothing is written before it.
    ensures |raw| <= 3 ==> err == InvalidFileLength
    ensures |raw| > 3 && raw[0] != Handshake ==> err == InvalidContentType
    ensures |raw| > 3 && raw[0] == Handshake && !IsValidTlsVersion(raw[1], raw[2]) ==> err == InvalidVersion
    ensures !HeaderAccepted(raw) ==> unchanged(msg)
    // Lines 100-102: type and version are stored once the header is accepted.
    ensures HeaderAccepted(raw) ==> msg.cType == Handshake && msg.major == raw[1] && msg.minor == raw[2]
    // Line 107: the fragment length is stored before it is compared.
    ensures HeaderAccepted(raw) && |raw| >= 5 ==> msg.fLength == Be16(raw[3], raw[4])
    ensures HeaderAccepted(raw) && |raw| == 4 ==> msg.fLength == old(msg.fLength)
    // Lines 116-120: type and body length are stored once the fragment length fits.
    ensures HeaderAccepted(raw) && |raw| >= 9 && Be16(raw[3], raw[4]) + 5 == |raw| ==>
              msg.hsType == raw[5] && msg.mLength == Be24(raw[6], raw[7], raw[8])
    ensures !(HeaderAccepted(raw) && |raw| >= 9 && Be16(raw[3], raw[4]) + 5 == |raw|) ==>
              msg.hsType == old(msg.hsType) && msg.mLength == old(msg.mLength)
    // Lines 129-130: the body is copied only on success.
    ensures err != NoError ==> msg.body == old(msg.body)
    ensures err == NoError ==> msg.Fields() == DecodeRecord(raw).value
  {
    DecodeRecordVerdict(raw);
    if |raw| <= 3 {
      return InvalidFileLength;
    }
    var pos := 0;
    if raw[pos] != Handshake {
      return InvalidContentType;
    }
    pos := pos + 1;
    if !IsValidTlsVersion(raw[pos], raw[pos + 1]) {
      return InvalidVersion;
    }
    msg.cType := Handshake;
    msg.major := raw[1];
    msg.minor := raw[2];
    pos := pos + 2;
    // Guard: raw[4] is past the end of a four-byte record.
    if |raw| == 4 {
      return InvalidFileLength;
    }
    msg.fLength := Be16(raw[pos], raw[pos + 1]);
    pos := pos + 2;
    if msg.fLength + pos != |raw| {
      return InvalidFileLength;
    }
    // Guard: raw[5..8] are past the end of a record shorter than nine bytes.
    if |raw| < 9 {
      return InvalidFileLength;
    }
    msg.hsType := raw[pos];
    pos := pos + 1;
    msg.mLength := Be24(raw[pos], raw[pos + 1], raw[pos + 2]);
    pos := pos + 3;
    if msg.fLength != msg.mLength + 4 {
      return InvalidFileLength;
    }
    msg.body := raw[pos..pos + msg.mLength];
    return NoError;
  }

  // ---------------------------------------------------------------------
  // ClientHello and ServerHello (sections 7.4.1.2 and 7.4.1.3 of RFC 5246)
  // ---------------------------------------------------------------------

  /** The Random structure: gmt_unix_time and 28 random bytes. */
  datatype Random = Random(time: nat, randomBytes: seq<Byte>)

  /** The SessionID structure; `id` is absent (NULL) when `length` is 0. */
  datatype SessionId = SessionId(length: Byte, id: Option<seq<Byte>>)

  /** The CipherSuiteCollection structure: a byte count and the raw bytes. */
  datatype CipherSuiteCollection = CipherSuiteCollection(length: nat, cipherSuites: Option<seq<Byte>>)

  /** The ClientHello structure the parser fills. */
  datatype ClientHello = ClientHello(
    major: Byte,
    minor: Byte,
    random: Random,
    sessionId: SessionId,
    csCollection: CipherSuiteCollection,
    compressionLength: Byte,
    compressionMethod: Byte,
    hasExtensions: bool,
    extensions: Option<seq<Byte>>)

  /** The ServerHello structure the parser fills. */
  datatype ServerHello = ServerHello(
    major: Byte,
    minor: Byte,
    random: Random,
    sessionId: SessionId,
    cipherSuite: seq<Byte>,
    compressionMethod: Byte,
    hasExtensions: bool,
    extensions: Option<seq<Byte>>)

  /** The Random structure at offsets 2..34 of a hello body. */
  function RandomAt(m: seq<Byte>): Random
    requires |m| >= 34
  {
    Random(Be32(m[2], m[3], m[4], m[5]), m[6..34])
  }

  /** The SessionID structure at offset 34 of a hello body. */
  function SessionIdAt(m: seq<Byte>): SessionId
    requires |m| >= 35 && |m| >= 35 + m[34] as int
  {
    SessionId(m[34], if m[34] > 0 then Some(m[35..35 + m[34] as int]) else None)
  }

  predicate WellFormedRandom(r: Random) {
    r.time < 0x1_0000_0000 && |r.randomBytes| == 28
  }

  /** A session ID of `length` bytes, absent exactly when the length is 0. */
  predicate WellFormedSessionId(s: SessionId) {
    (s.id.Some? <==> s.length > 0) && |Bytes(s.id)| == s.length
  }

  /** The first 35 + length bytes both hello bodies share: version, Random
      and SessionID. */
  function HelloPrefix(major: Byte, minor: Byte, random: Random, sessionId: SessionId): seq<Byte>
    requires WellFormedRandom(random) && WellFormedSessionId(sessionId)
  {
    [major, minor] + Be32Bytes(random.time) + random.randomBytes
      + [sessionId.length] + Bytes(sessionId.id)
  }

  /** Where each field lies in a hello prefix. */
  lemma HelloPrefixLayout(major: Byte, minor: Byte, random: Random, sessionId: SessionId)
    requires WellFormedRandom(random) && WellFormedSessionId(sessionId)
    ensures var a := HelloPrefix(major, minor, random, sessionId);
      && |a| == 35 + sessionId.length
      && a[0] == major && a[1] == minor && a[34] == sessionId.length
      && a[2..6] == Be32Bytes(random.time)
      && a[6..34] == random.randomBytes
      && a[35..] == Bytes(sessionId.id)
  {
    var a := HelloPrefix(major, minor, random, sessionId);
    var t := Be32Bytes(random.time);
    assert a == [major, minor] + t + random.randomBytes + [sessionId.length] + Bytes(sessionId.id);
  }

  /** Reading version, Random and SessionID back from a hello prefix gives
      what was encoded, and the bytes after it are untouched. */
  lemma HelloPrefixFields(major: Byte, minor: Byte, random: Random, sessionId: SessionId, rest: seq<Byte>)
    requires WellFormedRandom(random) && WellFormedSessionId(sessionId)
    ensures var m := HelloPrefix(major, minor, random, sessionId) + rest;
      && |m| == 35 + sessionId.length + |rest|
      && m[0] == major && m[1] == minor && m[34] == sessionId.length
      && RandomAt(m) == random && SessionIdAt(m) == sessionId
      && m[35 + sessionId.length as int..] == rest
  {
    var a := HelloPrefix(major, minor, random, sessionId);
    var m := a + rest;
    var len := sessionId.length as int;
    HelloPrefixLayout(major, minor, random, sessionId);
    assert m[..35 + len] == a && m[35 + len..] == rest;
    assert m[2..6] == a[2..6] && m[6..34] == a[6..34] && m[35..35 + len] == a[35..];
    assert RandomAt(m) == random;
  }

  /** Every body long enough for its session ID starts with the hello prefix
      of what is read from it. */
  lemma HelloPrefixOf(m: seq<Byte>)
    requires |m| >= 35 && |m| >= 35 + m[34] as int
    ensures WellFormedRandom(RandomAt(m)) && WellFormedSessionId(SessionIdAt(m))
    ensures HelloPrefix(m[0], m[1], RandomAt(m), SessionIdAt(m)) + m[35 + m[34] as int..] == m
  {
    var len := m[34] as int;
    Be32BytesOf(m[2], m[3], m[4], m[5]);
    assert Bytes(SessionIdAt(m).id) == m[35..35 + len];
    assert m == [m[0], m[1]] + m[2..6] + m[6..34] + [m[34]] + m[35..35 + len] + m[35 + len..];
  }

  /** Every ClientHello the parser can return: a supported version, one
      compression method and a non-empty extensions remainder. */
  predicate WellFormedClientHello(h: ClientHello) {
    && IsValidTlsVersion(h.major, h.minor)
    && WellFormedRandom(h.random)
    && WellFormedSessionId(h.sessionId)
    && h.csCollection.length < 0x1_0000
    && (h.csCollection.cipherSuites.Some? <==> h.csCollection.length > 0)
    && |Bytes(h.csCollection.cipherSuites)| == h.csCollection.length
    && h.compressionLength == 1
    && h.hasExtensions && h.extensions.Some? && |h.extensions.value| >= 1
  }

  /** The ClientHello bytes after the session ID: cipher suites,
      compression methods and extensions. */
  function ClientHelloRest(h: ClientHello): seq<Byte>
    requires WellFormedClientHello(h)
  {
    Be16Bytes(h.csCollection.length) + Bytes(h.csCollection.cipherSuites)
      + [h.compressionLength, h.compressionMethod] + Bytes(h.extensions)
  }

  /** The ClientHello body that carries `h`. */
  function EncodeClientHello(h: ClientHello): seq<Byte>
    requires WellFormedClientHello(h)
  {
    HelloPrefix(h.major, h.minor, h.random, h.sessionId) + ClientHelloRest(h)
  }

  /** The C guard at lines 189 and 324, as written: it forgets the session-ID
      length byte and the bytes that follow the session ID. */
  predicate SessionIdFitsAsWritten(size: int, sessionIdLength: int): (r: bool)
    ensures size >= 35 + sessionIdLength ==> r
    ensures size + 1 == 35 + sessionIdLength ==> r
    ensures r ==> size + 1 >= 35 + sessionIdLength
  {
    !(size < sessionIdLength + 28 + 4 + 2)
  }

  /** What `parse_client_hello` returns, with the structure it prints.
      `at` is the C cursor just past the session ID, 35 + sid. */
  function ClientHelloSpec(m: seq<Byte>): (r: Result<ClientHello>)
    ensures r.Err? ==> r.error == InvalidFileLength || r.error == InvalidVersion
    ensures |m| < 38 ==> r == Err(InvalidFileLength)
    ensures r == Err(InvalidVersion) <==> |m| >= 38 && !IsValidTlsVersion(m[0], m[1])
    ensures r.Ok? ==> |m| >= 38 && IsValidTlsVersion(r.value.major, r.value.minor)
  {
    if |m| < 38 then Err(InvalidFileLength)
    else if !IsValidTlsVersion(m[0], m[1]) then Err(InvalidVersion)
    else
      var sid := m[34] as int;
      if sid > 0 && !SessionIdFitsAsWritten(|m|, sid) then Err(InvalidFileLength)
      // Guard: the session-ID copy and the cipher-suite length read up to
      // offset 36 + sid, which the test above does not cover.
      else if |m| < 37 + sid then Err(InvalidFileLength)
      else
        var at := 35 + sid;
        var cs := Be16(m[at], m[at + 1]);
        if cs > 0 && |m| < at + 2 + cs then Err(InvalidFileLength)
        else if |m| < at + 2 + cs + 3 then Err(InvalidFileLength)
        else if m[at + 2 + cs] != 1 then Err(InvalidFileLength)
        else
          Ok(ClientHello(
            m[0], m[1], RandomAt(m), SessionIdAt(m),
            CipherSuiteCollection(cs, if cs > 0 then Some(m[at + 2..at + 2 + cs]) else None),
            m[at + 2 + cs], m[at + 3 + cs],
            |m| != at + 4 + cs,
            if |m| != at + 4 + cs then Some(m[at + 4 + cs..]) else None))
  }

  /** `parse_client_hello(message, size)`: a cursor walks the body and
      copies the session ID, the cipher suites and the extensions. */
  method ParseClientHello(message: seq<Byte>) returns (r: Result<ClientHello>)
    ensures r == ClientHelloSpec(message)
  {
    if |message| < 38 {
      return Err(InvalidFileLength);
    }
    var pos := 0;
    if !IsValidTlsVersion(message[pos], message[pos + 1]) {
      return Err(InvalidVersion);
    }
    var major, minor := message[pos], message[pos + 1];
    pos := pos + 2;
    var time := Be32(message[pos], message[pos + 1], message[pos + 2], message[pos + 3]);
    pos := pos + 4;
    var randomBytes := message[pos..pos + 28];
    pos := pos + 28;
    var sidLength := message[pos];
    pos := pos + 1;
    var sid: Option<seq<Byte>> := None;
    if sidLength > 0 {
      if |message| < sidLength as int + 28 + 4 + 2 {
        return Err(InvalidFileLength);
      }
      // Guard: the copy and the two cipher-suite length bytes must fit.
      if |message| < pos + sidLength as int + 2 {
        return Err(InvalidFileLength);
      }
      sid := Some(message[pos..pos + sidLength as int]);
      pos := pos + sidLength as int;
    }
    var csLength := Be16(message[pos], message[pos + 1]);
    pos := pos + 2;
    var suites: Option<seq<Byte>> := None;
    if csLength > 0 {
      if |message| < pos + csLength {
        return Err(InvalidFileLength);
      }
      suites := Some(message[pos..pos + csLength]);
      pos := pos + csLength;
    }
    if |message| < pos + 3 {
      return Err(InvalidFileLength);
    }
    var compressionLength := message[pos];
    pos := pos + 1;
    if compressionLength != 1 {
      return Err(InvalidFileLength);
    }
    var compressionMethod := message[pos];
    pos := pos + 1;
    var hasExtensions := false;
    var extensions: Option<seq<Byte>> := None;
    if |message| != pos {
      hasExtensions := true;
      extensions := Some(message[pos..]);
    }
    r := Ok(ClientHello(major, minor, Random(time, randomBytes), SessionId(sidLength, sid),
                        CipherSuiteCollection(csLength, suites), compressionLength,
                        compressionMethod, hasExtensions, extensions));
  }

  /** Where each part lies in a two-byte length, a vector, two bytes and
      a tail. */
  lemma VectorPairLayout(c: seq<Byte>, v: seq<Byte>, x: Byte, y: Byte, e: seq<Byte>)
    requires |c| == 2
    ensures var s := c + v + [x, y] + e; var n := |v|;
      && |s| == 4 + n + |e|
      && s[0] == c[0] && s[1] == c[1]
      && s[2..2 + n] == v && s[2 + n] == x && s[3 + n] == y && s[4 + n..] == e
  {
    var s := c + v + [x, y] + e;
    var n := |v|;
    assert s == c + (v + ([x, y] + e));
    assert s[2..] == v + ([x, y] + e);
    assert s[2..][..n] == v;
    assert s[2..][n..] == [x, y] + e;
  }

  /** Any sequence of at least 4 + n bytes splits into those four parts. */
  lemma VectorPairSplit(s: seq<Byte>, n: nat)
    requires |s| >= 4 + n
    ensures s == s[..2] + s[2..2 + n] + [s[2 + n], s[3 + n]] + s[4 + n..]
  {
    assert s[2 + n..] == [s[2 + n], s[3 + n]] + s[4 + n..];
    assert s[..2 + n] == s[..2] + s[2..2 + n];
  }

  /** Where each field lies in the ClientHello bytes after the session ID. */
  lemma ClientHelloRestLayout(h: ClientHello)
    requires WellFormedClientHello(h)
    ensures var rest := ClientHelloRest(h); var cs := h.csCollection.length;
      && |rest| == 4 + cs + |h.extensions.value|
      && Be16(rest[0], rest[1]) == cs
      && rest[2..2 + cs] == Bytes(h.csCollection.cipherSuites)
      && rest[2 + cs] == 1 && rest[3 + cs] == h.compressionMethod
      && rest[4 + cs..] == h.extensions.value
  {
    var c := Be16Bytes(h.csCollection.length);
    VectorPairLayout(c, Bytes(h.csCollection.cipherSuites), h.compressionLength, h.compressionMethod, Bytes(h.extensions));
  }

  /** `h` is what a ClientHello body `m` carries: its fields lie where the
      parser reads them, with one compression method and a non-empty
      extensions remainder. */
  predicate ClientHelloAt(m: seq<Byte>, h: ClientHello) {
    && |m| >= 35 && |m| >= 37 + m[34] as int
    && var rest := m[35 + m[34] as int..]; var cs := Be16(rest[0], rest[1]);
    && |rest| >= 5 + cs && rest[2 + cs] == 1
    && IsValidTlsVersion(m[0], m[1])
    && h.major == m[0] && h.minor == m[1]
    && h.random == RandomAt(m) && h.sessionId == SessionIdAt(m)
    && h.csCollection == CipherSuiteCollection(cs, if cs > 0 then Some(rest[2..2 + cs]) else None)
    && h.compressionLength == 1 && h.compressionMethod == rest[3 + cs]
    && h.hasExtensions && h.extensions == Some(rest[4 + cs..])
  }

  /** The parser accepts a body exactly when it carries a ClientHello, and
      returns that one. */
  lemma ClientHelloAccepted(m: seq<Byte>)
    requires ClientHelloSpec(m).Ok?
    ensures ClientHelloAt(m, ClientHelloSpec(m).value)
  {
    var at := 35 + m[34] as int;
    var cs := Be16(m[at], m[at + 1]);
    SliceOfSuffix(m, at, 2, 2 + cs);
    SliceOfSuffix(m, at, 4 + cs, 4 + cs);
  }

  lemma AcceptedOfClientHelloAt(m: seq<Byte>, h: ClientHello)
    requires ClientHelloAt(m, h)
    ensures ClientHelloSpec(m) == Ok(h)
  {
    var at := 35 + m[34] as int;
    var cs := Be16(m[at], m[at + 1]);
    SliceOfSuffix(m, at, 2, 2 + cs);
    SliceOfSuffix(m, at, 4 + cs, 4 + cs);
  }

  /** An encoded ClientHello carries the ClientHello it encodes. */
  lemma ClientHelloAtEncode(h: ClientHello)
    requires WellFormedClientHello(h)
    ensures ClientHelloAt(EncodeClientHello(h), h)
  {
    var rest := ClientHelloRest(h);
    var m := EncodeClientHello(h);
    HelloPrefixFields(h.major, h.minor, h.random, h.sessionId, rest);
    ClientHelloRestLayout(h);
    assert m[35 + m[34] as int..] == rest;
  }

  /** A ClientHello some body carries is well formed. */
  lemma ClientHelloAtWellFormed(m: seq<Byte>, h: ClientHello)
    requires ClientHelloAt(m, h)
    ensures WellFormedClientHello(h)
  {
    HelloPrefixOf(m);
  }

  /** A body carrying a ClientHello is its encoding. */
  lemma EncodeOfClientHelloAt(m: seq<Byte>, h: ClientHello)
    requires ClientHelloAt(m, h)
    ensures WellFormedClientHello(h)
    ensures EncodeClientHello(h) == m
  {
    ClientHelloAtWellFormed(m, h);
    var rest := m[35 + m[34] as int..];
    var cs := Be16(rest[0], rest[1]);
    HelloPrefixOf(m);
    Be16BytesOf(rest[0], rest[1]);
    var c := Be16Bytes(h.csCollection.length);
    var v := Bytes(h.csCollection.cipherSuites);
    var e := Bytes(h.extensions);
    assert c == rest[..2];
    assert v == rest[2..2 + cs];
    assert e == rest[4 + cs..];
    VectorPairSplit(rest, cs);
    assert ClientHelloRest(h) == c + v + [rest[2 + cs], rest[3 + cs]] + e;
  }

  /** Every well-formed ClientHello is accepted and parsed back to itself. */
  lemma ClientHelloOfEncode(h: ClientHello)
    requires WellFormedClientHello(h)
    ensures ClientHelloSpec(EncodeClientHello(h)) == Ok(h)
  {
    ClientHelloAtEncode(h);
    AcceptedOfClientHelloAt(EncodeClientHello(h), h);
  }

  /** Every accepted ClientHello body is well formed and is exactly the
      encoding of what it parses to: no byte is skipped or read twice. */
  lemma EncodeOfClientHello(m: seq<Byte>)
    requires ClientHelloSpec(m).Ok?
    ensures WellFormedClientHello(ClientHelloSpec(m).value)
    ensures EncodeClientHello(ClientHelloSpec(m).value) == m
  {
    ClientHelloAccepted(m);
    EncodeOfClientHelloAt(m, ClientHelloSpec(m).value);
  }

  /** A cipher-suite byte count need not be even: one suite byte is accepted. */
  lemma OddCipherSuiteLengthAccepted()
    ensures exists m: seq<Byte> :: ClientHelloSpec(m).Ok? && ClientHelloSpec(m).value.csCollection.length % 2 == 1
  {
    var m := [3, 3] + seq(32, _ => 0) + [0, 0, 1, 0x2F, 1, 0, 0];
    assert |m| == 41 && m[0] == 3 && m[1] == 3 && m[34] == 0;
    var rest := m[35..];
    assert rest == [0, 1, 0x2F, 1, 0, 0];
    assert Be16(rest[0], rest[1]) == 1;
    assert ClientHelloSpec(m).Ok?;
  }

  /** A concrete 38-byte hello body: TLS 1.0, a zero Random, session-ID
      length 4, and three more zero bytes. */
  function ShortSessionIdHello(): (m: seq<Byte>)
    ensures |m| == 38 && m[34] == 4 && IsValidTlsVersion(m[0], m[1])
  {
    [3, 1] + seq(32, _ => 0) + [4] + [0, 0, 0]
  }

  /** The as-written session-ID test at line 189 lets through a 38-byte
      ClientHello whose 4-byte session ID ends past the body; the guarded
      parser rejects it. */
  lemma ClientHelloSessionIdOverrun()
    ensures var m := ShortSessionIdHello();
      SessionIdFitsAsWritten(|m|, m[34]) && 35 + m[34] as int > |m|
      && ClientHelloSpec(m) == Err(InvalidFileLength)
  {
  }

  /** The guard after the session-ID test removes reads, not verdicts: a
      body it rejects is rejected, and whatever cipher-suite length `cs`
      the C reads past its end, the C's own test at line 202 (cs > 0) or
      at line 212 (cs == 0) returns InvalidFileLength too. */
  lemma ClientHelloGuardChangesNoVerdict(m: seq<Byte>, cs: Uint16)
    requires |m| >= 38 && IsValidTlsVersion(m[0], m[1])
    requires m[34] > 0 && SessionIdFitsAsWritten(|m|, m[34]) && |m| < 37 + m[34] as int
    ensures ClientHelloSpec(m) == Err(InvalidFileLength)
    ensures (cs > 0 && |m| < 37 + m[34] as int + cs) || |m| < 37 + m[34] as int + cs + 3
  {
  }

  /** Every well-formed ServerHello: a supported version, two cipher-suite
      bytes, and extensions present exactly when some remain. */
  predicate WellFormedServerHello(h: ServerHello) {
    && IsValidTlsVersion(h.major, h.minor)
    && WellFormedRandom(h.random)
    && WellFormedSessionId(h.sessionId)
    && |h.cipherSuite| == 2
    && (h.hasExtensions <==> h.extensions.Some?)
    && (h.extensions.Some? ==> |h.extensions.value| >= 1)
  }

  /** The ServerHello bytes after the session ID. */
  function ServerHelloRest(h: ServerHello): seq<Byte>
    requires WellFormedServerHello(h)
  {
    h.cipherSuite + [h.compressionMethod] + Bytes(h.extensions)
  }

  /** The ServerHello body that carries `h`. */
  function EncodeServerHello(h: ServerHello): seq<Byte>
    requires WellFormedServerHello(h)
  {
    HelloPrefix(h.major, h.minor, h.random, h.sessionId) + ServerHelloRest(h)
  }

  /** What `parse_server_hello` returns, with the structure it prints; the
      size tests after the session ID are read on `rest`, the bytes from
      the C cursor on. */
  function ServerHelloSpec(m: seq<Byte>): (r: Result<ServerHello>)
    ensures r.Err? ==> r.error == InvalidFileLength || r.error == InvalidVersion
    ensures |m| < 38 ==> r == Err(InvalidFileLength)
    ensures r == Err(InvalidVersion) <==> |m| >= 38 && !IsValidTlsVersion(m[0], m[1])
    ensures r.Ok? ==> |m| >= 38 && IsValidTlsVersion(r.value.major, r.value.minor)
  {
    if |m| < 38 then Err(InvalidFileLength)
    else if !IsValidTlsVersion(m[0], m[1]) then Err(InvalidVersion)
    else
      var sid := m[34] as int;
      if sid > 0 && !SessionIdFitsAsWritten(|m|, sid) then Err(InvalidFileLength)
      // Guard: the session-ID copy and the two cipher-suite bytes read up to
      // offset 36 + sid, which the test above does not cover.
      else if |m| < 37 + sid then Err(InvalidFileLength)
      else
        var rest := m[35 + sid..];
        if |rest| < 2 + 1 then Err(InvalidFileLength)
        else
          Ok(ServerHello(
            m[0], m[1], RandomAt(m), SessionIdAt(m),
            rest[..2], rest[2],
            |rest| != 3,
            if |rest| != 3 then Some(rest[3..]) else None))
  }

  /** `parse_server_hello(message, size)`: a cursor walks the body, copies
      the session ID and the extensions, and reads one cipher suite and one
      compression method. */
  method ParseServerHello(message: seq<Byte>) returns (r: Result<ServerHello>)
    ensures r == ServerHelloSpec(message)
  {
    if |message| < 38 {
      return Err(InvalidFileLength);
    }
    var pos := 0;
    if !IsValidTlsVersion(message[pos], message[pos + 1]) {
      return Err(InvalidVersion);
    }
    var major, minor := message[pos], message[pos + 1];
    pos := pos + 2;
    var time := Be32(message[pos], message[pos + 1], message[pos + 2], message[pos + 3]);
    pos := pos + 4;
    var randomBytes := message[pos..pos + 28];
    pos := pos + 28;
    var sidLength := message[pos];
    pos := pos + 1;
    var sid: Option<seq<Byte>> := None;
    if sidLength > 0 {
      if |message| < sidLength as int + 28 + 4 + 2 {
        return Err(InvalidFileLength);
      }
      // Guard: the copy and the two cipher-suite bytes must fit.
      if |message| < pos + sidLength as int + 2 {
        return Err(InvalidFileLength);
      }
      sid := Some(message[pos..pos + sidLength as int]);
      pos := pos + sidLength as int;
    }
    var cipherSuite := message[pos..pos + 2];
    pos := pos + 2;
    if |message| < pos + 1 {
      return Err(InvalidFileLength);
    }
    var compressionMethod := message[pos];
    pos := pos + 1;
    var hasExtensions := false;
    var extensions: Option<seq<Byte>> := None;
    if |message| != pos {
      hasExtensions := true;
      extensions := Some(message[pos..]);
    }
    ghost var sidEnd := 35 + sidLength as int;
    SliceOfSuffix(message, sidEnd, 0, 2);
    SliceOfSuffix(message, sidEnd, 3, 3);
    r := Ok(ServerHello(major, minor, Random(time, randomBytes), SessionId(sidLength, sid),
                        cipherSuite, compressionMethod, hasExtensions, extensions));
  }

  /** Every well-formed ServerHello is accepted and parsed back to itself. */
  lemma ServerHelloOfEncode(h: ServerHello)
    requires WellFormedServerHello(h)
    ensures ServerHelloSpec(EncodeServerHello(h)) == Ok(h)
  {
    var rest := ServerHelloRest(h);
    HelloPrefixFields(h.major, h.minor, h.random, h.sessionId, rest);
    assert rest[..2] == h.cipherSuite && rest[2] == h.compressionMethod;
    assert rest[3..] == Bytes(h.extensions);
  }

  /** Every accepted ServerHello body is well formed and is exactly the
      encoding of what it parses to; in particular the extensions are
      present exactly when bytes remain after the compression method, and
      are those bytes. */
  lemma EncodeOfServerHello(m: seq<Byte>)
    requires ServerHelloSpec(m).Ok?
    ensures WellFormedServerHello(ServerHelloSpec(m).value)
    ensures EncodeServerHello(ServerHelloSpec(m).value) == m
  {
    var h := ServerHelloSpec(m).value;
    var rest := m[35 + m[34] as int..];
    HelloPrefixOf(m);
    assert rest == rest[..2] + [rest[2]] + rest[3..];
    assert ServerHelloRest(h) == rest;
  }

  /** The as-written session-ID test at line 324 lets through a 38-byte
      ServerHello whose session ID and cipher suite end past the body; the
      guarded parser rejects it. */
  lemma ServerHelloSessionIdOverrun()
    ensures var m := ShortSessionIdHello();
      SessionIdFitsAsWritten(|m|, m[34]) && 35 + m[34] as int + 2 > |m|
      && ServerHelloSpec(m) == Err(InvalidFileLength)
  {
  }

  /** The guard after the session-ID test removes reads, not verdicts: a
      body it rejects is rejected, and after the two cipher-suite reads past
      its end the C's own test at line 338 returns InvalidFileLength too. */
  lemma ServerHelloGuardChangesNoVerdict(m: seq<Byte>)
    requires |m| >= 38 && IsValidTlsVersion(m[0], m[1])
    requires m[34] > 0 && SessionIdFitsAsWritten(|m|, m[34]) && |m| < 37 + m[34] as int
    ensures ServerHelloSpec(m) == Err(InvalidFileLength)
    ensures |m| < 35 + m[34] as int + 2 + 1
  {
  }

  // ---------------------------------------------------------------------
  // Certificate, ServerKeyExchange, ServerHelloDone, ClientKeyExchange
  // ---------------------------------------------------------------------

  /** `parse_certificate`: only an empty chain is rejected. */
  function ParseCertificate(message: seq<Byte>): (r: ErrorCode)
    ensures r == NoError <==> |message| != 0
    ensures r != NoError ==> r == InvalidFileLength
  {
    if |message| == 0 then InvalidFileLength else NoError
  }

  /** `parse_server_hello_done`: only an empty body is accepted. */
  function ParseServerHelloDone(message: seq<Byte>): (r: ErrorCode)
    ensures r == NoError <==> message == []
    ensures r != NoError ==> r == InvalidFileLength
  {
    if |message| != 0 then InvalidFileLength else NoError
  }

  /** The ServerDHParams length lines 434-436 print, from the three bytes
      they read (message[2] is skipped), as written: `mLength - 3` stored in
      a `uint16_t`. */
  function ServerDhParamsLength(b0: Byte, b1: Byte, b3: Byte): (length: nat)
    ensures length < 0x1_0000
    ensures U16(length + 3) == U16(Be24(b0, b1, b3))
  {
    U16Add(Be24(b0, b1, b3) - 3, 3);
    U16(Be24(b0, b1, b3) - 3)
  }

  /** `parse_server_key_exchange`: never fails, since `length < 0` cannot
      hold for a `uint16_t`; the model fails only where the C would read
      past a body shorter than four bytes. */
  function ParseServerKeyExchange(message: seq<Byte>): (r: Result<nat>)
    ensures r.Err? <==> |message| < 4
    ensures r.Err? ==> r.error == InvalidFileLength
    ensures r.Ok? ==> r.value < 0x1_0000
    ensures r.Ok? ==> U16(r.value + 3) == U16(Be24(message[0], message[1], message[3]))
  {
    // Guard: line 434 reads message[0], message[1] and message[3] unchecked.
    if |message| < 4 then Err(InvalidFileLength)
    else Ok(ServerDhParamsLength(message[0], message[1], message[3]))
  }

  /** The encrypted key length lines 452-454 print, as written:
      `pubKeyLength - 2` stored in a `uint16_t`. */
  function EncryptedKeyLength(b0: Byte, b1: Byte): (length: nat)
    ensures length < 0x1_0000
    ensures U16(length + 2) == Be16(b0, b1)
  {
    U16Add(Be16(b0, b1) - 2, 2);
    U16(Be16(b0, b1) - 2)
  }

  /** `parse_client_key_exchange`: never fails, since `length < 0` cannot
      hold for a `uint16_t`; the model fails only where the C would read
      past a body shorter than two bytes. */
  function ParseClientKeyExchange(message: seq<Byte>): (r: Result<nat>)
    ensures r.Err? <==> |message| < 2
    ensures r.Err? ==> r.error == InvalidFileLength
    ensures r.Ok? ==> U16(r.value + 2) == Be16(message[0], message[1])
    ensures r.Ok? ==> r.value < 0x1_0000
  {
    // Guard: line 452 reads message[0] and message[1] unchecked.
    if |message| < 2 then Err(InvalidFileLength)
    else Ok(EncryptedKeyLength(message[0], message[1]))
  }

  /** The record decoder accepts a record whose body is empty, whatever its
      handshake type. */
  lemma EmptyBodyAccepted(t: Byte)
    ensures DecodeRecord(EmptyBodyRecord(t)).Ok?
    ensures DecodeRecord(EmptyBodyRecord(t)).value.hsType == t
    ensures DecodeRecord(EmptyBodyRecord(t)).value.body == []
  {
    EmptyBodyHeaderAccepted(t);
    EmptyBodyFramed(t);
    DecodeRecordVerdict(EmptyBodyRecord(t));
    EmptyBodyEnvelope(t);
  }

  /** The empty-body record passes the content-type and version tests. */
  lemma EmptyBodyHeaderAccepted(t: Byte)
    ensures HeaderAccepted(EmptyBodyRecord(t))
  {
    EmptyBodyType(t);
  }

  /** The record decoder hands a zero-byte body to the ServerKeyExchange and
      ClientKeyExchange parsers, which as written read message[0..3] and
      message[0..1] of it; the guarded parsers reject it. */
  lemma KeyExchangeReadsPastEmptyBody()
    ensures DecodeRecord(EmptyBodyRecord(ServerKeyExchangeType)).Ok?
    ensures DecodeRecord(EmptyBodyRecord(ServerKeyExchangeType)).value.body == []
    ensures DecodeRecord(EmptyBodyRecord(ClientKeyExchangeType)).Ok?
    ensures DecodeRecord(EmptyBodyRecord(ClientKeyExchangeType)).value.body == []
    ensures ParseServerKeyExchange([]) == Err(InvalidFileLength)
    ensures ParseClientKeyExchange([]) == Err(InvalidFileLength)
  {
    EmptyBodyAccepted(ServerKeyExchangeType);
    EmptyBodyAccepted(ClientKeyExchangeType);
  }

  // ---------------------------------------------------------------------
  // Dispatch (the switch in main, lines 52-68)
  // ---------------------------------------------------------------------

  /** The switch on the handshake type: the status the selected parser
      returns, or None when the type is not one of the six supported ones
      (main then reports it and stops without parsing). `body` has the
      `uint16_t size` the parsers are given. */
  function Dispatch(hsType: Byte, body: seq<Byte>): (r: Option<ErrorCode>)
    requires |body| < 0x1_0000
    ensures r.None? <==> hsType !in {ClientHelloType, ServerHelloType, CertificateType,
                                      ServerKeyExchangeType, ServerHelloDoneType, ClientKeyExchangeType}
    ensures r.Some? ==> r.value in {NoError, InvalidFileLength, InvalidVersion}
    ensures hsType == ServerHelloDoneType ==> (r == Some(NoError) <==> body == [])
    ensures hsType == CertificateType ==> (r == Some(NoError) <==> body != [])
  {
    if hsType == ClientHelloType then Some(ClientHelloSpec(body).Status())
    else if hsType == ServerHelloType then Some(ServerHelloSpec(body).Status())
    else if hsType == CertificateType then Some(ParseCertificate(body))
    else if hsType == ServerKeyExchangeType then Some(ParseServerKeyExchange(body).Status())
    else if hsType == ServerHelloDoneType then Some(ParseServerHelloDone(body))
    else if hsType == ClientKeyExchangeType then Some(ParseClientKeyExchange(body).Status())
    else None
  }

  /** Decoding a record and dispatching its body, as `main` does between
      reading the file and printing the verdict: the decoder's error, or
      the dispatch result. The decoded body length is passed as the parsers'
      `uint16_t size` without truncation. */
  function ParseMessage(raw: seq<Byte>): (r: Option<ErrorCode>)
    ensures DecodeRecord(raw).Err? ==> r == Some(DecodeRecord(raw).error)
    ensures DecodeRecord(raw).Ok? ==> U16(DecodeRecord(raw).value.mLength) == |DecodeRecord(raw).value.body|
  {
    match DecodeRecord(raw)
    case Err(e) => Some(e)
    case Ok(env) => Dispatch(env.hsType, env.body)
  }

  /** `main` on an accepted record: the parser that byte 5 selects receives
      exactly the bytes after the nine-byte header, and its status is the
      result. */
  lemma ParseMessageAccepted(raw: seq<Byte>)
    ensures HeaderAccepted(raw) && Framed(raw) ==> |raw[9..]| < 0x1_0000 && ParseMessage(raw) == Dispatch(raw[5], raw[9..])
  {
    DecodeRecordVerdict(raw);
    if HeaderAccepted(raw) && Framed(raw) {
      EncodeOfDecodeRecord(raw);
    }
  }

  /** `main` on an encoded valid envelope with a supported version: the
      parser of its type receives its body, and its status is the result. */
  lemma ParseMessageOfEncode(e: Envelope)
    requires ValidEnvelope(e) && IsValidTlsVersion(e.major, e.minor)
    ensures |e.body| < 0x1_0000 && ParseMessage(Encode(e)) == Dispatch(e.hsType, e.body)
  {
    DecodeRecordOfEncode(e);
  }
}
