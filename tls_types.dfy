/** Types and constants shared by the three generations of the TLS handshake
    parser: bytes, big-endian length fields, 16-bit wrap-around, the content
    and handshake type codes, the error codes and the TLS protocol versions. */
module TlsTypes {

  /** An `unsigned char` / `uint8_t`. */
  type Byte = b: int | 0 <= b < 256

  /** ContentType HANDSHAKE (0x16), the only record type the parsers accept. */
  const Handshake: Byte := 22

  // HandshakeType codes of the six messages the parsers dispatch on.
  const ClientHelloType: Byte := 1
  const ServerHelloType: Byte := 2
  const CertificateType: Byte := 11
  const ServerKeyExchangeType: Byte := 12
  const ServerHelloDoneType: Byte := 14
  const ClientKeyExchangeType: Byte := 16

  /** The error codes of both header files, whose integers are 0 to 4 in
      this order; UnsupportedHandshakeMessageType exists only in the later
      one. */
  datatype ErrorCode =
    | NoError
    | InvalidFileLength
    | InvalidContentType
    | InvalidVersion
    | UnsupportedHandshakeMessageType

  /** A pointer that is either NULL or owns a copied byte range. */
  datatype Option<T> = None | Some(value: T)

  /** Returns the bytes an optional buffer holds (none when it is NULL). */
  function Bytes(o: Option<seq<Byte>>): seq<Byte> {
    if o.Some? then o.value else []
  }

  /** The outcome of a parse: the decoded value, or the error code returned. */
  datatype Result<T> = Ok(value: T) | Err(error: ErrorCode) {
    /** The integer-style status the C function returns for this outcome. */
    function Status(): ErrorCode {
      if Ok? then NoError else error
    }
  }

  /** The protocol versions TLS 1.0, 1.1 and 1.2 (appendix E of RFC 5246:
      {3,1}, {3,2} and {3,3}). */
  datatype TlsVersion = Tls10 | Tls11 | Tls12 {
    function Major(): Byte { 3 }
    function Minor(): Byte {
      match this
      case Tls10 => 1
      case Tls11 => 2
      case Tls12 => 3
    }
  }

  /** The weight of one byte position in a big-endian field, 1 << 8. */
  const Radix: nat := 256

  /** `(hi << 8) + lo`: a big-endian 16-bit field. */
  function Be16(hi: Byte, lo: Byte): (v: nat)
    ensures v < 0x1_0000
  {
    hi * Radix + lo
  }

  /** `(b2 << 16) + (b1 << 8) + b0`: a big-endian 24-bit field. */
  function Be24(b2: Byte, b1: Byte, b0: Byte): (v: nat)
    ensures v < 0x100_0000
  {
    b2 * 0x1_0000 + b1 * Radix + b0
  }

  /** `(b3 << 24) + (b2 << 16) + (b1 << 8) + b0` stored in a `uint32_t`. */
  function Be32(b3: Byte, b2: Byte, b1: Byte, b0: Byte): (v: nat)
    ensures v < 0x1_0000_0000
  {
    b3 * 0x100_0000 + b2 * 0x1_0000 + b1 * Radix + b0
  }

  /** The two bytes that encode `v` big-endian. */
  function Be16Bytes(v: nat): (s: seq<Byte>)
    requires v < 0x1_0000
    ensures |s| == 2 && Be16(s[0], s[1]) == v
  {
    [v / 256, v % 256]
  }

  /** The three bytes that encode `v` big-endian. */
  function Be24Bytes(v: nat): (s: seq<Byte>)
    requires v < 0x100_0000
    ensures |s| == 3 && Be24(s[0], s[1], s[2]) == v
  {
    [v / 256 / 256, v / 256 % 256, v % 256]
  }

  /** The four bytes that encode `v` big-endian. */
  function Be32Bytes(v: nat): (s: seq<Byte>)
    requires v < 0x1_0000_0000
    ensures |s| == 4 && Be32(s[0], s[1], s[2], s[3]) == v
  {
    [v / 256 / 256 / 256, v / 256 / 256 % 256, v / 256 % 256, v % 256]
  }

  lemma DivMod256(x: nat, c: Byte)
    ensures (x * 256 + c) / 256 == x && (x * 256 + c) % 256 == c
  {
  }

  /** Decoding a 16-bit field and re-encoding it gives back its two bytes. */
  lemma Be16BytesOf(hi: Byte, lo: Byte)
    ensures Be16Bytes(Be16(hi, lo)) == [hi, lo]
  {
    DivMod256(hi, lo);
  }

  /** Decoding a 24-bit field and re-encoding it gives back its three bytes. */
  lemma Be24BytesOf(b2: Byte, b1: Byte, b0: Byte)
    ensures Be24Bytes(Be24(b2, b1, b0)) == [b2, b1, b0]
  {
    DivMod256(b2 * 256 + b1, b0);
    DivMod256(b2, b1);
  }

  /** Decoding a 32-bit field and re-encoding it gives back its four bytes. */
  lemma Be32BytesOf(b3: Byte, b2: Byte, b1: Byte, b0: Byte)
    ensures Be32Bytes(Be32(b3, b2, b1, b0)) == [b3, b2, b1, b0]
  {
    DivMod256((b3 * 256 + b2) * 256 + b1, b0);
    DivMod256(b3 * 256 + b2, b1);
    DivMod256(b3, b2);
  }

  /** The value a `uint16_t` holds after `x` is assigned to it: C's unsigned
      conversion reduces modulo 2^16 (Dafny's `%` is never negative). */
  function U16(x: int): (r: nat)
    ensures r < 0x1_0000
    ensures 0 <= x < 0x1_0000 ==> r == x
  {
    x % 0x1_0000
  }

  /** Wrapping before a subtraction or after it gives the same `uint16_t`. */
  lemma U16Sub(a: int, b: int)
    ensures U16(U16(a) - b) == U16(a - b)
  {
  }

  /** Wrapping before an addition or after it gives the same `uint16_t`. */
  lemma U16Add(a: int, b: int)
    ensures U16(U16(a) + b) == U16(a + b)
  {
    U16Sub(a, -b);
  }

  /** A `uint16_t` value. */
  type Uint16 = x: int | 0 <= x < 0x1_0000

  /** `a += b` on a `uint16_t`: the sum, less 2^16 when it overflows. */
  function Add16(a: Uint16, b: Uint16): (r: Uint16)
    ensures r == a + b || r == a + b - 0x1_0000
  {
    if a + b < 0x1_0000 then a + b else a + b - 0x1_0000
  }

  /** `a -= b` on a `uint16_t`: the difference, plus 2^16 when it is negative. */
  function Sub16(a: Uint16, b: Uint16): (r: Uint16)
    ensures r == a - b || r == a - b + 0x1_0000
  {
    if a >= b then a - b else a - b + 0x1_0000
  }

  /** Add16 is addition modulo 2^16. */
  lemma Add16Wraps(a: Uint16, b: Uint16)
    ensures Add16(a, b) == U16(a + b)
  {
  }

  /** Sub16 is subtraction modulo 2^16. */
  lemma Sub16Wraps(a: Uint16, b: Uint16)
    ensures Sub16(a, b) == U16(a - b)
  {
  }

  /** A slice of a suffix is a slice of the whole. */
  lemma SliceOfSuffix<T>(s: seq<T>, a: nat, b: nat, c: nat)
    requires a + c <= |s| && b <= c
    ensures s[a..][b..c] == s[a + b..a + c]
    ensures s[a..][b..] == s[a + b..]
  {
  }

  /** Big-endian value of a whole byte string, most significant byte first. */
  function BeValue(s: seq<Byte>): nat
    decreases |s|
  {
    if s == [] then 0 else BeValue(s[..|s| - 1]) * 256 + s[|s| - 1]
  }

  /** Appending a byte shifts the value left by 8 bits and adds the byte. */
  lemma BeValueSnoc(s: seq<Byte>, b: Byte)
    ensures BeValue(s + [b]) == BeValue(s) * 256 + b
  {
    assert (s + [b])[..|s + [b]| - 1] == s;
  }

  /** Two bytes read with BeValue are the 16-bit field they form. */
  lemma BeValuePair(hi: Byte, lo: Byte)
    ensures BeValue([hi, lo]) == Be16(hi, lo)
  {
    BeValueSnoc([], hi);
    BeValueSnoc([hi], lo);
    assert [] + [hi] == [hi];
    assert [hi] + [lo] == [hi, lo];
  }
}
