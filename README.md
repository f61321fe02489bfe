# TLS handshake decoder, three generations

The repository holds a small command-line decoder for one TLS 1.0-1.2
handshake record read from a file. It checks a 5-byte TLSPlaintext header
(section 6.2.1 of RFC 5246) and the 4-byte handshake header (section 7.4 of
RFC 5246), copies the body, and hands the body to a parser chosen by its
handshake type. There are three generations of the decoder, and each is
modelled in its own module:

- `EarlyParser` (`tls-parser/tls-parser.c`) is the first generation. Its
  `initialize_tls_structure` fills a `TlsPlaintext` object from the record
  header. It builds the 16-bit length in a `for` loop and never checks that
  length against the buffer.
- `RootParser` (`tls_parser.c` at the repository root) is the middle
  generation. It has a record decoder that fills a `HandshakeMessage`
  object and the dispatch in `main`. Its Hello parsers are modelled only up
  to the version check. Its ServerKeyExchange parser walks two `uint16_t`
  counters over the Diffie-Hellman vectors. Its ClientKeyExchange parser
  tests the first body byte against 0x16.
- `SrcParser` (`src/tls_parser.c`) is the latest generation. It has the
  same record decoder with a `size <= 3` test, full ClientHello and
  ServerHello parsers driven by a cursor, and Certificate, ServerHelloDone,
  ServerKeyExchange and ClientKeyExchange parsers.

Shared pieces live in two modules:

- `TlsTypes` holds bytes, the big-endian fields and their inverses, the
  error codes, the protocol versions and the `uint16_t` arithmetic. `U16` is
  the C conversion modulo 2^16. `Add16` and `Sub16` are the in-place
  `+=`/`-=` on a `uint16_t` counter.
- `Record` holds the record layout, the `Envelope` value of a
  `HandshakeMessage`, its encoder, and the `HandshakeMessage` class.

`Generations` relates the three generations to each other and runs whole
records through the two later ones.

How the model is built:

- A C function that advances a cursor or updates an object is a Dafny
  `method`. Its `ensures` ties the result, or the new object state, to a
  pure function of the input (the `...Spec` functions and `DecodeRecord`).
  The properties are then proved about that function: round trips with an
  encoder, error kinds, field offsets and wrap-around.
- A body parser receives the body as a `seq<Byte>`, and its `size`
  argument is the length of that sequence.
- Where the C reads past the bytes it has checked, the model adds a guard
  that returns `InvalidFileLength`, and a comment starting `Guard:` names
  the C line whose read it prevents.
- The guards of both record decoders and the guards after the src
  session-ID tests change no verdict, only the reads: a later test of the
  C rejects the same record or body after reading past it (the comments at
  each guard in `DecodeRecord`, `SrcParser.ClientHelloGuardChangesNoVerdict`,
  `SrcParser.ServerHelloGuardChangesNoVerdict`).
- Every other guard, in the key-exchange parsers of both later generations
  and in the root Hello parsers, changes the verdict: where the C goes on
  reading past the body and returns a result that depends on the bytes
  lying there (for most bodies 0), the model returns `InvalidFileLength`.
- The body-parser guards are listed under "## Findings". In each case a
  member models the C as written, a lemma shows the input that reads out
  of bounds, and the guarded member is the one the rest of the model uses.
  The decoder guards are recorded only by their comments.

Where the code departs from what its comments and the record layout of
RFC 5246 lead one to expect, the model follows the code:

- The latest record decoder rejects only `size <= 3` (src/tls_parser.c:84),
  where the root one rejects `size <= 4`. A four-byte record is still
  rejected, but the latest decoder reports InvalidContentType,
  InvalidVersion or InvalidFileLength, whichever of its tests fails first,
  where the root one always reports InvalidFileLength
  (`Generations.RecordDecodersAgree`).
- The code returns `INVALID_FILE_LENGTH` (1) both for a buffer too short to
  read and for a length field that disagrees with the buffer, and the model
  has the one code.
- The `length < 0` tests in both ServerKeyExchange parsers and in the
  ClientKeyExchange parsers are on `uint16_t` counters, so they never fire.
  As a result, a dh_p longer than the declared params length is accepted
  rather than rejected (`Generations.OverlongDhPNotRejected`), and the
  declared length never affects the verdict
  (`RootParser.ParamsLengthNeverChecked`).
- The root ServerKeyExchange cursor reads the dh_g length one byte before
  its place in the layout. It points there because it counts 3 + 2 + p
  bytes and leaves out the type byte (`RootParser.ServerKeyExchangeLayout`).
- The root ClientKeyExchange parser compares the first body byte with 0x16,
  the record content type, and returns `UNSUPPORTED_HANDSHAKE_MESSAGE_TYPE`
  when it differs.
- src/tls_parser.h:93-107 is an unresolved merge conflict. One side
  (line 94) declares `ServerKeyExchange` with no fields; the other (lines
  97-100) gives it a `uint32_t mLength`. src/tls_parser.c:434 assigns
  `mLength`, so it fits only the second side, and the model keeps the value
  that line computes.

## Model

| member | source | states |
|---|---|---|
| Record.Encode | src/tls_parser.c:107-130 | the encoded record has fLength + 5 bytes; type, version, both lengths, handshake type and body sit at the offsets the decoder reads them from |
| Record.EncodeEnvelopeOf | src/tls_parser.c:107-130 | every framed handshake record is the encoding of what the decoder reads from it, that envelope is valid, and its body holds at most 65531 bytes |
| Record.EnvelopeOfEncode | src/tls_parser.c:110-126 | an encoded valid envelope passes both length cross-checks and reads back to itself |
| Record.HandshakeMessage.constructor | src/tls_parser.c:38 | `HandshakeMessage tls_message = { 0 }`: every field starts at zero and the body empty |
| SrcParser.IsValidTlsVersion | src/tls_parser.c:488-490 | true exactly when the two bytes are the version of TLS 1.0, 1.1 or 1.2 |
| SrcParser.DecodeRecord | src/tls_parser.c:81-133 | a record of three bytes or fewer gets InvalidFileLength; otherwise a content type other than 22 gets InvalidContentType, and then an unsupported version gets InvalidVersion; an accepted record has content type 22, a supported version, fLength == mLength + 4 == body length + 4 < 65536 and a body of at most 65531 bytes; errors are only those three |
| SrcParser.DecodeRecordVerdict | src/tls_parser.c:81-133 | a record is accepted exactly when it passes the header tests and both length cross-checks (fLength + 5 == size, fLength == mLength + 4); one that passes both decodes to exactly the fields at their offsets and the bytes after offset 9; a record that passes the header tests but not a cross-check gets InvalidFileLength; an accepted record carries byte 5 as its type and bytes 6-8 as its 24-bit mLength |
| SrcParser.DecodeRecordOfEncode | src/tls_parser.c:81-133 | every valid envelope with a supported version is accepted and decoded back to itself |
| SrcParser.EncodeOfDecodeRecord | src/tls_parser.c:107-130 | every accepted record is exactly the encoding of what it decodes to |
| SrcParser.InitializeTlsStructure | src/tls_parser.c:81-133 | returns the decoder's status in the C's rejection order, succeeding exactly when the header is accepted and both length cross-checks hold and returning InvalidFileLength when a cross-check fails; writes nothing before the header is accepted; stores type, version, fragment length, handshake type and body length at the points the C does, leaving the later fields unchanged on an early failure; copies the body only on success, when the object then holds the decoded envelope |
| SrcParser.HelloPrefixFields | src/tls_parser.c:176-196 | reading the version, the Random and the SessionID back from an encoded hello prefix gives what was encoded; the bytes after it are untouched |
| SrcParser.HelloPrefixOf | src/tls_parser.c:176-196 | every body long enough for its session ID starts with the hello prefix of the version, Random and SessionID read from it |
| SrcParser.SessionIdFitsAsWritten | src/tls_parser.c:189 | the as-written test passes every body that holds the session ID, and also the body one byte too short for it, and rejects every shorter one: it never rejects a good body, but lets through a short one |
| SrcParser.ClientHelloSpec | src/tls_parser.c:161-239 | the ClientHello parser fails only with InvalidFileLength or InvalidVersion; a body shorter than 38 bytes gets InvalidFileLength; InvalidVersion comes exactly from a body of 38 bytes or more with an unsupported version; an accepted ClientHello has a supported version |
| SrcParser.ParseClientHello | src/tls_parser.c:161-239 | the cursor-driven parser returns exactly the specified verdict and the ClientHello structure it fills |
| SrcParser.ClientHelloAccepted | src/tls_parser.c:187-232 | every accepted body carries what the parser returns: version, Random and SessionID where the C reads them, a cipher-suite vector of the declared length, one compression method and a non-empty extensions remainder |
| SrcParser.AcceptedOfClientHelloAt | src/tls_parser.c:161-232 | every body that carries a ClientHello is accepted, and parsing returns that ClientHello |
| SrcParser.ClientHelloAtEncode | src/tls_parser.c:176-232 | an encoded well-formed ClientHello carries the ClientHello it encodes |
| SrcParser.ClientHelloAtWellFormed | src/tls_parser.c:176-232 | a ClientHello that some body carries is well formed |
| SrcParser.EncodeOfClientHelloAt | src/tls_parser.c:176-232 | a body that carries a ClientHello is exactly its encoding |
| SrcParser.ClientHelloRestLayout | src/tls_parser.c:198-232 | in the bytes after the session ID, the cipher-suite length, the suites, the compression count 1, the method and the extensions lie where the cursor reads them |
| SrcParser.ClientHelloOfEncode | src/tls_parser.c:161-232 | every well-formed ClientHello is accepted and parsed back to itself |
| SrcParser.EncodeOfClientHello | src/tls_parser.c:161-232 | every accepted ClientHello body is well formed and is exactly the encoding of what it parses to, so no byte is skipped or read twice |
| SrcParser.OddCipherSuiteLengthAccepted | src/tls_parser.c:198-209 | some accepted ClientHello declares an odd number of cipher-suite bytes |
| SrcParser.ShortSessionIdHello | src/tls_parser.c:187-191 | a 38-byte body with a supported version and session-ID length 4 |
| SrcParser.ClientHelloSessionIdOverrun | src/tls_parser.c:187-195 | the as-written session-ID test lets a 38-byte body through although its session ID ends past the body; the guarded parser rejects it |
| SrcParser.ClientHelloGuardChangesNoVerdict | src/tls_parser.c:187-214 | every body the guard after the session-ID test rejects would be rejected by the C too: whatever cipher-suite length it reads past the end, the test at line 202 or at line 212 fails |
| SrcParser.ServerHelloSpec | src/tls_parser.c:296-359 | the ServerHello parser fails only with InvalidFileLength or InvalidVersion; a body shorter than 38 bytes gets InvalidFileLength; InvalidVersion comes exactly from a body of 38 bytes or more with an unsupported version; an accepted ServerHello has a supported version |
| SrcParser.ParseServerHello | src/tls_parser.c:296-359 | the cursor-driven parser returns exactly the specified verdict and the ServerHello structure it fills |
| SrcParser.ServerHelloOfEncode | src/tls_parser.c:296-352 | every well-formed ServerHello is accepted and parsed back to itself |
| SrcParser.EncodeOfServerHello | src/tls_parser.c:296-352 | every accepted ServerHello body is well formed and is exactly its encoding; extensions are present exactly when bytes remain after the compression method, and are those bytes |
| SrcParser.ServerHelloSessionIdOverrun | src/tls_parser.c:321-335 | the as-written session-ID test lets a 38-byte body through although its session ID and cipher suite end past the body; the guarded parser rejects it |
| SrcParser.ServerHelloGuardChangesNoVerdict | src/tls_parser.c:321-340 | every body the guard after the session-ID test rejects would be rejected by the C too: after the two cipher-suite reads past the end, the test at line 338 fails |
| SrcParser.ParseCertificate | src/tls_parser.c:413-424 | succeeds exactly when the chain is non-empty, and fails otherwise with InvalidFileLength |
| SrcParser.ParseServerHelloDone | src/tls_parser.c:511-518 | succeeds exactly when the body is empty, and fails otherwise with InvalidFileLength |
| SrcParser.ServerDhParamsLength | src/tls_parser.c:432-436 | the printed length fits a `uint16_t`, and adding 3 back gives bytes 0, 1 and 3 read as a 24-bit value, modulo 2^16 |
| SrcParser.ParseServerKeyExchange | src/tls_parser.c:426-444 | fails exactly on a body shorter than four bytes; otherwise succeeds with that `uint16_t` length, since the `length < 0` test never fires |
| SrcParser.EncryptedKeyLength | src/tls_parser.c:451-454 | the printed length fits a `uint16_t`, and adding 2 back gives the 16-bit public-key length |
| SrcParser.ParseClientKeyExchange | src/tls_parser.c:446-462 | fails exactly on a body shorter than two bytes, with InvalidFileLength; otherwise succeeds with a length below 2^16 that gives the public-key length when 2 is added back modulo 2^16 |
| SrcParser.EmptyBodyAccepted | src/tls_parser.c:81-133 | the record decoder accepts a nine-byte record with an empty body of any handshake type |
| SrcParser.KeyExchangeReadsPastEmptyBody | src/tls_parser.c:426-462 | the decoder hands empty bodies to both key-exchange parsers, which read 4 and 2 bytes of them as written; the guarded parsers reject them |
| SrcParser.Dispatch | src/tls_parser.c:52-68 | selects no parser exactly for the types outside the six; a parser's status is NoError, InvalidFileLength or InvalidVersion; a ServerHelloDone succeeds iff its body is empty, a Certificate iff it is not |
| SrcParser.ParseMessage | src/tls_parser.c:38-68 | a decoder error is the result; an accepted body's length is the `uint16_t size` of the parsers without truncation |
| SrcParser.ParseMessageAccepted | src/tls_parser.c:38-68 | on every record the decoder accepts, the result is the status of the parser that byte 5 selects, run on exactly the bytes after the nine-byte header |
| SrcParser.ParseMessageOfEncode | src/tls_parser.c:38-68 | every encoded valid envelope with a supported version reaches the parser of its type with its body |
| RootParser.VersionRejected | tls_parser.c:112 | true exactly when the two bytes are not the version of TLS 1.0, 1.1 or 1.2 |
| RootParser.DecodeRecord | tls_parser.c:94-149 | a record of four bytes or fewer gets InvalidFileLength; otherwise a content type other than 22 gets InvalidContentType, and then an unsupported version gets InvalidVersion; an accepted record has content type 22, a supported version, fLength == mLength + 4 == body length + 4 < 65536 and a body of at most 65531 bytes; errors are only those three |
| RootParser.DecodeRecordVerdict | tls_parser.c:94-149 | a record is accepted exactly when it passes the header tests and both length cross-checks (fLength + 5 == size, fLength == mLength + 4); one that passes both decodes to exactly the fields at their offsets and the bytes after offset 9; a record that passes the header tests but not a cross-check gets InvalidFileLength; an accepted record carries byte 5 as its type and bytes 6-8 as its 24-bit mLength |
| RootParser.DecodeRecordOfEncode | tls_parser.c:94-149 | every valid envelope with a supported version is accepted and decoded back to itself |
| RootParser.EncodeOfDecodeRecord | tls_parser.c:124-146 | every accepted record is exactly the encoding of what it decodes to, and its body is raw[9..9 + mLength] |
| RootParser.InitializeTlsStructure | tls_parser.c:94-149 | returns the decoder's status in the C's rejection order, succeeding exactly when the header is accepted and both length cross-checks hold and returning InvalidFileLength when a cross-check fails; writes nothing before the header is accepted; then stores type, version and fragment length before comparing it, stores handshake type and body length once it fits, and copies the body only on success |
| RootParser.ParseClientHello | tls_parser.c:194-196 | reports InvalidFileLength exactly for the empty body and the one-byte body 03, where the version test would read past the end; a first byte other than 0x03 gives InvalidVersion whatever the length, as the C's short-circuit OR does; on two or more bytes, succeeds iff they name a supported version and reports InvalidVersion iff they do not |
| RootParser.ParseServerHello | tls_parser.c:294-296 | reports InvalidFileLength exactly for the empty body and the one-byte body 03, where the version test would read past the end; a first byte other than 0x03 gives InvalidVersion whatever the length, as the C's short-circuit OR does; on two or more bytes, succeeds iff they name a supported version and reports InvalidVersion iff they do not |
| RootParser.ParseCertificate | tls_parser.c:366-377 | succeeds exactly when the chain is non-empty |
| RootParser.ParseServerHelloDone | tls_parser.c:471-478 | succeeds exactly when the body is empty |
| RootParser.ParseClientKeyExchange | tls_parser.c:445-469 | reports an unsupported type exactly when the first byte is not 0x16; succeeds exactly on two or more bytes starting with 0x16, with a 16-bit value 0x16xx whose low byte is the second body byte |
| RootParser.DhGLengthAt | tls_parser.c:396-413 | without wrap-around the dh_g length is read at offset 5 + p |
| RootParser.DhYsLengthAt | tls_parser.c:413-426 | without wrap-around the dh_Ys length is read 2 + g bytes after the dh_g length |
| RootParser.Countdown | tls_parser.c:395-428 | when the declared params length covers the three vectors and their length fields, the counter ends at exactly the bytes left over; when it falls short by at most 2^16, the counter ends 2^16 higher instead of going negative |
| RootParser.CountdownWraps | tls_parser.c:395-428 | the `length` counter ends at the declared params length minus 2 + p, 2 + g and 2 + Ys, modulo 2^16; it never saturates or stops |
| RootParser.ServerKeyExchangeSpec | tls_parser.c:379-442 | the parser fails only with InvalidFileLength or UnsupportedHandshakeMessageType, and both counters stay below 2^16 |
| RootParser.ParseServerKeyExchange | tls_parser.c:379-442 | the method with its two `uint16_t` counters returns exactly the specified verdict and final counter values |
| RootParser.ParamsLengthNeverChecked | tls_parser.c:394-432 | changing the declared params length (bytes 1..3) never changes the verdict, on every body of six bytes or more whose 16-bit cursor does not wrap the dh_g length offset back below 4 (where it would read that length out of bytes 1..3 themselves) |
| RootParser.ServerKeyExchangeVerdict | tls_parser.c:386-432 | the result is Unsupported exactly when the first byte is not 0x0C; InvalidFileLength comes only from a read past the body |
| RootParser.ServerKeyExchangeLayout | tls_parser.c:394-435 | without wrap-around, the three vector lengths are read at offsets 4, 5 + p and 7 + p + g, the cursor ends at 9 + p + g + Ys, and `length` ends at mLength - 6 - p - g - Ys modulo 2^16 |
| RootParser.ProcessedWraps | tls_parser.c:394-435 | on every accepted body, wrap-around included, `indexOfProcessedByte` ends at 9 + p + g + Ys modulo 2^16 |
| RootParser.ProcessedOfLengths | tls_parser.c:394-428 | the final `indexOfProcessedByte` is the cursor the three 16-bit steps reach over the vector lengths the parser reports, so it depends on those lengths alone |
| RootParser.CursorWraps | tls_parser.c:394-428 | the cursor steps 5 + p, + 2 + g, + 2 + Ys, each stored in a 16-bit variable, add up to 9 + p + g + Ys modulo 2^16 |
| RootParser.YsOverrunBody | tls_parser.c:425-435 | a nine-byte body with zero dh_p and dh_g lengths and a dh_Ys length of 255 |
| RootParser.YsOverrunAccepted | tls_parser.c:425-435 | that body is accepted although its dh_Ys vector runs 255 bytes past its end, and the cursor ends past the body |
| RootParser.OverlongDhPBody | tls_parser.c:394-402 | a 19-byte body that declares params length 4 and dh_p length 10 |
| RootParser.OverlongDhPAccepted | tls_parser.c:399-406 | that body is accepted, and the counter wraps to 65524 instead of going negative |
| RootParser.ShortDhBody | tls_parser.c:400-413 | a six-byte body that declares a five-byte dh_p |
| RootParser.DhCursorReadsPastBody | tls_parser.c:400-413 | as written the dh_g length of that body is read past its end; the guarded parser rejects it, and the record decoder accepts a record that carries it |
| RootParser.Dispatch | tls_parser.c:63-79 | a type outside the six gives Unsupported; Unsupported comes exactly from such a type or from a key-exchange body whose first byte is not 0x0C / 0x16; never InvalidContentType |
| RootParser.ParseMessage | tls_parser.c:46-92 | a decoder error is the exit code; otherwise the code is never InvalidContentType |
| RootParser.ParseMessageAccepted | tls_parser.c:46-92 | on every record the decoder accepts, the exit code is the status of the parser that byte 5 selects, run on exactly the bytes after the nine-byte header |
| RootParser.ParseMessageOfEncode | tls_parser.c:46-92 | every encoded valid envelope with a supported version reaches the parser of its type with its body, whose status is the exit code |
| RootParser.EmptyBodyAccepted | tls_parser.c:94-149 | the root record decoder accepts a nine-byte record with an empty body of any handshake type |
| RootParser.FirstByteReadPastEmptyBody | tls_parser.c:386-389 | the decoder hands an empty body of any type to the parsers, which read message[0] of it as written; the guarded Hello and key-exchange parsers reject it |
| RootParser.SecondByteReadPastOneByteBody | tls_parser.c:194 | at line 194, and at lines 294, 394-400 and 460, the guarded parsers reject a one-byte body exactly where the C reads a second byte past it (Hello byte 03, ServerKeyExchange 0C, ClientKeyExchange 16), and a one-byte Hello body whose byte is not 0x03 gets InvalidVersion |
| RootParser.OneByteClientHelloRecords | tls_parser.c:46-92 | through the version test of line 194, the record 16 03 01 00 05 01 00 00 01 00 gets InvalidVersion end to end, and the same record with last byte 03 gets InvalidFileLength |
| EarlyParser.TlsPlaintext.constructor | tls-parser/tls-parser.c:24-29 | an uninitialised structure holds the given field values |
| EarlyParser.Accepts | tls-parser/tls-parser.c:31-60 | a buffer is accepted exactly when it has more than four bytes, content type 22 and a supported version |
| EarlyParser.InitializeTlsStructure | tls-parser/tls-parser.c:31-60 | returns 0 exactly for accepted buffers and 1 otherwise; writes nothing before type and major are accepted; writes type and major but no other field when the minor is bad; on success the length is the big-endian value of bytes 3 and 4 (the loop over i = 3..4) and the fragment is the bytes after the header |
| Generations.VersionTestsAgree | src/tls_parser.c:488-490 | the version tests of the two later generations are the same test |
| Generations.RecordDecodersAgree | src/tls_parser.c:84-97 | the two later decoders agree on every record except those of exactly four bytes, which both reject: the root one with InvalidFileLength, the latest one with InvalidContentType, InvalidVersion or InvalidFileLength, in the order of its tests |
| Generations.FourByteRecordCodesDiffer | src/tls_parser.c:84-93 | a four-byte record with the wrong content type gets InvalidContentType from the latest decoder and InvalidFileLength from the root one |
| Generations.LaterDecodersRefineEarly | tls-parser/tls-parser.c:31-60 | every record the latest decoder accepts is accepted by the first one, with the same fragment length and a fragment holding the handshake header and body |
| Generations.EarlyAcceptsUnframed | tls-parser/tls-parser.c:51-59 | the first decoder accepts a five-byte record that declares a 65535-byte fragment; both later ones reject it |
| Generations.ServerHelloDoneRecordAccepted | src/tls_parser.c:511-518 | the record 16 03 01 00 04 0E 00 00 00 is decoded as an empty ServerHelloDone and accepted |
| Generations.ServerHelloDoneRecordAcceptedByRoot | tls_parser.c:471-478 | the root decoder and parser accept the same record |
| Generations.ShortFileRejected | src/tls_parser.c:110-113 | a 14-byte file that declares a 10-byte fragment is rejected with InvalidFileLength by both later generations |
| Generations.ApplicationDataRejected | src/tls_parser.c:91-93 | a record of content type 0x17 is rejected with InvalidContentType |
| Generations.Version13Rejected | src/tls_parser.c:95-97 | a record with version bytes 03 04 is rejected with InvalidVersion |
| Generations.ShortClientHello | src/tls_parser.c:162-165 | a 37-byte ClientHello body is rejected by the latest parser and accepted by the root one |
| Generations.OverlongDhPNotRejected | tls_parser.c:399-406 | a dh_p longer than the declared params length is accepted by both later generations |
| Generations.CertificateRequestUnsupported | tls_parser.c:76-78 | type 13 selects no parser in the latest dispatch and is reported as unsupported by the root one |

## Left out

- `main`'s argument check, file opening, `fseek`/`ftell`/`fread` and `malloc`/`free` are left out: they are I/O around the decoder. The file becomes the `raw` parameter. The root `main` returns its error code (tls_parser.c:56, 77, 86), and `RootParser.ParseMessage` is that code; the `exit(0)` through which src `handle_errors` ends the process is left out, and `SrcParser.ParseMessage` returns the code `handle_errors` receives.
- The `print_*` functions and `handle_errors` are left out: they only print decoded fields.
- `clean_client_hello` and `clean_server_hello` are left out: they only free memory.
- Past their version test, the root Hello parsers (tls_parser.c:198-277 and 298-363) only print fields, read without size tests, and always return 0. The model stops at the version test, so it does not capture those unchecked reads.
- The `system("date ...")` calls at tls_parser.c:221 and 321 are left out: they run a shell command that only prints a date.
- The certificate chain, the DH values and the key bytes are not decoded: the C never interprets them.
- EarlyParser.InitializeTlsStructure: the fragment is the pointer raw + 5 into the caller's buffer; the model stores a copy, so aliasing with the buffer is not modelled.
- RootParser.ParseClientKeyExchange: the C counter `length` is read uninitialised at line 459 and compared only by the dead `length < 0` test; the model drops that counter.
- SrcParser.InitializeTlsStructure, RootParser.InitializeTlsStructure: at the added guards (records of four bytes, or fewer than nine) the C would write fields from bytes past the buffer before failing; the model fails without those writes.
- SrcParser.Dispatch, RootParser.Dispatch: they call the pure `...Spec` functions of the body parsers rather than the methods, because a function cannot call a method; each method is proved equal to its function.
- The merge conflict in src/tls_parser.h:93-107 is not resolved in the model: of its two sides, the model follows the one (lines 97-100) whose `uint32_t mLength` src/tls_parser.c:434 assigns.
- tls_parser.h:72-80 declares `ServerKeyExchange` and `ClientKeyExchange` with no fields, yet tls_parser.c:394-459 assigns `mLength`, `params.length_dh_p`, `length_dh_g`, `length_dh_ys` and `pubKeyLength`. The declarations those fields would need are not in the header, so the model chooses their widths: `mLength` holds the 24-bit value, and the vector lengths and `pubKeyLength` hold 16-bit values, as the two bytes each is built from allow.
- RootParser.ServerKeyExchangeSpec: like the C, it never compares the dh_p, dh_g and dh_Ys vectors with the body; it only refuses to read a length field past the end. A body whose vectors run past its end is therefore accepted (`RootParser.YsOverrunAccepted`).

## Findings

| source | as written | input that shows it | evidently intended | confidence | as-written member | corrected member |
|---|---|---|---|---|---|---|
| src/tls_parser.c:189 | the session-ID test compares `size` with length + 34, forgetting the length byte and the two cipher-suite bytes, then copies and reads past the body | a 38-byte ClientHello with session-ID length 4 | return InvalidFileLength before reading past the body (the verdict is the same: the tests at lines 202 and 212 reject such a body after the reads) | not executed | SrcParser.SessionIdFitsAsWritten, SrcParser.ClientHelloSessionIdOverrun, SrcParser.ClientHelloGuardChangesNoVerdict | SrcParser.ClientHelloSpec |
| src/tls_parser.c:324 | the same test in the ServerHello parser, followed by two unchecked cipher-suite reads | the same 38-byte body as a ServerHello | return InvalidFileLength before reading past the body (the verdict is the same: the test at line 338 rejects such a body after the reads) | not executed | SrcParser.SessionIdFitsAsWritten, SrcParser.ServerHelloSessionIdOverrun, SrcParser.ServerHelloGuardChangesNoVerdict | SrcParser.ServerHelloSpec |
| src/tls_parser.c:434 | reads message[0], [1] and [3] of a body of any size | the nine-byte record 16 03 01 00 04 0C 00 00 00, whose body is empty | reject a body too short for the params length | not executed | SrcParser.ServerDhParamsLength, SrcParser.KeyExchangeReadsPastEmptyBody | SrcParser.ParseServerKeyExchange |
| src/tls_parser.c:452 | reads message[0] and [1] of a body of any size | the nine-byte record 16 03 01 00 04 10 00 00 00, whose body is empty | reject a body too short for the public-key length | not executed | SrcParser.EncryptedKeyLength, SrcParser.KeyExchangeReadsPastEmptyBody | SrcParser.ParseClientKeyExchange |
| tls_parser.c:413 | the cursor reads the dh_g and dh_Ys lengths without comparing it with `size` | the six-byte body 0C 00 00 02 00 05, whose dh_g length is read at offsets 10-11 | reject a body too short for the length fields the cursor reads | not executed | RootParser.DhGLengthAt, RootParser.DhCursorReadsPastBody | RootParser.ServerKeyExchangeSpec |
| tls_parser.c:194 | the Hello, ServerKeyExchange and ClientKeyExchange parsers read message[0] before any size test, and then message[1] (the Hello version test once message[0] is 0x03, and line 460) or message[1..5] (lines 394-400) with none either | the nine-byte record 16 03 01 00 04 01 00 00 00, whose body is empty; the one-byte bodies 03, 0C and 16 | reject a body too short for the bytes each test reads, and nothing else | not executed | RootParser.VersionRejected, RootParser.FirstByteReadPastEmptyBody, RootParser.SecondByteReadPastOneByteBody | RootParser.ParseClientHello, RootParser.ParseServerHello, RootParser.ServerKeyExchangeSpec, RootParser.ParseClientKeyExchange |
