# go-proxy: SNI sniffing, record prefetch and chunked relay in Dafny

This project models the core of `cmd/proxy/main.go` in go-proxy, a TCP proxy
that can terminate TLS in front of a plain-text target. The model has three
parts.

- **`parseClientHello`.** It walks one TLS record (the record layer in section
  6.2.1 of RFC 5246), the client_hello handshake message inside it, and the
  ClientHello body (section 7.4.1.2 of RFC 5246). Then it scans the extension
  block for the server_name extension (section 3 of RFC 6066). The result is
  the pair Go returns, `(host name, looks like TLS)`. The `cryptobyte.String`
  cursor is modelled as bounds-checked reads over a byte sequence. Each read
  returns `Option<(value, rest)>` and never trusts a declared length.
- **Record prefetch and prefix replay in `doProxy`.** Exactly one record is
  read off the accepted connection: the 5-byte header, then as many bytes as
  its 16-bit length field announces. The record is sniffed, and the TLS server
  gets a `prefixConn` that reads the buffered record before the live stream.
- **The non-native `copyTo` loop.** It reads into a 128-byte buffer, writes
  what was read, and stops at the first read or write error, returning
  `(0, err)`.

Modules:

- `Wire`: bytes, big-endian numbers, `Option`, and flattening of chunk lists.
- `Cryptobyte`: the cursor reads.
- `Sni`: the sniffer, one function per stage of `parseClientHello`.
- `SniEncoding`: the writer's side of the same bytes, a full ClientHello
  decoder used as a reference, and the intended result stated on the
  structured message.
- `SniProperties`: the lemmas about the sniffer.
- `Socket`: the reading side of a connection.
- `Prefetch`: record prefetch, `prefixConn`, and the strip-SSL decision.
- `Relay`: the chunked copy.

A connection is modelled as the bytes already received plus the segments the
peer will still send (`Socket.Conn`). A read returns as many pending bytes as
fit, or, when nothing is pending, as many as fit from the next segment. This
is how a 300-byte message arriving in one segment is read as 128, 128 and 44
bytes. End of stream is the only read error. A segment in the model may be
empty, in which case a read of positive size returns no bytes and no error;
a Go TCP connection never does that, so this only widens the inputs the
properties cover.

The sniffer keeps three behaviours of the source exactly as written:

- A ClientHello version outside [0x0301, 0x0303] gives `("", false)`, not
  "TLS without a server name".
- In the server name list, an entry whose name type is not host_name is passed
  over by reading only its type byte, not its name. The next byte is then read
  as a name type. So the first zero byte of the list is taken as the host_name
  entry (`SniProperties.FirstZeroByteDecides`). An entry of another type with
  an empty name therefore produces an empty host name
  (`SniProperties.EmptyOtherEntryHidesHostName`).
- Only the first server_name extension is examined. If its list has no
  host_name entry, the result is `("", false)`, even when a later server_name
  extension names a host (`SniProperties.SecondServerNameNeverConsulted`).

## Model

| member | source | states |
|---|---|---|
| Cryptobyte.Read | cmd/proxy/main.go:209-212 | a read of n bytes succeeds exactly when n bytes remain; what it returns has length n and, followed by the rest, is the input |
| Cryptobyte.Skip | cmd/proxy/main.go:190 | skipping n bytes succeeds exactly when n bytes remain and leaves the input without its first n bytes |
| Cryptobyte.ReadUint8 | cmd/proxy/main.go:188 | one byte is read exactly when the input is non-empty, and it is the input's first byte |
| Cryptobyte.ReadUint | cmd/proxy/main.go:206 | an n-byte big-endian number is read exactly when n bytes remain; the number re-encoded, followed by the rest, is the input |
| Cryptobyte.ReadLengthPrefixed | cmd/proxy/main.go:209-212 | succeeds exactly when the length field is present and does not run past the input; the length field, the field and the rest recombine to the input |
| Cryptobyte.ReadUintOfEncoding | cmd/proxy/main.go:206 | an encoded number reads back as itself, whatever follows it |
| Cryptobyte.ReadLengthPrefixedOfEncoding | cmd/proxy/main.go:190 | a length-prefixed field reads back as its own bytes, whatever follows it |
| Cryptobyte.ReadLengthPrefixedExtends | cmd/proxy/main.go:198 | bytes appended after a successful length-prefixed read go to the rest and do not change the field read |
| Wire.BigEndian | cmd/proxy/main.go:107 | the number spelled by n bytes is below 256^n |
| Wire.BigEndianDigits | cmd/proxy/main.go:107 | two bytes read as `b[0]*256 + b[1]`, as `binary.BigEndian.Uint16` does, and three bytes as `b[0]*65536 + b[1]*256 + b[2]`, as a 24-bit length is read |
| Wire.ToBigEndian | cmd/proxy/main.go:107 | the n-byte big-endian encoding of a number below 256^n has n bytes and decodes back to that number |
| Wire.ToBigEndianOfBigEndian | cmd/proxy/main.go:107 | decoding n bytes and encoding the number again in n bytes gives back the same bytes |
| Sni.RecordFragment | cmd/proxy/main.go:183-192 | the fragment is found exactly when the record has 5 bytes, content type 22 and a length at offsets 3-4 that fits; the fragment is the bytes at offsets 5 up to 5 plus that length |
| Sni.HandshakeBody | cmd/proxy/main.go:194-200 | the body is found exactly when the fragment has 4 bytes, message type 1 and a 24-bit length at offsets 1-3 that fits; the body is the bytes that length covers |
| Sni.HelloExtensions | cmd/proxy/main.go:202-214 | a version outside [TLS 1.0, TLS 1.2] gives no extension block; a found block implies a body of at least 40 bytes |
| Sni.HostName | cmd/proxy/main.go:241-245 | a host name is returned exactly when a complete 16-bit length-prefixed name follows, and it is that name; otherwise the result is ("", false) |
| Sni.ParseClientHello | cmd/proxy/main.go:182-192 | a record with a bad content type, or too short for its header or declared fragment, gives ("", false); otherwise the result is that of the fragment alone; a result that is not TLS is always ("", false) |
| Sni.SniffFragment | cmd/proxy/main.go:194-200 | a fragment with a message type other than client_hello, or whose 24-bit length overruns it, gives ("", false); otherwise the result is that of the body alone |
| Sni.SniffHello | cmd/proxy/main.go:202-216 | a body shorter than the 40 bytes of a minimal ClientHello, or whose version is outside [TLS 1.0, TLS 1.2], gives ("", false); a result that is not TLS is always ("", false) |
| Sni.ServerNameExtension | cmd/proxy/main.go:228-231 | the extension data gives ("", false) unless it holds a 16-bit list length that does not overrun it; otherwise the result is that of the server name list the length covers |
| Sni.ScanExtensions | cmd/proxy/main.go:216-253 | an empty extension block gives ("", true) |
| Sni.ScanServerNames | cmd/proxy/main.go:232-249 | an exhausted server name list gives ("", false) |
| SniEncoding.DecodeClientHelloSound | cmd/proxy/main.go:204-212 | whatever the reference decoder accepts is a well-formed ClientHello body whose encoding, followed by the remaining bytes, is the input |
| SniProperties.FirstZeroByteDecides | cmd/proxy/main.go:232-245 | the first zero byte of the server name list is taken as the host_name entry, and the result is the host name that follows it |
| SniProperties.NoZeroByteFails | cmd/proxy/main.go:232-249 | a server name list without a zero byte gives ("", false) |
| SniProperties.ServerNameExtensionOfList | cmd/proxy/main.go:228-231 | the extension data is read as the list behind its 16-bit length; bytes after the list are ignored |
| SniProperties.HostNameOfEncoding | cmd/proxy/main.go:241-245 | a complete length-prefixed host name is returned as (name, true) |
| SniProperties.HostNameEntryFirst | cmd/proxy/main.go:228-245 | a server name list that starts with a host_name entry yields that name, whatever entries and bytes follow |
| SniProperties.EmptyServerNameListFails | cmd/proxy/main.go:232-249 | an empty server name list gives ("", false) |
| SniProperties.EmptyOtherEntryHidesHostName | cmd/proxy/main.go:237-239 | an entry of another name type with an empty name, before a host_name entry, gives ("", true): the zero length byte is read as a host_name type followed by an empty name |
| SniProperties.ExtensionReads | cmd/proxy/main.go:220-221 | an encoded extension reads back as its type and its data, whatever follows it |
| SniProperties.ScanPassesOtherExtension | cmd/proxy/main.go:224-226 | an extension of another type is read in full and skipped |
| SniProperties.ScanStopsAtServerName | cmd/proxy/main.go:224-249 | a server_name extension ends the scan, and its data alone decides the result |
| SniProperties.ScanExtensionsOfEncoding | cmd/proxy/main.go:216-253 | on a well-formed extension block the scan gives the intended result: the first server_name extension decides, and a block without one gives ("", true) |
| SniProperties.NoServerNameExtension | cmd/proxy/main.go:217-226 | a well-formed block with no server_name extension gives ("", true) |
| SniProperties.FirstServerNameDecides | cmd/proxy/main.go:216-249 | after extensions of other types, the first server_name extension decides the result, and no byte after it is examined |
| SniProperties.TruncatedExtensionFails | cmd/proxy/main.go:220-223 | after extensions of other types, an extension whose header is cut short or whose data length overruns the block gives ("", false) |
| SniProperties.SecondServerNameNeverConsulted | cmd/proxy/main.go:248-249 | a first server_name extension with an empty list gives ("", false), even when a second one names a host |
| SniProperties.DecodeOfEncoding | cmd/proxy/main.go:204-212 | every well-formed ClientHello body decodes back as itself, whatever follows it |
| SniProperties.EncodingPrefixFree | cmd/proxy/main.go:204-212 | two bodies whose encodings start the same byte string are equal |
| SniProperties.HelloExtensionsAgreesWithDecoder | cmd/proxy/main.go:202-214 | the sniffer's walk finds the extension block exactly when the reference decoder accepts the body and its version is in [TLS 1.0, TLS 1.2], and then it is the decoded block |
| SniProperties.HelloExtensionsOfEncoding | cmd/proxy/main.go:202-214 | on a well-formed body the walk returns the extension block when the version is accepted and fails otherwise |
| SniProperties.HelloTruncationFails | cmd/proxy/main.go:206-214 | a well-formed body cut short anywhere, inside any field, fails the walk |
| SniProperties.HelloIgnoresTrailingBytes | cmd/proxy/main.go:202-214 | bytes after the body do not change the walk's result |
| SniProperties.RecordFragmentOfEncoding | cmd/proxy/main.go:183-192 | an encoded handshake record reads back as its fragment, whatever follows it |
| SniProperties.HandshakeBodyOfEncoding | cmd/proxy/main.go:194-200 | an encoded client_hello message reads back as its body, whatever follows it |
| SniProperties.SniffHelloAgreesWithDecoder | cmd/proxy/main.go:202-253 | a body the reference decoder rejects, or whose version is out of range, gives ("", false); otherwise its extension block is scanned |
| SniProperties.ParseOfEncoding | cmd/proxy/main.go:182-254 | a record holding a client_hello holding a well-formed body gives the intended result for its extensions, with any bytes after the body, the message or the record |
| SniProperties.ParseIgnoresTrailingBytes | cmd/proxy/main.go:183-192 | bytes after a complete record do not change the result |
| SniProperties.MessageIgnoresTrailingBytes | cmd/proxy/main.go:194-200 | bytes after a complete client_hello message in the fragment do not change the body found |
| SniProperties.HostNameInfix | cmd/proxy/main.go:241-245 | the host name is a contiguous run of the bytes it was read from |
| SniProperties.ScanServerNamesInfix | cmd/proxy/main.go:232-245 | the host name is a contiguous run of the server name list |
| SniProperties.ServerNameExtensionInfix | cmd/proxy/main.go:228-245 | the host name is a contiguous run of the extension data |
| SniProperties.ScanExtensionsInfix | cmd/proxy/main.go:216-249 | the host name is a contiguous run of the extension block |
| SniProperties.HelloExtensionsInfix | cmd/proxy/main.go:202-214 | the extension block is a contiguous run of the body |
| SniProperties.ServerNameIsSliceOfRecord | cmd/proxy/main.go:182-254 | the host name returned is a contiguous run of the record's own bytes |
| Socket.Read | cmd/proxy/main.go:148 | a read fails exactly when it asks for at least one byte at end of stream (a zero-size read returns nothing and no error), returns at most the buffer size, takes the pending bytes first, and loses no byte |
| Socket.CopyN | cmd/proxy/main.go:102 | copying n bytes succeeds exactly when the stream still holds n bytes; the copy has n bytes and, followed by what remains, is the stream |
| Prefetch.PrefetchRecord | cmd/proxy/main.go:101-111 | prefetch succeeds exactly when the stream holds a 5-byte header and the length at offsets 3-4 announces no more than follows; it takes exactly 5 plus that length, and the record followed by the remaining stream is the original stream |
| Prefetch.PrefixRead | cmd/proxy/main.go:62-69 | a read of the replaying connection fails exactly when it asks for at least one byte at end of both the buffer and the stream (a zero-size read returns nothing and no error), loses no byte, and reads only buffered bytes while some remain |
| Prefetch.ReplayIsLossless | cmd/proxy/main.go:117-120 | for any series of reads, the bytes returned followed by the bytes still unread are the replaying connection's whole content |
| Prefetch.Intercept | cmd/proxy/main.go:98-125 | with stripping off the connection is passed through; with it on, the proxy aborts exactly when prefetch fails and otherwise always hands on a replaying connection for the TLS server, never the raw one; the record is sniffed and the replaying connection holds the whole original stream |
| Prefetch.InterceptReplaysWholeStream | cmd/proxy/main.go:113-122 | once the record is prefetched, the TLS server is always started, and it reads the stream the client sent, from its first byte, whatever series of reads it makes |
| Relay.ChunksCoverStream | cmd/proxy/main.go:146-152 | the chunks successive 128-byte reads return are the stream cut into pieces of at most 128 bytes |
| Relay.ThreeHundredBytesInOneSegment | cmd/proxy/main.go:144-148 | a 300-byte message that arrives in one segment is read as 128, 128 and 44 bytes |
| Relay.CopyChunked | cmd/proxy/main.go:144-161 | for a source whose reads never return data together with an error: the loop returns count 0; the chunks read are a prefix of the stream's chunks and each is at most 128 bytes; it ends on a read error exactly when no write fails, and then everything was written; on a failed write the bytes written are exactly the chunks read before it |

## Left out

- The TLS handshake (`tls.Server`) and certificate loading in `init`
  (cmd/proxy/main.go:53-58, 122): library cryptography. `Prefetch.Intercept`
  hands on the replaying connection the TLS server would read from.
- `net.Listen`, `Accept` and `Dial`, read deadlines and `time.Now`
  (cmd/proxy/main.go:79-92, 99, 121, 128): socket setup and the clock. The
  accepted connection is a parameter (`Socket.Conn`), and a deadline that
  expires is not distinguished from end of stream.
- The goroutine that relays the other direction, and closing the connections
  (cmd/proxy/main.go:91, 96, 133-138): concurrency and resource lifetime.
- The native `io.Copy` path of `copyTo` (cmd/proxy/main.go:141-142): a library
  call.
- `copyToStdErr` (cmd/proxy/main.go:164-177): debug output to standard error,
  never called.
- Logging and flag parsing (cmd/proxy/main.go:40-51, 72-77, 113-116): they do
  not change what is computed. The sniffed name is only logged, so the model
  returns it without acting on it.
- cmd/client/main.go and cmd/server/main.go are not part of this model. They
  are a demo client and an echo server.
- Relay.CopyChunked: the rejected write is modelled as delivering nothing,
  because `Write` on a TCP connection may accept part of the buffer before it
  fails and the model does not say how much.
- Relay.CopyChunked: read errors other than end of stream are not modelled,
  because the stream model has no other way to fail.
- Relay.CopyChunked: a read that returns bytes together with an error is not
  modelled. The loop returns on the error before writing, so in the source
  those bytes are lost. This happens when the source is the TLS server
  connection and a close_notify alert follows the last data. The model's
  reader returns either bytes or end of stream, so "everything was written"
  holds for this reader only.
- Relay.CopyChunked: every modelled stream ends, because the model assumes the
  peer eventually closes the connection. The loop in the source has no read
  deadline (it is cleared before the relay starts) and blocks in `Read` for as
  long as the peer neither sends nor closes, holding the connection open. The
  proof that the loop terminates, and the outcome `ReadFailed` when no write
  fails, hold only for streams that end.
- Sni.SniffHello: its own contract states only the short-body and version
  failures. The full behaviour is stated against the reference decoder by
  `SniProperties.SniffHelloAgreesWithDecoder`.
- Socket.Read: the model returns only the bytes of one segment per read. A
  real socket may coalesce segments, and the lemmas about prefetch and replay
  hold for any chunking.
- Sni.ScanExtensions: its own contract states only the empty block and that a
  failure is ("", false). The full behaviour of the loop is stated by
  `SniProperties.ScanExtensionsOfEncoding`, `SniProperties.FirstServerNameDecides`
  and `SniProperties.TruncatedExtensionFails`.
- Sni.ScanServerNames: its own contract states only the exhausted list and that
  a failure is ("", false). The rest is stated by
  `SniProperties.FirstZeroByteDecides` and `SniProperties.NoZeroByteFails`.
- Sni.HelloExtensions: its own contract states only the version check and the
  minimum body length. The full behaviour is stated against the reference
  decoder by `SniProperties.HelloExtensionsAgreesWithDecoder`.
- `cryptobyte` reads on a nil slice are not modelled: every cursor here comes
  from a non-nil buffer.
- The Go `string(hostName)` conversion is kept as bytes, because Go strings
  are byte strings.
