/** The writer's side of the bytes the sniffer reads: the TLS 1.2 record layer
    (section 6.2.1 of RFC 5246), the ClientHello message (section 7.4.1.2 of
    RFC 5246) and the server_name extension (section 3 of RFC 6066), together
    with the result the sniffer is meant to give for such a message, stated on
    the structured message rather than on its bytes. */
module SniEncoding {
  import opened Wire
  import opened Cryptobyte
  import opened Sni

  /** One ClientHello extension: a 16-bit type and opaque data. */
  datatype Extension = Extension(extType: nat, data: Bytes)

  predicate ValidExtension(e: Extension)
  {
    e.extType < 0x1_0000 && |e.data| < 0x1_0000
  }

  predicate ValidExtensions(es: seq<Extension>)
  {
    forall i | 0 <= i < |es| :: ValidExtension(es[i])
  }

  function EncodeExtension(e: Extension): Bytes
    requires ValidExtension(e)
  {
    ToBigEndian(e.extType, 2) + ToBigEndian(|e.data|, 2) + e.data
  }

  /** The extension block without its own length prefix. */
  function EncodeExtensions(es: seq<Extension>): Bytes
    requires ValidExtensions(es)
  {
    if es == [] then [] else EncodeExtension(es[0]) + EncodeExtensions(es[1..])
  }

  /** One entry of a server name list: a name type and a 16-bit length-prefixed name. */
  datatype ServerName = ServerName(nameType: byte, name: Bytes)

  predicate ValidServerNames(ns: seq<ServerName>)
  {
    forall i | 0 <= i < |ns| :: |ns[i].name| < 0x1_0000
  }

  function EncodeServerNames(ns: seq<ServerName>): Bytes
    requires ValidServerNames(ns)
  {
    if ns == [] then []
    else [ns[0].nameType] + ToBigEndian(|ns[0].name|, 2) + ns[0].name + EncodeServerNames(ns[1..])
  }

  /** The data of a server_name extension: the list behind a 16-bit length prefix. */
  function EncodeServerNameList(ns: seq<ServerName>): Bytes
    requires ValidServerNames(ns) && |EncodeServerNames(ns)| < 0x1_0000
  {
    ToBigEndian(|EncodeServerNames(ns)|, 2) + EncodeServerNames(ns)
  }

  /** A ClientHello body; `extensions` is the extension block without its prefix. */
  datatype ClientHello = ClientHello(
    version: nat,
    random: Bytes,
    sessionId: Bytes,
    cipherSuites: Bytes,
    compressionMethods: Bytes,
    extensions: Bytes)

  predicate ValidClientHello(h: ClientHello)
  {
    && h.version < 0x1_0000
    && |h.random| == 32
    && |h.sessionId| < 0x100
    && |h.cipherSuites| < 0x1_0000
    && |h.compressionMethods| < 0x100
    && |h.extensions| < 0x1_0000
  }

  function EncodeClientHello(h: ClientHello): Bytes
    requires ValidClientHello(h)
  {
    ToBigEndian(h.version, 2) + h.random
      + ToBigEndian(|h.sessionId|, 1) + h.sessionId
      + ToBigEndian(|h.cipherSuites|, 2) + h.cipherSuites
      + ToBigEndian(|h.compressionMethods|, 1) + h.compressionMethods
      + ToBigEndian(|h.extensions|, 2) + h.extensions
  }

  /** Reads every field of a ClientHello body back, with the bytes after the
      extension block. Unlike the sniffer it keeps all fields and does not
      check the version; it is the reference the sniffer is compared with. */
  function DecodeClientHello(s: Bytes): Option<(ClientHello, Bytes)>
  {
    match ReadUint(s, 2)
    case None => None
    case Some((version, afterVersion)) =>
      match Read(afterVersion, 32)
      case None => None
      case Some((random, afterRandom)) =>
        match ReadLengthPrefixed(afterRandom, 1)
        case None => None
        case Some((sessionId, afterSessionId)) =>
          match ReadLengthPrefixed(afterSessionId, 2)
          case None => None
          case Some((cipherSuites, afterCipherSuites)) =>
            match ReadLengthPrefixed(afterCipherSuites, 1)
            case None => None
            case Some((compressionMethods, afterCompression)) =>
              match ReadLengthPrefixed(afterCompression, 2)
              case None => None
              case Some((extensions, rest)) =>
                Some((ClientHello(version, random, sessionId, cipherSuites, compressionMethods, extensions), rest))
  }

  /** What the decoder returns is a well-formed body that, re-encoded and
      followed by the remaining bytes, is the input. */
  lemma DecodeClientHelloSound(s: Bytes)
    ensures DecodeClientHello(s).Some? ==> ValidClientHello(DecodeClientHello(s).value.0)
    ensures DecodeClientHello(s).Some? ==>
      EncodeClientHello(DecodeClientHello(s).value.0) + DecodeClientHello(s).value.1 == s
  {
    Pow256Widths();
    match ReadUint(s, 2)
    case None =>
    case Some((version, afterVersion)) =>
      match Read(afterVersion, 32)
      case None =>
      case Some((random, afterRandom)) =>
        match ReadLengthPrefixed(afterRandom, 1)
        case None =>
        case Some((sessionId, afterSessionId)) =>
          match ReadLengthPrefixed(afterSessionId, 2)
          case None =>
          case Some((cipherSuites, afterCipherSuites)) =>
            match ReadLengthPrefixed(afterCipherSuites, 1)
            case None =>
            case Some((compressionMethods, afterCompression)) =>
              match ReadLengthPrefixed(afterCompression, 2)
              case None =>
              case Some((extensions, rest)) =>
                var h := ClientHello(version, random, sessionId, cipherSuites, compressionMethods, extensions);
                DecodeSteps(s, h, afterVersion, afterRandom, afterSessionId, afterCipherSuites, afterCompression, rest);
                EncodeClientHelloLayers(h, rest);
  }

  /** The decoder's successive reads, given one by one, determine its result. */
  lemma DecodeSteps(s: Bytes, h: ClientHello, a1: Bytes, a2: Bytes, a3: Bytes, a4: Bytes, a5: Bytes, rest: Bytes)
    requires ReadUint(s, 2) == Some((h.version, a1))
    requires Read(a1, 32) == Some((h.random, a2))
    requires ReadLengthPrefixed(a2, 1) == Some((h.sessionId, a3))
    requires ReadLengthPrefixed(a3, 2) == Some((h.cipherSuites, a4))
    requires ReadLengthPrefixed(a4, 1) == Some((h.compressionMethods, a5))
    requires ReadLengthPrefixed(a5, 2) == Some((h.extensions, rest))
    ensures DecodeClientHello(s) == Some((h, rest))
  {
  }

  /** The encoding of a ClientHello body, field after field, as the reader sees it. */
  lemma EncodeClientHelloLayers(h: ClientHello, rest: Bytes)
    requires ValidClientHello(h)
    ensures EncodeClientHello(h) + rest ==
      ToBigEndian(h.version, 2) + (h.random
        + (ToBigEndian(|h.sessionId|, 1) + h.sessionId
        + (ToBigEndian(|h.cipherSuites|, 2) + h.cipherSuites
        + (ToBigEndian(|h.compressionMethods|, 1) + h.compressionMethods
        + (ToBigEndian(|h.extensions|, 2) + h.extensions + rest)))))
  {
    Regroup(ToBigEndian(h.version, 2), h.random,
            ToBigEndian(|h.sessionId|, 1), h.sessionId,
            ToBigEndian(|h.cipherSuites|, 2), h.cipherSuites,
            ToBigEndian(|h.compressionMethods|, 1), h.compressionMethods,
            ToBigEndian(|h.extensions|, 2), h.extensions, rest);
  }

  /** Re-associating ten fields and a tail; stated over plain byte strings so
      that no encoding is unfolded to use it. */
  lemma Regroup(a: Bytes, b: Bytes, c: Bytes, d: Bytes, e: Bytes, f: Bytes,
                g: Bytes, h: Bytes, i: Bytes, j: Bytes, rest: Bytes)
    ensures a + b + c + d + e + f + g + h + i + j + rest ==
      a + (b + (c + d + (e + f + (g + h + (i + j + rest)))))
  {
    var t4 := i + j + rest;
    var t3 := g + h + t4;
    var t2 := e + f + t3;
    var t1 := c + d + t2;
    assert a + b + c + d + e + f + g + h + i + j + rest == a + b + c + d + e + f + g + h + t4;
    assert a + b + c + d + e + f + g + h + t4 == a + b + c + d + e + f + t3;
    assert a + b + c + d + e + f + t3 == a + b + c + d + t2;
    assert a + b + c + d + t2 == a + b + t1;
  }

  /** A client_hello handshake message around `body`. */
  function EncodeHandshake(body: Bytes): Bytes
    requires |body| < 0x100_0000
  {
    [TypeClientHello] + ToBigEndian(|body|, 3) + body
  }

  /** A handshake record around `fragment`; the record version is not inspected. */
  function EncodeRecord(recordVersion: nat, fragment: Bytes): Bytes
    requires recordVersion < 0x1_0000 && |fragment| < 0x1_0000
  {
    [RecordTypeHandshake] + ToBigEndian(recordVersion, 2) + ToBigEndian(|fragment|, 2) + fragment
  }

  /** The sniffer's intended answer for an extension list: the first
      server_name extension decides, and a list without one is TLS without a
      server name. The answer for that extension's data is the sniffer's own
      `ServerNameExtension`, so this reference is independent only down to the
      extension level; the server name list is pinned separately by
      `SniProperties.FirstZeroByteDecides` and `SniProperties.NoZeroByteFails`. */
  function ExpectedFromExtensions(es: seq<Extension>): Sniff
  {
    if es == [] then NoServerName
    else if es[0].extType == ExtensionServerName then ServerNameExtension(es[0].data)
    else ExpectedFromExtensions(es[1..])
  }

  /** The sniffer's intended answer for a whole ClientHello. */
  function ExpectedSniff(h: ClientHello, es: seq<Extension>): Sniff
  {
    if VersionTLS10 <= h.version <= VersionTLS12 then ExpectedFromExtensions(es) else NotTLS
  }
}
