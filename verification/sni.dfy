/** Server Name Indication sniffing: `parseClientHello` in cmd/proxy/main.go.
    It walks one TLS record far enough to find the server_name extension of a
    ClientHello and reports the host name together with whether the bytes
    looked like TLS at all. */
module Sni {
  import opened Wire
  import opened Cryptobyte

  /** TLS record content type "handshake". */
  const RecordTypeHandshake: byte := 22
  /** Handshake message type "client_hello". */
  const TypeClientHello: byte := 1
  /** Extension type "server_name". */
  const ExtensionServerName: nat := 0
  /** ServerName name type "host_name". */
  const SniTypeHostname: byte := 0
  /** `tls.VersionTLS10` and `tls.VersionTLS12`: the accepted ClientHello versions. */
  const VersionTLS10: nat := 0x0301
  const VersionTLS12: nat := 0x0303

  /** The pair `(string, bool)` the parser returns: the host name found
      (empty when none) and whether the input looked like TLS. */
  datatype Sniff = Sniff(serverName: Bytes, looksLikeTLS: bool)

  /** `("", false)`: not recognisable as a TLS ClientHello. */
  const NotTLS := Sniff([], false)
  /** `("", true)`: a ClientHello without a server name. */
  const NoServerName := Sniff([], true)

  /** The record layer: content type, a skipped two-byte version and a
      fragment with a 16-bit length prefix. */
  function RecordFragment(record: Bytes): (r: Option<Bytes>)
    ensures r.Some? <==>
      && 5 <= |record|
      && record[0] == RecordTypeHandshake
      && BigEndian(record[3..5]) <= |record| - 5
    ensures r.Some? ==> r.value == record[5..5 + BigEndian(record[3..5])]
  {
    match ReadUint8(record)
    case None => None
    case Some((contentType, afterType)) =>
      if contentType != RecordTypeHandshake then None
      else
        match Skip(afterType, 2)
        case None => None
        case Some(afterVersion) =>
          assert afterVersion == record[3..];
          match ReadLengthPrefixed(afterVersion, 2)
          case None => None
          case Some((fragment, _)) => Some(fragment)
  }

  /** The handshake header: message type, then a body with a 24-bit length prefix. */
  function HandshakeBody(fragment: Bytes): (r: Option<Bytes>)
    ensures r.Some? <==>
      && 4 <= |fragment|
      && fragment[0] == TypeClientHello
      && BigEndian(fragment[1..4]) <= |fragment| - 4
    ensures r.Some? ==> r.value == fragment[4..4 + BigEndian(fragment[1..4])]
  {
    match ReadUint8(fragment)
    case None => None
    case Some((msgType, afterType)) =>
      if msgType != TypeClientHello then None
      else
        assert afterType == fragment[1..];
        assert 3 <= |afterType| ==> afterType[..3] == fragment[1..4];
        match ReadLengthPrefixed(afterType, 3)
        case None => None
        case Some((clientHello, _)) => Some(clientHello)
  }

  /** The ClientHello body: a version in [TLS 1.0, TLS 1.2], 32 random bytes,
      the session id (8-bit prefix), cipher suites (16-bit prefix) and
      compression methods (8-bit prefix), all skipped, then the extension
      block (16-bit prefix), which is returned. */
  function HelloExtensions(hello: Bytes): (r: Option<Bytes>)
    ensures 2 <= |hello| && !(VersionTLS10 <= BigEndian(hello[..2]) <= VersionTLS12) ==> r.None?
    ensures r.Some? ==> 2 + 32 + 1 + 2 + 1 + 2 <= |hello|
  {
    match ReadUint(hello, 2)
    case None => None
    case Some((tlsVersion, afterVersion)) =>
      assert hello[..2] == ToBigEndian(tlsVersion, 2);
      if !(VersionTLS10 <= tlsVersion <= VersionTLS12) then None
      else
        match Skip(afterVersion, 32)
        case None => None
        case Some(afterRandom) =>
          match ReadLengthPrefixed(afterRandom, 1)
          case None => None
          case Some((_, afterSessionId)) =>
            match ReadLengthPrefixed(afterSessionId, 2)
            case None => None
            case Some((_, afterCipherSuites)) =>
              match ReadLengthPrefixed(afterCipherSuites, 1)
              case None => None
              case Some((_, afterCompression)) =>
                match ReadLengthPrefixed(afterCompression, 2)
                case None => None
                case Some((exts, _)) => Some(exts)
  }

  /** The loop over the extension block: skip extensions until the first
      server_name extension and let that one decide; an exhausted block means
      a ClientHello without a server name. */
  function ScanExtensions(exts: Bytes): (r: Sniff)
    ensures !r.looksLikeTLS ==> r == NotTLS
    ensures exts == [] ==> r == NoServerName
    decreases |exts|
  {
    if exts == [] then NoServerName
    else
      match ReadUint(exts, 2)
      case None => NotTLS
      case Some((extType, afterType)) =>
        match ReadLengthPrefixed(afterType, 2)
        case None => NotTLS
        case Some((extData, rest)) =>
          if extType != ExtensionServerName then ScanExtensions(rest)
          else ServerNameExtension(extData)
  }

  /** The body of the first server_name extension: a server name list with a
      16-bit length prefix; anything after the list is ignored. */
  function ServerNameExtension(extData: Bytes): (r: Sniff)
    ensures !r.looksLikeTLS ==> r == NotTLS
    ensures r == if 2 <= |extData| && BigEndian(extData[..2]) <= |extData| - 2
                 then ScanServerNames(extData[2..2 + BigEndian(extData[..2])])
                 else NotTLS
  {
    match ReadLengthPrefixed(extData, 2)
    case None => NotTLS
    case Some((serverNameList, rest)) =>
      assert extData[..2] == ToBigEndian(|serverNameList|, 2);
      assert extData[2..2 + |serverNameList|] == serverNameList;
      ScanServerNames(serverNameList)
  }

  /** The loop over the server name list. A name type other than host_name is
      passed over WITHOUT consuming its name, so the following byte is read as
      the next name type; the list running out without a host name entry fails
      the whole parse. */
  function ScanServerNames(list: Bytes): (r: Sniff)
    ensures !r.looksLikeTLS ==> r == NotTLS
    ensures list == [] ==> r == NotTLS
    decreases |list|
  {
    if list == [] then NotTLS
    else
      match ReadUint8(list)
      case None => NotTLS
      case Some((nameType, rest)) =>
        if nameType != SniTypeHostname then ScanServerNames(rest)
        else HostName(rest)
  }

  /** The host name that follows a host_name name type: a 16-bit length-prefixed
      string, or a failure when it is truncated. */
  function HostName(s: Bytes): (r: Sniff)
    ensures r.looksLikeTLS <==> 2 <= |s| && BigEndian(s[..2]) <= |s| - 2
    ensures r.looksLikeTLS ==> r.serverName == s[2..2 + BigEndian(s[..2])]
    ensures !r.looksLikeTLS ==> r == NotTLS
  {
    match ReadLengthPrefixed(s, 2)
    case None => NotTLS
    case Some((hostName, _)) => Sniff(hostName, true)
  }

  /** `parseClientHello(record)`: the record layer, then the handshake
      message in its fragment. */
  function ParseClientHello(record: Bytes): (r: Sniff)
    ensures !r.looksLikeTLS ==> r == NotTLS
    ensures r == if 5 <= |record| && record[0] == RecordTypeHandshake && BigEndian(record[3..5]) <= |record| - 5
                 then SniffFragment(record[5..5 + BigEndian(record[3..5])])
                 else NotTLS
  {
    match RecordFragment(record)
    case None => NotTLS
    case Some(fragment) => SniffFragment(fragment)
  }

  /** The handshake message inside the record fragment, then its ClientHello body. */
  function SniffFragment(fragment: Bytes): (r: Sniff)
    ensures !r.looksLikeTLS ==> r == NotTLS
    ensures r == if 4 <= |fragment| && fragment[0] == TypeClientHello && BigEndian(fragment[1..4]) <= |fragment| - 4
                 then SniffHello(fragment[4..4 + BigEndian(fragment[1..4])])
                 else NotTLS
  {
    match HandshakeBody(fragment)
    case None => NotTLS
    case Some(hello) => SniffHello(hello)
  }

  /** The ClientHello body, then its extension block. */
  function SniffHello(hello: Bytes): (r: Sniff)
    ensures !r.looksLikeTLS ==> r == NotTLS
    ensures |hello| < 2 + 32 + 1 + 2 + 1 + 2 ==> r == NotTLS
    ensures 2 <= |hello| && !(VersionTLS10 <= BigEndian(hello[..2]) <= VersionTLS12) ==> r == NotTLS
  {
    match HelloExtensions(hello)
    case None => NotTLS
    case Some(exts) => ScanExtensions(exts)
  }
}
