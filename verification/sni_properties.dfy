/** What the SNI sniffer promises: the result for every shape of input, the
    quirks of its two loops, agreement with the wire encoding, and that it only
    ever looks at bytes inside the record it was given. */
module SniProperties {
  import opened Wire
  import opened Cryptobyte
  import opened Sni
  import opened SniEncoding

  // ---------------------------------------------------------------------------
  // The server name list

  /** Within a server name list only name-type bytes are skipped, one byte at a
      time, so the FIRST zero byte of the list is taken as the host_name entry
      and the two bytes after it as the length of the host name. */
  lemma {:induction false} FirstZeroByteDecides(list: Bytes, i: nat)
    requires i < |list| && list[i] == SniTypeHostname
    requires forall k | 0 <= k < i :: list[k] != SniTypeHostname
    ensures ScanServerNames(list) == HostName(list[i + 1..])
  {
    assert ReadUint8(list) == Some((list[0], list[1..]));
    if i > 0 {
      FirstZeroByteDecides(list[1..], i - 1);
      assert list[1..][i - 1 + 1..] == list[i + 1..];
    }
  }

  /** A server name list without any zero byte has no host_name entry, and the
      whole parse fails. */
  lemma {:induction false} NoZeroByteFails(list: Bytes)
    requires forall k | 0 <= k < |list| :: list[k] != SniTypeHostname
    ensures ScanServerNames(list) == NotTLS
    decreases |list|
  {
    if list != [] {
      assert ReadUint8(list) == Some((list[0], list[1..]));
      NoZeroByteFails(list[1..]);
    }
  }

  /** The extension data is the list behind its length; bytes after the list are ignored. */
  lemma ServerNameExtensionOfList(list: Bytes, trailing: Bytes)
    requires |list| < 0x1_0000
    ensures ServerNameExtension(ToBigEndian(|list|, 2) + list + trailing) == ScanServerNames(list)
  {
    Pow256Widths();
    ReadLengthPrefixedOfEncoding(list, 2, trailing);
  }

  /** A complete length-prefixed host name reads back as itself. */
  lemma HostNameOfEncoding(name: Bytes, rest: Bytes)
    requires |name| < 0x1_0000
    ensures HostName(ToBigEndian(|name|, 2) + name + rest) == Sniff(name, true)
  {
    Pow256Widths();
    ReadLengthPrefixedOfEncoding(name, 2, rest);
  }

  lemma EncodeServerNamesCons(first: ServerName, more: seq<ServerName>)
    requires |first.name| < 0x1_0000 && ValidServerNames(more)
    ensures ValidServerNames([first] + more)
    ensures EncodeServerNames([first] + more)
         == [first.nameType] + (ToBigEndian(|first.name|, 2) + first.name + EncodeServerNames(more))
  {
    var ns := [first] + more;
    assert ns[0] == first && ns[1..] == more;
  }

  /** A server_name extension whose list starts with a host_name entry yields
      that host name, whatever entries and bytes follow. */
  lemma HostNameEntryFirst(name: Bytes, more: seq<ServerName>, trailing: Bytes)
    requires |name| < 0x1_0000 && ValidServerNames(more)
    requires |EncodeServerNames([ServerName(SniTypeHostname, name)] + more)| < 0x1_0000
    ensures ServerNameExtension(EncodeServerNameList([ServerName(SniTypeHostname, name)] + more) + trailing)
         == Sniff(name, true)
  {
    var first := ServerName(SniTypeHostname, name);
    var list := EncodeServerNames([first] + more);
    var entry := ToBigEndian(|name|, 2) + name + EncodeServerNames(more);
    EncodeServerNamesCons(first, more);
    assert list == [SniTypeHostname] + entry;
    ServerNameExtensionOfList(list, trailing);
    FirstZeroByteDecides(list, 0);
    assert list[1..] == entry;
    HostNameOfEncoding(name, EncodeServerNames(more));
  }

  /** An empty server name list fails the parse. */
  lemma EmptyServerNameListFails(trailing: Bytes)
    ensures ServerNameExtension(EncodeServerNameList([]) + trailing) == NotTLS
  {
    ReadLengthPrefixedOfEncoding([], 2, trailing);
  }

  /** The skipped name-type quirk made concrete: an entry of another name type
      with an empty name, followed by a proper host_name entry, yields an EMPTY
      host name, because the first length byte of the skipped entry is zero and
      is taken as the host_name type. */
  lemma EmptyOtherEntryHidesHostName(otherType: byte, name: Bytes)
    requires otherType != SniTypeHostname && |name| < 0x1_0000
    requires |EncodeServerNames([ServerName(otherType, []), ServerName(SniTypeHostname, name)])| < 0x1_0000
    ensures ServerNameExtension(EncodeServerNameList([ServerName(otherType, []), ServerName(SniTypeHostname, name)]))
         == NoServerName
  {
    Pow256Widths();
    var ns := [ServerName(otherType, []), ServerName(SniTypeHostname, name)];
    var tail := EncodeServerNames(ns[1..]);
    var list := EncodeServerNames(ns);
    assert ToBigEndian(0, 2) == [0, 0];
    assert list == [otherType, 0, 0] + tail;
    ReadLengthPrefixedOfEncoding(list, 2, []);
    assert EncodeServerNameList(ns) + [] == EncodeServerNameList(ns);
    FirstZeroByteDecides(list, 1);
    var s := list[2..];
    assert s[..2] == [0, 0];
    assert BigEndian(s[..2]) == 0;
  }

  // ---------------------------------------------------------------------------
  // The extension list

  /** No extension in `es` is a server_name extension. */
  predicate NoServerNameIn(es: seq<Extension>)
  {
    forall i | 0 <= i < |es| :: es[i].extType != ExtensionServerName
  }

  /** One turn of the scan, given the reads it makes. */
  lemma ScanStep(s: Bytes, extType: nat, afterType: Bytes, extData: Bytes, rest: Bytes)
    requires s != []
    requires ReadUint(s, 2) == Some((extType, afterType))
    requires ReadLengthPrefixed(afterType, 2) == Some((extData, rest))
    ensures ScanExtensions(s) ==
      if extType != ExtensionServerName then ScanExtensions(rest) else ServerNameExtension(extData)
  {
  }

  /** The two reads of one extension, on its own encoding. */
  lemma ExtensionReads(e: Extension, tail: Bytes)
    requires ValidExtension(e)
    ensures var afterType := ToBigEndian(|e.data|, 2) + e.data + tail;
      && ReadUint(EncodeExtension(e) + tail, 2) == Some((e.extType, afterType))
      && ReadLengthPrefixed(afterType, 2) == Some((e.data, tail))
  {
    Pow256Widths();
    var afterType := ToBigEndian(|e.data|, 2) + e.data + tail;
    assert EncodeExtension(e) + tail == ToBigEndian(e.extType, 2) + afterType;
    ReadUintOfEncoding(e.extType, 2, afterType);
    ReadLengthPrefixedOfEncoding(e.data, 2, tail);
  }

  /** An extension of another type is read in full and passed over. */
  lemma ScanPassesOtherExtension(e: Extension, tail: Bytes)
    requires ValidExtension(e) && e.extType != ExtensionServerName
    ensures ScanExtensions(EncodeExtension(e) + tail) == ScanExtensions(tail)
  {
    ExtensionReads(e, tail);
    ScanStep(EncodeExtension(e) + tail, e.extType, ToBigEndian(|e.data|, 2) + e.data + tail, e.data, tail);
  }

  /** A server_name extension ends the scan: its data alone decides. */
  lemma ScanStopsAtServerName(e: Extension, tail: Bytes)
    requires ValidExtension(e) && e.extType == ExtensionServerName
    ensures ScanExtensions(EncodeExtension(e) + tail) == ServerNameExtension(e.data)
  {
    ExtensionReads(e, tail);
    ScanStep(EncodeExtension(e) + tail, e.extType, ToBigEndian(|e.data|, 2) + e.data + tail, e.data, tail);
  }

  /** On a well-formed extension block the scan gives the intended answer:
      the first server_name extension decides, and a block without one is TLS
      without a server name. */
  lemma {:induction false} ScanExtensionsOfEncoding(es: seq<Extension>)
    requires ValidExtensions(es)
    ensures ScanExtensions(EncodeExtensions(es)) == ExpectedFromExtensions(es)
  {
    if es != [] {
      assert ValidExtensions(es[1..]);
      if es[0].extType == ExtensionServerName {
        ScanStopsAtServerName(es[0], EncodeExtensions(es[1..]));
      } else {
        ScanPassesOtherExtension(es[0], EncodeExtensions(es[1..]));
        ScanExtensionsOfEncoding(es[1..]);
      }
    }
  }

  /** A block with no server_name extension at all: TLS, no server name. */
  lemma {:induction false} NoServerNameExtension(es: seq<Extension>)
    requires ValidExtensions(es) && NoServerNameIn(es)
    ensures ScanExtensions(EncodeExtensions(es)) == NoServerName
  {
    if es != [] {
      assert ValidExtensions(es[1..]) && NoServerNameIn(es[1..]);
      ScanPassesOtherExtension(es[0], EncodeExtensions(es[1..]));
      NoServerNameExtension(es[1..]);
    }
  }

  /** After the extensions of other types, the first server_name extension
      decides the result; whatever bytes follow it, including a second
      server_name extension, are never examined. */
  lemma {:induction false} FirstServerNameDecides(pre: seq<Extension>, e: Extension, tail: Bytes)
    requires ValidExtensions(pre) && NoServerNameIn(pre)
    requires ValidExtension(e) && e.extType == ExtensionServerName
    ensures ScanExtensions(EncodeExtensions(pre) + EncodeExtension(e) + tail) == ServerNameExtension(e.data)
  {
    var whole := EncodeExtensions(pre) + EncodeExtension(e) + tail;
    if pre == [] {
      assert whole == EncodeExtension(e) + tail;
      ScanStopsAtServerName(e, tail);
    } else {
      var rest := EncodeExtensions(pre[1..]) + EncodeExtension(e) + tail;
      assert whole == EncodeExtension(pre[0]) + rest;
      assert ValidExtensions(pre[1..]) && NoServerNameIn(pre[1..]);
      ScanPassesOtherExtension(pre[0], rest);
      assert ScanExtensions(whole) == ScanExtensions(rest);
      FirstServerNameDecides(pre[1..], e, tail);
    }
  }

  /** After the extensions of other types, an extension whose header is cut
      short or whose declared data length runs past the block fails the parse. */
  lemma {:induction false} TruncatedExtensionFails(pre: seq<Extension>, tail: Bytes)
    requires ValidExtensions(pre) && NoServerNameIn(pre)
    requires tail != [] && (|tail| < 4 || BigEndian(tail[2..4]) > |tail| - 4)
    ensures ScanExtensions(EncodeExtensions(pre) + tail) == NotTLS
  {
    if pre == [] {
      assert EncodeExtensions(pre) + tail == tail;
      if 2 <= |tail| {
        assert ReadUint(tail, 2).value.1 == tail[2..];
        assert 4 <= |tail| ==> tail[2..][..2] == tail[2..4];
      }
    } else {
      var rest := EncodeExtensions(pre[1..]) + tail;
      assert EncodeExtensions(pre) + tail == EncodeExtension(pre[0]) + rest;
      assert ValidExtensions(pre[1..]) && NoServerNameIn(pre[1..]);
      ScanPassesOtherExtension(pre[0], rest);
      TruncatedExtensionFails(pre[1..], tail);
    }
  }

  /** The duplicate server_name quirk made concrete: when the first server_name
      extension carries an empty list, the parse fails even though a second
      one names a host. */
  lemma SecondServerNameNeverConsulted(name: Bytes)
    requires |name| < 0x1_0000 - 5
    ensures ScanExtensions(EncodeExtensions([
              Extension(ExtensionServerName, EncodeServerNameList([])),
              Extension(ExtensionServerName, EncodeServerNameList([ServerName(SniTypeHostname, name)]))]))
         == NotTLS
  {
    var first := Extension(ExtensionServerName, EncodeServerNameList([]));
    var second := Extension(ExtensionServerName, EncodeServerNameList([ServerName(SniTypeHostname, name)]));
    var es := [first, second];
    assert es[1..] == [second];
    assert EncodeExtensions(es) == [] + EncodeExtension(first) + EncodeExtensions([second]);
    FirstServerNameDecides([], first, EncodeExtensions([second]));
    EmptyServerNameListFails([]);
    assert EncodeServerNameList([]) + [] == EncodeServerNameList([]);
  }

  // ---------------------------------------------------------------------------
  // The ClientHello body

  /** Every ClientHello body reads back as itself, whatever follows it. */
  lemma DecodeOfEncoding(h: ClientHello, rest: Bytes)
    requires ValidClientHello(h)
    ensures DecodeClientHello(EncodeClientHello(h) + rest) == Some((h, rest))
  {
    Pow256Widths();
    EncodeClientHelloLayers(h, rest);
    var a5 := ToBigEndian(|h.extensions|, 2) + h.extensions + rest;
    var a4 := ToBigEndian(|h.compressionMethods|, 1) + h.compressionMethods + a5;
    var a3 := ToBigEndian(|h.cipherSuites|, 2) + h.cipherSuites + a4;
    var a2 := ToBigEndian(|h.sessionId|, 1) + h.sessionId + a3;
    var a1 := h.random + a2;
    ReadUintOfEncoding(h.version, 2, a1);
    assert Read(a1, 32) == Some((h.random, a2));
    ReadLengthPrefixedOfEncoding(h.sessionId, 1, a3);
    ReadLengthPrefixedOfEncoding(h.cipherSuites, 2, a4);
    ReadLengthPrefixedOfEncoding(h.compressionMethods, 1, a5);
    ReadLengthPrefixedOfEncoding(h.extensions, 2, rest);
    DecodeSteps(EncodeClientHello(h) + rest, h, a1, a2, a3, a4, a5, rest);
  }

  /** Two ClientHello bodies whose encodings start the same byte string are the
      same body: the encoding is prefix-free. */
  lemma EncodingPrefixFree(h: ClientHello, rest: Bytes, h': ClientHello, rest': Bytes)
    requires ValidClientHello(h) && ValidClientHello(h')
    requires EncodeClientHello(h) + rest == EncodeClientHello(h') + rest'
    ensures h == h' && rest == rest'
  {
    DecodeOfEncoding(h, rest);
    DecodeOfEncoding(h', rest');
  }

  /** The sniffer's walk over the body agrees with the full decoder: it
      yields the extension block exactly when the body decodes and its version
      is in [TLS 1.0, TLS 1.2]. */
  lemma HelloExtensionsAgreesWithDecoder(hello: Bytes)
    ensures DecodeClientHello(hello).None? ==> HelloExtensions(hello).None?
    ensures DecodeClientHello(hello).Some? ==>
      var h := DecodeClientHello(hello).value.0;
      HelloExtensions(hello) == if VersionTLS10 <= h.version <= VersionTLS12 then Some(h.extensions) else None
  {
    DecodedVersion(hello);
    match ReadUint(hello, 2)
    case None =>
    case Some((version, afterVersion)) =>
      if VersionTLS10 <= version <= VersionTLS12 {
        match Read(afterVersion, 32)
        case None =>
          assert DecodeClientHello(hello).None?;
        case Some((random, afterRandom)) =>
          assert Skip(afterVersion, 32) == Some(afterRandom);
          match ReadLengthPrefixed(afterRandom, 1)
          case None =>
            assert DecodeClientHello(hello).None?;
          case Some((sessionId, afterSessionId)) =>
            match ReadLengthPrefixed(afterSessionId, 2)
            case None =>
              assert DecodeClientHello(hello).None?;
            case Some((cipherSuites, afterCipherSuites)) =>
              match ReadLengthPrefixed(afterCipherSuites, 1)
              case None =>
                assert DecodeClientHello(hello).None?;
              case Some((compressionMethods, afterCompression)) =>
                match ReadLengthPrefixed(afterCompression, 2)
                case None =>
                  assert DecodeClientHello(hello).None?;
                case Some((exts, rest)) =>
                  var h := ClientHello(version, random, sessionId, cipherSuites, compressionMethods, exts);
                  DecodeSteps(hello, h, afterVersion, afterRandom, afterSessionId, afterCipherSuites, afterCompression, rest);
                  WalkSteps(hello, h, afterVersion, afterRandom, afterSessionId, afterCipherSuites, afterCompression, rest);
      }
  }

  /** The decoder's version is the first two bytes, read as a big-endian number. */
  lemma DecodedVersion(s: Bytes)
    ensures DecodeClientHello(s).Some? ==>
      ReadUint(s, 2).Some? && DecodeClientHello(s).value.0.version == ReadUint(s, 2).value.0
  {
  }

  /** The sniffer's successive reads, given one by one, determine its result
      when the version is accepted. */
  lemma WalkSteps(s: Bytes, h: ClientHello, a1: Bytes, a2: Bytes, a3: Bytes, a4: Bytes, a5: Bytes, rest: Bytes)
    requires ReadUint(s, 2) == Some((h.version, a1))
    requires Skip(a1, 32) == Some(a2)
    requires ReadLengthPrefixed(a2, 1) == Some((h.sessionId, a3))
    requires ReadLengthPrefixed(a3, 2) == Some((h.cipherSuites, a4))
    requires ReadLengthPrefixed(a4, 1) == Some((h.compressionMethods, a5))
    requires ReadLengthPrefixed(a5, 2) == Some((h.extensions, rest))
    requires VersionTLS10 <= h.version <= VersionTLS12
    ensures HelloExtensions(s) == Some(h.extensions)
  {
  }

  /** The walk over a well-formed body: the extension block when the version is
      accepted, nothing otherwise; bytes after the body are ignored. */
  lemma HelloExtensionsOfEncoding(h: ClientHello, rest: Bytes)
    requires ValidClientHello(h)
    ensures HelloExtensions(EncodeClientHello(h) + rest)
         == if VersionTLS10 <= h.version <= VersionTLS12 then Some(h.extensions) else None
  {
    HelloExtensionsAgreesWithDecoder(EncodeClientHello(h) + rest);
    DecodeOfEncoding(h, rest);
  }

  /** Cutting a well-formed body short anywhere, inside any of its fields,
      fails the walk. */
  lemma HelloTruncationFails(h: ClientHello, k: nat)
    requires ValidClientHello(h) && k < |EncodeClientHello(h)|
    ensures HelloExtensions(EncodeClientHello(h)[..k]) == None
  {
    var whole := EncodeClientHello(h);
    var cut := whole[..k];
    HelloExtensionsAgreesWithDecoder(cut);
    DecodeClientHelloSound(cut);
    var decoded := DecodeClientHello(cut);
    if decoded.Some? {
      var (h', rest') := decoded.value;
      SplitAt(whole, k, EncodeClientHello(h'), rest');
      EncodingPrefixFree(h, [], h', rest' + whole[k..]);
      assert false;
    }
  }

  /** Re-associating a split string; stated over plain byte strings so that no
      encoding has to be unfolded to use it. */
  lemma SplitAt(w: Bytes, k: nat, a: Bytes, b: Bytes)
    requires k <= |w| && w[..k] == a + b
    ensures w + [] == a + (b + w[k..])
  {
    assert w == w[..k] + w[k..];
  }

  lemma AppendToSplit(w: Bytes, a: Bytes, b: Bytes, c: Bytes)
    requires w == a + b
    ensures w + c == a + (b + c)
  {
  }

  /** Bytes after the extension block do not change the walk's result. */
  lemma HelloIgnoresTrailingBytes(hello: Bytes, junk: Bytes)
    requires HelloExtensions(hello).Some?
    ensures HelloExtensions(hello + junk) == HelloExtensions(hello)
  {
    HelloExtensionsAgreesWithDecoder(hello);
    DecodeClientHelloSound(hello);
    var decoded := DecodeClientHello(hello);
    var (h, rest) := decoded.value;
    AppendToSplit(hello, EncodeClientHello(h), rest, junk);
    HelloExtensionsOfEncoding(h, rest);
    HelloExtensionsOfEncoding(h, rest + junk);
  }

  // ---------------------------------------------------------------------------
  // Record and handshake framing, and the whole parse

  /** A handshake record reads back as its fragment, whatever follows it. */
  lemma RecordFragmentOfEncoding(recordVersion: nat, fragment: Bytes, trailing: Bytes)
    requires recordVersion < 0x1_0000 && |fragment| < 0x1_0000
    ensures RecordFragment(EncodeRecord(recordVersion, fragment) + trailing) == Some(fragment)
  {
    Pow256Widths();
    var record := EncodeRecord(recordVersion, fragment) + trailing;
    assert record[3..5] == ToBigEndian(|fragment|, 2);
    assert record[5..5 + |fragment|] == fragment;
  }

  /** A client_hello message reads back as its body, whatever follows it. */
  lemma HandshakeBodyOfEncoding(body: Bytes, trailing: Bytes)
    requires |body| < 0x100_0000
    ensures HandshakeBody(EncodeHandshake(body) + trailing) == Some(body)
  {
    Pow256Widths();
    var fragment := EncodeHandshake(body) + trailing;
    assert fragment[1..4] == ToBigEndian(|body|, 3);
    assert fragment[4..4 + |body|] == body;
  }

  /** The body as the sniffer sees it, stated with the reference decoder: a
      body that does not decode, or whose version is outside [TLS 1.0, TLS 1.2],
      is not TLS; otherwise its extension block is scanned. */
  lemma SniffHelloAgreesWithDecoder(hello: Bytes)
    ensures SniffHello(hello) ==
      match DecodeClientHello(hello)
      case None => NotTLS
      case Some((h, _)) => if VersionTLS10 <= h.version <= VersionTLS12 then ScanExtensions(h.extensions) else NotTLS
  {
    HelloExtensionsAgreesWithDecoder(hello);
  }

  /** End to end on a well-formed record: a handshake record holding a
      client_hello message holding a ClientHello body whose extension block is
      `es` gives the intended answer; bytes after the body, after the message
      and after the record are all ignored. */
  lemma ParseOfEncoding(recordVersion: nat, h: ClientHello, es: seq<Extension>,
                        afterBody: Bytes, afterMessage: Bytes, afterRecord: Bytes)
    requires recordVersion < 0x1_0000
    requires ValidClientHello(h) && ValidExtensions(es) && h.extensions == EncodeExtensions(es)
    requires |EncodeClientHello(h) + afterBody| < 0x100_0000
    requires |EncodeHandshake(EncodeClientHello(h) + afterBody) + afterMessage| < 0x1_0000
    ensures ParseClientHello(EncodeRecord(recordVersion,
              EncodeHandshake(EncodeClientHello(h) + afterBody) + afterMessage) + afterRecord)
         == ExpectedSniff(h, es)
  {
    var body := EncodeClientHello(h) + afterBody;
    var fragment := EncodeHandshake(body) + afterMessage;
    RecordFragmentOfEncoding(recordVersion, fragment, afterRecord);
    HandshakeBodyOfEncoding(body, afterMessage);
    HelloExtensionsOfEncoding(h, afterBody);
    ScanExtensionsOfEncoding(es);
  }

  /** Bytes after a complete record never change the result. */
  lemma ParseIgnoresTrailingBytes(record: Bytes, junk: Bytes)
    requires RecordFragment(record).Some?
    ensures ParseClientHello(record + junk) == ParseClientHello(record)
  {
    var length := BigEndian(record[3..5]);
    assert (record + junk)[3..5] == record[3..5];
    assert (record + junk)[5..5 + length] == record[5..5 + length];
    assert RecordFragment(record + junk) == RecordFragment(record);
  }

  /** Bytes after a complete client_hello message inside the fragment never
      change the body that is read. */
  lemma MessageIgnoresTrailingBytes(fragment: Bytes, junk: Bytes)
    requires HandshakeBody(fragment).Some?
    ensures HandshakeBody(fragment + junk) == HandshakeBody(fragment)
  {
    var length := BigEndian(fragment[1..4]);
    assert (fragment + junk)[1..4] == fragment[1..4];
    assert (fragment + junk)[4..4 + length] == fragment[4..4 + length];
  }

  // ---------------------------------------------------------------------------
  // The host name is a slice of the input

  lemma EmptyIsInfix(whole: Bytes)
    ensures IsInfix([], whole)
  {
    assert [] <= whole[0..];
  }

  lemma SliceIsInfix(whole: Bytes, i: nat, j: nat)
    requires i <= j <= |whole|
    ensures IsInfix(whole[i..j], whole)
  {
    InfixOfMiddle(whole[..i], whole[i..j], whole[j..]);
    assert whole[..i] + whole[i..j] + whole[j..] == whole;
  }

  lemma HostNameInfix(s: Bytes)
    ensures IsInfix(HostName(s).serverName, s)
  {
    if HostName(s).looksLikeTLS {
      SliceIsInfix(s, 2, 2 + BigEndian(s[..2]));
    } else {
      EmptyIsInfix(s);
    }
  }

  lemma {:induction false} ScanServerNamesInfix(list: Bytes)
    ensures IsInfix(ScanServerNames(list).serverName, list)
    decreases |list|
  {
    if list == [] {
      EmptyIsInfix(list);
    } else {
      var rest := list[1..];
      assert ReadUint8(list) == Some((list[0], rest));
      SliceIsInfix(list, 1, |list|);
      if list[0] != SniTypeHostname {
        ScanServerNamesInfix(rest);
        InfixTransitive(ScanServerNames(rest).serverName, rest, list);
      } else {
        HostNameInfix(rest);
        InfixTransitive(HostName(rest).serverName, rest, list);
      }
    }
  }

  lemma ServerNameExtensionInfix(extData: Bytes)
    ensures IsInfix(ServerNameExtension(extData).serverName, extData)
  {
    match ReadLengthPrefixed(extData, 2)
    case None =>
      EmptyIsInfix(extData);
    case Some((list, rest)) =>
      var header := ToBigEndian(|list|, 2);
      InfixOfMiddle(header, list, rest);
      ScanServerNamesInfix(list);
      InfixTransitive(ScanServerNames(list).serverName, list, extData);
  }

  lemma {:induction false} ScanExtensionsInfix(exts: Bytes)
    ensures IsInfix(ScanExtensions(exts).serverName, exts)
    decreases |exts|
  {
    if exts == [] {
      EmptyIsInfix(exts);
    } else {
      match ReadUint(exts, 2)
      case None =>
        EmptyIsInfix(exts);
      case Some((extType, afterType)) =>
        match ReadLengthPrefixed(afterType, 2)
        case None =>
          EmptyIsInfix(exts);
        case Some((extData, rest)) =>
          var typeBytes := ToBigEndian(extType, 2);
          var lengthBytes := ToBigEndian(|extData|, 2);
          assert exts == typeBytes + lengthBytes + extData + rest;
          if extType != ExtensionServerName {
            InfixOfMiddle(typeBytes + lengthBytes + extData, rest, []);
            assert typeBytes + lengthBytes + extData + rest + [] == exts;
            ScanExtensionsInfix(rest);
            InfixTransitive(ScanExtensions(rest).serverName, rest, exts);
          } else {
            InfixOfMiddle(typeBytes + lengthBytes, extData, rest);
            ServerNameExtensionInfix(extData);
            InfixTransitive(ServerNameExtension(extData).serverName, extData, exts);
          }
    }
  }

  lemma HelloExtensionsInfix(hello: Bytes)
    requires HelloExtensions(hello).Some?
    ensures IsInfix(HelloExtensions(hello).value, hello)
  {
    HelloExtensionsAgreesWithDecoder(hello);
    DecodeClientHelloSound(hello);
    var (h, rest) := DecodeClientHello(hello).value;
    var front := ToBigEndian(h.version, 2) + h.random
      + ToBigEndian(|h.sessionId|, 1) + h.sessionId
      + ToBigEndian(|h.cipherSuites|, 2) + h.cipherSuites
      + ToBigEndian(|h.compressionMethods|, 1) + h.compressionMethods
      + ToBigEndian(|h.extensions|, 2);
    assert EncodeClientHello(h) == front + h.extensions;
    InfixOfMiddle(front, h.extensions, rest);
  }

  /** The host name returned is a contiguous run of the record's own bytes. */
  lemma ServerNameIsSliceOfRecord(record: Bytes)
    ensures IsInfix(ParseClientHello(record).serverName, record)
  {
    match RecordFragment(record)
    case None =>
      EmptyIsInfix(record);
    case Some(fragment) =>
      SliceIsInfix(record, 5, 5 + BigEndian(record[3..5]));
      match HandshakeBody(fragment)
      case None =>
        EmptyIsInfix(record);
      case Some(hello) =>
        SliceIsInfix(fragment, 4, 4 + BigEndian(fragment[1..4]));
        InfixTransitive(hello, fragment, record);
        match HelloExtensions(hello)
        case None =>
          EmptyIsInfix(record);
        case Some(exts) =>
          HelloExtensionsInfix(hello);
          InfixTransitive(exts, hello, record);
          ScanExtensionsInfix(exts);
          InfixTransitive(ScanExtensions(exts).serverName, exts, record);
  }
}
