/** The TLS-stripping front of `doProxy` in cmd/proxy/main.go: read one whole
    TLS record off the accepted connection, sniff it, and hand the TLS server a
    connection that replays the record before the rest of the live stream
    (`prefixConn` over `io.MultiReader(&buf, conn)`). */
module Prefetch {
  import opened Wire
  import opened Socket
  import opened Sni

  /** The five bytes of a record header: content type, version, length. */
  const RecordHeaderLen: nat := 1 + 2 + 2

  /** The buffered record and the connection positioned just after it. */
  datatype Prefetched = Prefetched(record: Bytes, conn: Conn)

  /** Read the record header, then as many bytes as its big-endian length at
      offsets 3 and 4 announces; a stream that ends early aborts. */
  function PrefetchRecord(c: Conn): (r: Option<Prefetched>)
    ensures r.Some? <==>
      && RecordHeaderLen <= |Contents(c)|
      && BigEndian(Contents(c)[3..5]) <= |Contents(c)| - RecordHeaderLen
    ensures r.Some? ==> |r.value.record| == RecordHeaderLen + BigEndian(Contents(c)[3..5])
    ensures r.Some? ==> r.value.record + Contents(r.value.conn) == Contents(c)
  {
    match CopyN(c, RecordHeaderLen)
    case None => None
    case Some((header, afterHeader)) =>
      var stream := Contents(c);
      assert stream == header + Contents(afterHeader);
      assert header[3..5] == stream[3..5];
      var length := BigEndian(header[3..5]);
      match CopyN(afterHeader, length)
      case None => None
      case Some((fragment, afterRecord)) =>
        assert header + fragment + Contents(afterRecord) == stream;
        Some(Prefetched(header + fragment, afterRecord))
  }

  /** `prefixConn`: the buffered bytes, then the live connection. */
  datatype PrefixConn = PrefixConn(buffered: Bytes, live: Conn)

  /** Every byte a reader of the prefix connection can still get, in order. */
  function Unread(p: PrefixConn): Bytes
  {
    p.buffered + Contents(p.live)
  }

  /** `prefixConn.Read(b)` with `len(b) == size`. While buffered bytes remain
      a read returns only buffered bytes and leaves the socket alone; once the
      buffer is drained, reads go to the socket. A read into an empty buffer
      returns nothing and no error, as `bytes.Buffer` and the socket both do. */
  function PrefixRead(p: PrefixConn, size: nat): (r: Option<(Bytes, PrefixConn)>)
    ensures r.None? <==> size > 0 && Unread(p) == [] && p.live.arrivals == []
    ensures r.Some? ==> |r.value.0| <= size && r.value.0 + Unread(r.value.1) == Unread(p)
    ensures size == 0 ==> r == Some(([], p))
    ensures p.buffered != [] ==> r.Some? && r.value.0 <= p.buffered && r.value.1.live == p.live
  {
    if size == 0 then Some(([], p))
    else if p.buffered != [] then
      var n := Min(size, |p.buffered|);
      Some((p.buffered[..n], PrefixConn(p.buffered[n..], p.live)))
    else
      match Socket.Read(p.live, size)
      case None => None
      case Some((chunk, live)) => Some((chunk, PrefixConn([], live)))
  }

  /** A series of reads of the given sizes, stopping early at end of stream:
      everything the reads returned, and the connection afterwards. */
  function ReadSeries(p: PrefixConn, sizes: seq<nat>): (Bytes, PrefixConn)
    decreases |sizes|
  {
    if sizes == [] then ([], p)
    else
      match PrefixRead(p, sizes[0])
      case None => ([], p)
      case Some((chunk, next)) =>
        var (more, last) := ReadSeries(next, sizes[1..]);
        (chunk + more, last)
  }

  /** Replay is lossless and in order: whatever reads are made, the bytes they
      returned followed by the bytes still unread are the original stream. */
  lemma {:induction false} ReplayIsLossless(p: PrefixConn, sizes: seq<nat>)
    ensures ReadSeries(p, sizes).0 + Unread(ReadSeries(p, sizes).1) == Unread(p)
    decreases |sizes|
  {
    if sizes != [] {
      match PrefixRead(p, sizes[0])
      case None =>
      case Some((chunk, next)) =>
        ReplayIsLossless(next, sizes[1..]);
    }
  }

  /** What `doProxy` hands on: the raw connection when TLS stripping is off, a
      replaying connection to run the TLS server over, or nothing when the
      record could not be read. */
  datatype Proxied =
    | Passthrough(conn: Conn)
    | Terminate(sni: Sniff, replay: PrefixConn)
    | Abort

  /** With stripping on: prefetch one record, sniff it (the result is only
      logged), and replay the record in front of the live connection. */
  function Intercept(stripSSL: bool, c: Conn): (d: Proxied)
    ensures !stripSSL ==> d == Passthrough(c)
    ensures stripSSL ==> (d.Abort? <==> PrefetchRecord(c).None?)
    ensures stripSSL ==> (d.Terminate? <==> PrefetchRecord(c).Some?)
    ensures d.Terminate? ==> Unread(d.replay) == Contents(c)
    ensures d.Terminate? ==> d.sni == ParseClientHello(PrefetchRecord(c).value.record)
  {
    if !stripSSL then Passthrough(c)
    else
      match PrefetchRecord(c)
      case None => Abort
      case Some(Prefetched(record, rest)) =>
        Terminate(ParseClientHello(record), PrefixConn(record, rest))
  }

  /** The stream the TLS server reads from is the stream the client sent,
      from its first byte, for any series of reads: the prefetch consumed
      nothing that the replay does not give back. */
  lemma InterceptReplaysWholeStream(c: Conn, sizes: seq<nat>)
    requires PrefetchRecord(c).Some?
    ensures Intercept(true, c).Terminate?
    ensures ReadSeries(Intercept(true, c).replay, sizes).0
            + Unread(ReadSeries(Intercept(true, c).replay, sizes).1) == Contents(c)
  {
    ReplayIsLossless(Intercept(true, c).replay, sizes);
  }
}
