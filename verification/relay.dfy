/** The non-native strategy of `copyTo` in cmd/proxy/main.go: read into a
    128-byte buffer, write exactly the bytes read, and repeat until a read or
    a write fails. */
module Relay {
  import opened Wire
  import opened Socket

  /** The size of `copyTo`'s buffer. */
  const ChunkSize: nat := 128

  /** Which side ended the loop. End of stream counts as a read failure. */
  datatype CopyError = ReadFailed | WriteFailed

  /** Every chunk fits the buffer. */
  predicate FitBuffer(chunks: seq<Bytes>)
  {
    forall i | 0 <= i < |chunks| :: |chunks[i]| <= ChunkSize
  }

  /** The chunks successive 128-byte reads return from `c` until end of stream. */
  function Chunks(c: Conn): seq<Bytes>
    decreases Measure(c)
  {
    match Socket.Read(c, ChunkSize)
    case None => []
    case Some((chunk, next)) => [chunk] + Chunks(next)
  }

  /** The chunks are the stream, cut into pieces of at most 128 bytes. */
  lemma {:induction false} ChunksCoverStream(c: Conn)
    ensures Flatten(Chunks(c)) == Contents(c)
    ensures FitBuffer(Chunks(c))
    decreases Measure(c)
  {
    match Socket.Read(c, ChunkSize)
    case None =>
    case Some((chunk, next)) =>
      ChunksCoverStream(next);
      assert Chunks(c) == [chunk] + Chunks(next);
      assert ([chunk] + Chunks(next))[1..] == Chunks(next);
  }

  /** A 300-byte message that arrives in one segment is read as 128, 128 and
      44 bytes, and then the stream ends. */
  lemma ThreeHundredBytesInOneSegment(message: Bytes)
    requires |message| == 300
    ensures |Chunks(Conn([], [message]))| == 3
    ensures |Chunks(Conn([], [message]))[0]| == 128
    ensures |Chunks(Conn([], [message]))[1]| == 128
    ensures |Chunks(Conn([], [message]))[2]| == 44
  {
    var c0 := Conn([], [message]);
    var c1 := Conn(message[128..], []);
    var c2 := Conn(message[256..], []);
    var c3 := Conn([], []);
    assert Socket.Read(c0, ChunkSize) == Some((message[..128], c1));
    assert message[128..][..128] == message[128..256] && message[128..][128..] == message[256..];
    assert Socket.Read(c1, ChunkSize) == Some((message[128..256], c2));
    assert message[256..][..44] == message[256..] && message[256..][44..] == [];
    assert Socket.Read(c2, ChunkSize) == Some((message[256..], c3));
    assert Chunks(c3) == [];
    assert Chunks(c2) == [message[256..]];
    assert Chunks(c1) == [message[128..256], message[256..]];
  }

  /** One turn of the loop: a read that returns data yields the first planned
      chunk, and the chunks read so far grow by it. */
  lemma ChunkStep(conn: Conn, chunk: Bytes, next: Conn, received: seq<Bytes>, plan: seq<Bytes>)
    requires Socket.Read(conn, ChunkSize) == Some((chunk, next))
    requires received + Chunks(conn) == plan
    ensures (received + [chunk]) + Chunks(next) == plan
  {
    assert Chunks(conn) == [chunk] + Chunks(next);
    assert received + ([chunk] + Chunks(next)) == (received + [chunk]) + Chunks(next);
  }

  lemma FitBufferSnoc(received: seq<Bytes>, chunk: Bytes)
    requires FitBuffer(received) && |chunk| <= ChunkSize
    ensures FitBuffer(received + [chunk])
  {
    assert forall i | 0 <= i < |received| :: (received + [chunk])[i] == received[i];
  }

  lemma PrefixOfPlan(received: seq<Bytes>, rest: seq<Bytes>, plan: seq<Bytes>)
    requires received + rest == plan
    ensures received <= plan
  {
    assert plan[..|received|] == received;
  }

  /** `copyTo(fromConn, toConn, false)`. `failingWrite` is the index of the
      first write the destination rejects, if any. Returns what Go returns,
      the count 0 and the error, together with the chunks read and the bytes
      the destination accepted. */
  method CopyChunked(from: Conn, failingWrite: Option<nat>)
    returns (copied: int, err: CopyError, received: seq<Bytes>, written: Bytes)
    ensures copied == 0
    ensures received <= Chunks(from)
    ensures FitBuffer(received)
    ensures err == ReadFailed <==> failingWrite.None? || failingWrite.value >= |Chunks(from)|
    ensures err == ReadFailed ==> received == Chunks(from) && written == Contents(from)
    ensures err == WriteFailed ==>
      && |received| == failingWrite.value + 1
      && written == Flatten(received[..|received| - 1])
  {
    ghost var plan := Chunks(from);
    var conn := from;
    received := [];
    written := [];
    while true
      invariant received + Chunks(conn) == plan
      invariant written == Flatten(received)
      invariant FitBuffer(received)
      invariant failingWrite.None? || |received| <= failingWrite.value
      decreases Measure(conn)
    {
      var r := Socket.Read(conn, ChunkSize);
      if r.None? {
        assert Chunks(conn) == [];
        assert received == plan;
        ChunksCoverStream(from);
        return 0, ReadFailed, received, written;
      }
      var (chunk, next) := r.value;
      ChunkStep(conn, chunk, next, received, plan);
      FitBufferSnoc(received, chunk);
      var before := received;
      received := before + [chunk];
      conn := next;
      if failingWrite == Some(|before|) {
        PrefixOfPlan(received, Chunks(conn), plan);
        assert received[..|before|] == before;
        return 0, WriteFailed, received, written;
      }
      FlattenSnoc(before, chunk);
      written := written + chunk;
    }
  }
}
