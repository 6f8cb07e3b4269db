/** The reading side of a TCP connection (`net.Conn.Read`, `io.CopyN`).
    The network is modelled by what has already been received and the
    segments that will still arrive before the peer closes; a read waits for
    the next segment when nothing is pending and reports end of stream once
    everything is read. */
module Socket {
  import opened Wire

  /** `pending`: received, not yet read. `arrivals`: what the peer still sends, segment by segment. */
  datatype Conn = Conn(pending: Bytes, arrivals: seq<Bytes>)

  /** Every byte a reader can still get from the connection, in order. */
  function Contents(c: Conn): Bytes
  {
    c.pending + Flatten(c.arrivals)
  }

  /** Decreases with every read of a positive size that returns data. */
  function Measure(c: Conn): nat
  {
    |Contents(c)| + |c.arrivals|
  }

  function Min(a: nat, b: nat): nat
  {
    if a <= b then a else b
  }

  /** `conn.Read(p)` with `len(p) == size`: as many pending bytes as fit, or,
      when nothing is pending, as many as fit from the next segment; `None` is
      end of stream, which the caller sees as an error. A read into an empty
      buffer returns nothing and no error, even at end of stream. */
  function Read(c: Conn, size: nat): (r: Option<(Bytes, Conn)>)
    ensures r.None? <==> size > 0 && c.pending == [] && c.arrivals == []
    ensures r.Some? ==> |r.value.0| <= size
    ensures r.Some? ==> r.value.0 + Contents(r.value.1) == Contents(c)
    ensures size == 0 ==> r == Some(([], c))
    ensures c.pending != [] ==> r.Some? && |r.value.0| == Min(size, |c.pending|)
    ensures r.Some? && size > 0 ==> Measure(r.value.1) < Measure(c)
  {
    if size == 0 then Some(([], c))
    else if c.pending != [] then
      var n := Min(size, |c.pending|);
      Some((c.pending[..n], Conn(c.pending[n..], c.arrivals)))
    else if c.arrivals == [] then None
    else
      var next := c.arrivals[0];
      var n := Min(size, |next|);
      assert Flatten(c.arrivals) == next + Flatten(c.arrivals[1..]);
      Some((next[..n], Conn(next[n..], c.arrivals[1..])))
  }

  /** `io.CopyN(&buf, conn, n)`: read until exactly `n` bytes have been
      copied; end of stream before that is an error. */
  function CopyN(c: Conn, n: nat): (r: Option<(Bytes, Conn)>)
    ensures r.Some? <==> n <= |Contents(c)|
    ensures r.Some? ==> |r.value.0| == n && r.value.0 + Contents(r.value.1) == Contents(c)
    decreases Measure(c)
  {
    if n == 0 then Some(([], c))
    else
      match Read(c, n)
      case None => None
      case Some((chunk, next)) =>
        assert Contents(c) == chunk + Contents(next);
        match CopyN(next, n - |chunk|)
        case None => None
        case Some((more, last)) =>
          assert chunk + more + Contents(last) == chunk + (more + Contents(last));
          Some((chunk + more, last))
  }
}
