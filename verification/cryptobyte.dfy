/** A bounds-checked cursor over a byte string, after the `cryptobyte.String`
    reader the parser walks with. Every read either consumes a prefix and
    returns it together with the remaining input, or fails when the input is
    too short; a declared length is never trusted past the end of the input. */
module Cryptobyte {
  import opened Wire

  /** `read(n)` / `ReadBytes`: the first `n` bytes and the rest. */
  function Read(s: Bytes, n: nat): (r: Option<(Bytes, Bytes)>)
    ensures r.Some? <==> n <= |s|
    ensures r.Some? ==> |r.value.0| == n && r.value.0 + r.value.1 == s
  {
    if |s| < n then None else Some((s[..n], s[n..]))
  }

  /** `Skip(n)`: drop `n` bytes, keeping the rest. */
  function Skip(s: Bytes, n: nat): (r: Option<Bytes>)
    ensures r.Some? <==> n <= |s|
    ensures r.Some? ==> |r.value| == |s| - n && s == s[..n] + r.value
  {
    match Read(s, n)
    case None => None
    case Some((_, rest)) => Some(rest)
  }

  /** `ReadUint8`: one byte. */
  function ReadUint8(s: Bytes): (r: Option<(byte, Bytes)>)
    ensures r.Some? <==> s != []
    ensures r.Some? ==> [r.value.0] + r.value.1 == s
  {
    match Read(s, 1)
    case None => None
    case Some((b, rest)) => Some((b[0], rest))
  }

  /** `readUnsigned(n)`: an `n`-byte big-endian unsigned integer
      (`ReadUint16` is the case `n == 2`). */
  function ReadUint(s: Bytes, n: nat): (r: Option<(nat, Bytes)>)
    ensures r.Some? <==> n <= |s|
    ensures r.Some? ==> r.value.0 < Pow256(n) && ToBigEndian(r.value.0, n) + r.value.1 == s
  {
    match Read(s, n)
    case None => None
    case Some((digits, rest)) =>
      ToBigEndianOfBigEndian(digits);
      Some((BigEndian(digits), rest))
  }

  /** `readLengthPrefixed(lenLen)`: an `lenLen`-byte big-endian length followed
      by that many bytes (`ReadUint8LengthPrefixed`, `ReadUint16LengthPrefixed`
      and `ReadUint24LengthPrefixed` are `lenLen` 1, 2 and 3). The length is
      accumulated in a 32-bit word, so at most four length bytes are allowed. */
  function ReadLengthPrefixed(s: Bytes, lenLen: nat): (r: Option<(Bytes, Bytes)>)
    requires 1 <= lenLen <= 4
    ensures r.Some? <==> lenLen <= |s| && BigEndian(s[..lenLen]) <= |s| - lenLen
    ensures r.Some? ==> |r.value.0| < Pow256(lenLen)
    ensures r.Some? ==> ToBigEndian(|r.value.0|, lenLen) + r.value.0 + r.value.1 == s
  {
    match ReadUint(s, lenLen)
    case None => None
    case Some((length, rest)) =>
      assert s[..lenLen] == ToBigEndian(length, lenLen);
      Read(rest, length)
  }

  /** Reading `n` bytes back from their own encoding. */
  lemma ReadUintOfEncoding(v: nat, n: nat, rest: Bytes)
    requires v < Pow256(n)
    ensures ReadUint(ToBigEndian(v, n) + rest, n) == Some((v, rest))
  {
    var s := ToBigEndian(v, n) + rest;
    var r := ReadUint(s, n);
    assert r.value.0 == v by {
      assert s[..n] == ToBigEndian(r.value.0, n) == ToBigEndian(v, n);
      assert BigEndian(ToBigEndian(r.value.0, n)) == r.value.0;
    }
  }

  /** A length-prefixed field reads back as the bytes it frames, whatever follows. */
  lemma ReadLengthPrefixedOfEncoding(child: Bytes, lenLen: nat, rest: Bytes)
    requires 1 <= lenLen <= 4 && |child| < Pow256(lenLen)
    ensures ReadLengthPrefixed(ToBigEndian(|child|, lenLen) + child + rest, lenLen) == Some((child, rest))
  {
    var s := ToBigEndian(|child|, lenLen) + child + rest;
    assert s == ToBigEndian(|child|, lenLen) + (child + rest);
    ReadUintOfEncoding(|child|, lenLen, child + rest);
  }

  /** Bytes appended after a successful length-prefixed read stay in the rest
      and do not change what was read. */
  lemma ReadLengthPrefixedExtends(s: Bytes, lenLen: nat, extra: Bytes)
    requires 1 <= lenLen <= 4 && ReadLengthPrefixed(s, lenLen).Some?
    ensures ReadLengthPrefixed(s + extra, lenLen)
         == Some((ReadLengthPrefixed(s, lenLen).value.0, ReadLengthPrefixed(s, lenLen).value.1 + extra))
  {
    var (child, rest) := ReadLengthPrefixed(s, lenLen).value;
    assert s + extra == ToBigEndian(|child|, lenLen) + child + (rest + extra);
    ReadLengthPrefixedOfEncoding(child, lenLen, rest + extra);
  }
}
