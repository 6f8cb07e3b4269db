/** Byte strings, optional values and the unsigned big-endian integers that
    every length field of the TLS wire format uses. */
module Wire {

  /** An octet. An integer subset rather than a bit-vector, so that length
      arithmetic stays linear for the solver. */
  newtype byte = b: int | 0 <= b < 256

  /** A byte string; Go's `[]byte`, `string` and `cryptobyte.String` all map here. */
  type Bytes = seq<byte>

  /** The result of a read that may not have enough input. */
  datatype Option<+T> = None | Some(value: T)

  /** 256 to the power `n`: one more than the largest `n`-byte unsigned integer. */
  function Pow256(n: nat): (r: nat)
    ensures r >= 1
  {
    if n == 0 then 1 else 256 * Pow256(n - 1)
  }

  /** The widths the TLS framing uses. */
  lemma Pow256Widths()
    ensures Pow256(1) == 0x100 && Pow256(2) == 0x1_0000 && Pow256(3) == 0x100_0000
  {
    assert Pow256(1) == 256 * Pow256(0);
    assert Pow256(2) == 256 * Pow256(1);
    assert Pow256(3) == 256 * Pow256(2);
  }

  /** The unsigned integer spelled by `s`, most significant byte first
      (Go's `binary.BigEndian` and cryptobyte's length accumulator). */
  function BigEndian(s: Bytes): (v: nat)
    ensures v < Pow256(|s|)
  {
    if s == [] then 0
    else
      var high := BigEndian(s[..|s| - 1]);
      assert high * 256 <= (Pow256(|s| - 1) - 1) * 256;
      high * 256 + s[|s| - 1] as nat
  }

  /** The two- and three-byte cases spelled out: `binary.BigEndian.Uint16`
      is `b[0] << 8 | b[1]`, and a 24-bit length is `b[0] << 16 | b[1] << 8 | b[2]`. */
  lemma BigEndianDigits(s: Bytes)
    ensures |s| == 2 ==> BigEndian(s) == s[0] as nat * 0x100 + s[1] as nat
    ensures |s| == 3 ==> BigEndian(s) == s[0] as nat * 0x1_0000 + s[1] as nat * 0x100 + s[2] as nat
  {
    if |s| == 2 {
      assert s[..1][..0] == [];
      assert BigEndian(s[..1]) == s[0] as nat;
    }
    if |s| == 3 {
      assert s[..2][..1] == s[..1];
      assert s[..1][..0] == [];
      assert BigEndian(s[..1]) == s[0] as nat;
      assert BigEndian(s[..2]) == s[0] as nat * 0x100 + s[1] as nat;
    }
  }

  /** The `n`-byte big-endian spelling of `v`. */
  function ToBigEndian(v: nat, n: nat): (s: Bytes)
    requires v < Pow256(n)
    ensures |s| == n
    ensures BigEndian(s) == v
  {
    if n == 0 then []
    else
      DivBound(v, n);
      var high := ToBigEndian(v / 256, n - 1);
      var spelled := high + [(v % 256) as byte];
      assert spelled[..n - 1] == high;
      assert BigEndian(spelled) == (v / 256) * 256 + v % 256;
      spelled
  }

  lemma DivBound(v: nat, n: nat)
    requires n >= 1 && v < Pow256(n)
    ensures v / 256 < Pow256(n - 1)
  {
  }

  /** Reading a byte string as a number and spelling it again gives the same
      bytes back: the big-endian spelling is unique. */
  lemma {:induction false} ToBigEndianOfBigEndian(s: Bytes)
    ensures ToBigEndian(BigEndian(s), |s|) == s
  {
    if s != [] {
      var n := |s|;
      var high := BigEndian(s[..n - 1]);
      assert BigEndian(s) == high * 256 + s[n - 1] as nat;
      assert BigEndian(s) / 256 == high;
      assert BigEndian(s) % 256 == s[n - 1] as nat;
      ToBigEndianOfBigEndian(s[..n - 1]);
      assert s == s[..n - 1] + [s[n - 1]];
    }
  }

  /** The concatenation of a sequence of byte strings, in order. */
  function Flatten(chunks: seq<Bytes>): Bytes
  {
    if chunks == [] then [] else chunks[0] + Flatten(chunks[1..])
  }

  /** Appending one chunk at the end appends its bytes at the end. */
  lemma {:induction false} FlattenSnoc(chunks: seq<Bytes>, last: Bytes)
    ensures Flatten(chunks + [last]) == Flatten(chunks) + last
  {
    if chunks == [] {
      assert [] + [last] == [last];
    } else {
      assert (chunks + [last])[1..] == chunks[1..] + [last];
      FlattenSnoc(chunks[1..], last);
    }
  }

  /** `part` occurs as a contiguous run of bytes inside `whole`. */
  ghost predicate IsInfix(part: Bytes, whole: Bytes)
  {
    exists i :: 0 <= i <= |whole| && part <= whole[i..]
  }

  /** The middle of a three-way split is an infix. */
  lemma InfixOfMiddle(a: Bytes, b: Bytes, c: Bytes)
    ensures IsInfix(b, a + b + c)
  {
    var w := a + b + c;
    assert b <= w[|a|..];
  }

  /** An infix of an infix is an infix. */
  lemma InfixTransitive(a: Bytes, b: Bytes, c: Bytes)
    requires IsInfix(a, b) && IsInfix(b, c)
    ensures IsInfix(a, c)
  {
    var i :| 0 <= i <= |b| && a <= b[i..];
    var j :| 0 <= j <= |c| && b <= c[j..];
    assert a <= c[i + j..];
  }
}
