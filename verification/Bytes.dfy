/**
  * Bytes, and the big-endian integers of encoding/binary that frame headers use.
  *
  * A byte is a bit-vector, so that the header arithmetic can be written with the
  * same bit operations as in Go; lengths are integers.
  */
module Bytes {

  type byte = bv8

  /** Go's conversion byte(n), for a value that fits. */
  function ByteOf(n: int): (b: byte)
    requires 0 <= n < 256
    ensures b as int == n
  {
    ByteOfIsExact(n);
    n as bv8
  }

  lemma ByteOfIsExact(n: int)
    requires 0 <= n < 256
    ensures (n as bv8) as int == n
  {
    var b := ByteWithValue(n);
    assert (b as int) as bv8 == b;
  }

  lemma ByteWithValue(n: int) returns (b: byte)
    requires 0 <= n < 256
    ensures b as int == n
  {
    if n == 0 {
      b := 0;
    } else {
      var c := ByteWithValue(n - 1);
      ByteSuccessor(c);
      b := c + 1;
    }
  }

  lemma ByteSuccessor(b: byte)
    requires b as int < 255
    ensures (b + 1) as int == b as int + 1
  {
  }

  lemma ByteOrder(a: byte, b: byte)
    ensures a <= b <==> a as int <= b as int
  {
  }

  /** 256 to the power k. */
  function Radix(k: nat): (r: nat)
    ensures r > 0
  {
    if k == 0 then 1 else 256 * Radix(k - 1)
  }

  /** The k-byte big-endian form that binary.BigEndian.PutUint16 and PutUint64 write. */
  function BigEndian(k: nat, n: nat): (s: seq<byte>)
    ensures |s| == k
  {
    if k == 0 then [] else BigEndian(k - 1, n / 256) + [ByteOf(n % 256)]
  }

  /** The value that binary.BigEndian.Uint16 and Uint64 read. */
  function FromBigEndian(s: seq<byte>): (n: nat)
  {
    if s == [] then 0 else FromBigEndian(s[..|s| - 1]) * 256 + s[|s| - 1] as int
  }

  lemma {:induction false} BigEndianRoundTrip(k: nat, n: nat)
    requires n < Radix(k)
    ensures FromBigEndian(BigEndian(k, n)) == n
  {
    if k > 0 {
      var s := BigEndian(k, n);
      assert s[..k - 1] == BigEndian(k - 1, n / 256);
      BigEndianRoundTrip(k - 1, n / 256);
    }
  }

  lemma {:induction false} FromBigEndianBound(s: seq<byte>)
    ensures FromBigEndian(s) < Radix(|s|)
  {
    if s != [] {
      FromBigEndianBound(s[..|s| - 1]);
      ByteOrder(s[|s| - 1], 255);
    }
  }

  /** The two header lengths as plain numbers. */
  lemma Radixes()
    ensures Radix(2) == 0x1_0000
    ensures Radix(8) == 0x1_0000_0000_0000_0000
  {
    assert Radix(4) == 256 * Radix(3) == 256 * 256 * Radix(2);
    assert Radix(6) == 256 * 256 * Radix(4);
    assert Radix(8) == 256 * 256 * Radix(6);
  }

  /** Go's conversion int64(n) of a uint64 value, or of a sum of int64 values: it wraps. */
  function Int64(n: int): (r: int)
    ensures -0x8000_0000_0000_0000 <= r < 0x8000_0000_0000_0000
    ensures -0x8000_0000_0000_0000 <= n < 0x8000_0000_0000_0000 ==> r == n
  {
    (n + 0x8000_0000_0000_0000) % 0x1_0000_0000_0000_0000 - 0x8000_0000_0000_0000
  }

  /** All the bytes of a list of pieces, in order. */
  function Flatten(pieces: seq<seq<byte>>): (s: seq<byte>)
  {
    if pieces == [] then [] else pieces[0] + Flatten(pieces[1..])
  }

  lemma FlattenOne(a: seq<byte>)
    ensures Flatten([a]) == a
  {
    assert [a][1..] == [];
  }

  lemma FlattenPair(a: seq<byte>, b: seq<byte>)
    ensures Flatten([a, b]) == a + b
  {
    assert [a, b][1..] == [b] && [b][1..] == [];
    assert Flatten([b]) == b;
  }
}
