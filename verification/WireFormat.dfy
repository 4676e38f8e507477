/**
  * The bytes of a frame, bit by bit as section 5.2 of RFC 6455 draws them, and the examples
  * of section 5.7.
  */
module WireFormat {
  import opened Wrappers
  import opened Bytes
  import opened Masking
  import opened Frames
  import opened FrameParser

  /** FIN, RSV1 to RSV3, the opcode, MASK and the 7-bit length stand where the section has them. */
  lemma HeaderBits(f: Frame)
    requires f.Encodable()
    ensures |Encode(f)| >= 2
    ensures var b0, b1 := Encode(f)[0], Encode(f)[1];
      && (b0 & 0x80 != 0 <==> f.fin) && ((b0 >> 4) & 0x7) as int == f.reserved && (b0 & 0xf) as int == f.opcode
      && (b1 & 0x80 != 0 <==> f.key.Some?)
      && (b1 & 0x7f) as int == match f.form case Short => |f.payload| case Medium => 126 case Long => 127
  {
    hide FirstByte, SecondByte, LengthBytes, KeyBytes, WirePayload;
    FrameLayout(f, []);
    assert Encode(f) + [] == Encode(f);
    FirstByteFields(f);
    SecondByteFields(f);
  }

  /** The digits of an extended payload length, the most significant first. */
  lemma {:induction false} LengthDigits(k: nat, n: nat, i: nat)
    requires i < k
    ensures BigEndian(k, n)[i] as int == n / Radix(k - 1 - i) % 256
  {
    if i == k - 1 {
      assert Radix(0) == 1;
    } else {
      LengthDigits(k - 1, n / 256, i);
      DividedTwice(n, Radix(k - 2 - i));
      assert Radix(k - 1 - i) == 256 * Radix(k - 2 - i);
    }
  }

  lemma DividedTwice(n: nat, r: nat)
    requires r > 0
    ensures n / 256 / r == n / (256 * r)
  {
    var a, c, m := n / 256 / r, n / 256 % r, n % 256;
    assert n / 256 == r * a + c && n == 256 * (n / 256) + m;
    Regrouped(r, a);
    Quotient(n, 256 * r, a, 256 * c + m);
  }

  lemma Regrouped(r: nat, a: nat)
    ensures 256 * (r * a) == (256 * r) * a
  {
  }

  lemma Quotient(n: nat, d: nat, a: nat, m: nat)
    requires d > 0 && m < d && n == d * a + m
    ensures n / d == a
  {
    var b := n / d;
    assert n == d * b + n % d;
    if a < b {
      Larger(d, a, b);
    } else if b < a {
      Larger(d, b, a);
    }
  }

  lemma Larger(d: nat, a: nat, b: nat)
    requires a < b
    ensures d * b >= d * a + d
  {
    assert d * b == d * a + d * (b - a);
    var k := b - a - 1;
    assert d * (k + 1) == d * k + d;
  }

  /** After the two bytes comes the extended length, */
  lemma LengthFollows(f: Frame, j: nat)
    requires f.Encodable()
    ensures var k := if f.form.Short? then 0 else if f.form.Medium? then 2 else 8;
      && |Encode(f)| >= 2 + k
      && (j < k ==> Encode(f)[2 + j] as int == |f.payload| / Radix(k - 1 - j) % 256)
  {
    hide FirstByte, SecondByte, WirePayload, BigEndian, Radix, KeyBytes;
    var s, e, k := Encode(f), 2 + |LengthBytes(f)|, if f.form.Short? then 0 else if f.form.Medium? then 2 else 8;
    FrameLayout(f, []);
    assert s + [] == s;
    if j < k {
      LengthDigits(k, |f.payload|, j);
      assert s[2..e][j] == s[2 + j];
    }
  }

  /** then the key, and the payload, octet by octet under the key. */
  lemma PayloadFollows(f: Frame, i: nat)
    requires f.Encodable() && i < |f.payload|
    ensures var k, m := if f.form.Short? then 0 else if f.form.Medium? then 2 else 8, if f.key.Some? then 4 else 0;
      && |Encode(f)| == 2 + k + m + |f.payload|
      && (f.key.Some? ==> Encode(f)[2 + k..2 + k + 4] == f.key.value)
      && Encode(f)[2 + k + m + i] == if f.key.Some? then f.payload[i] ^ f.key.value[i % 4] else f.payload[i]
  {
    hide FirstByte, SecondByte, Masked, BigEndian, Encode, HeaderBytes, WirePayload;
    var s, h := Encode(f), |HeaderBytes(f)|;
    FrameLayout(f, []);
    assert s + [] == s && WirePayload(f) + [] == WirePayload(f);
    LengthOfLength(f);
    WireOctet(f, i);
    assert s[h..][i] == s[h + i];
  }

  lemma LengthOfLength(f: Frame)
    requires f.Encodable()
    ensures |LengthBytes(f)| == if f.form.Short? then 0 else if f.form.Medium? then 2 else 8
    ensures |KeyBytes(f)| == (if f.key.Some? then 4 else 0) && (f.key.Some? ==> KeyBytes(f) == f.key.value)
  {
    hide BigEndian;
  }

  lemma WireOctet(f: Frame, i: nat)
    requires i < |f.payload|
    ensures WirePayload(f)[i] == if f.key.Some? then f.payload[i] ^ f.key.value[i % 4] else f.payload[i]
  {
    hide Masked;
    if f.key.Some? {
      MaskedByOctet(f.key.value, 0, f.payload, i);
    }
  }

  const HELLO: seq<byte> := [0x48, 0x65, 0x6c, 0x6c, 0x6f]
  const EXAMPLE_KEY: Key := [0x37, 0xfa, 0x21, 0x3d]

  /** The examples of section 5.7. */
  lemma HelloUnmasked()
    ensures Encode(Frame(true, 0, TEXT_MESSAGE, None, Short, HELLO)) == [0x81, 0x05, 0x48, 0x65, 0x6c, 0x6c, 0x6f]
    ensures Encode(Frame(false, 0, TEXT_MESSAGE, None, Short, HELLO[..3])) == [0x01, 0x03, 0x48, 0x65, 0x6c]
    ensures Encode(Frame(true, 0, CONTINUATION_FRAME, None, Short, HELLO[3..])) == [0x80, 0x02, 0x6c, 0x6f]
    ensures Encode(Frame(true, 0, PING_MESSAGE, None, Short, HELLO)) == [0x89, 0x05, 0x48, 0x65, 0x6c, 0x6c, 0x6f]
  {
    SmallBytes();
  }

  lemma SmallBytes()
    ensures ByteOf(0) == 0 && ByteOf(1) == 1 && ByteOf(2) == 2 && ByteOf(3) == 3 && ByteOf(5) == 5
    ensures ByteOf(8) == 8 && ByteOf(9) == 9 && ByteOf(10) == 10
  {
  }

  lemma HelloMasked()
    ensures Encode(Frame(true, 0, TEXT_MESSAGE, Some(EXAMPLE_KEY), Short, HELLO))
         == [0x81, 0x85, 0x37, 0xfa, 0x21, 0x3d, 0x7f, 0x9f, 0x4d, 0x51, 0x58]
    ensures Encode(Frame(true, 0, PONG_MESSAGE, Some(EXAMPLE_KEY), Short, HELLO))
         == [0x8a, 0x85, 0x37, 0xfa, 0x21, 0x3d, 0x7f, 0x9f, 0x4d, 0x51, 0x58]
  {
    SmallBytes();
    assert Masked(EXAMPLE_KEY, 0, HELLO) == [0x7f, 0x9f, 0x4d, 0x51, 0x58];
  }

  lemma SixteenBits()
    ensures BigEndian(2, 256) == [0x01, 0x00]
  {
    SmallBytes();
    assert BigEndian(1, 1) == BigEndian(0, 0) + [1];
  }

  lemma Zeros()
    ensures BigEndian(5, 0) == [0, 0, 0, 0, 0]
  {
    SmallBytes();
    assert BigEndian(1, 0) == BigEndian(0, 0) + [0] == [0];
    assert BigEndian(2, 0) == BigEndian(1, 0) + [0] == [0, 0];
    assert BigEndian(3, 0) == BigEndian(2, 0) + [0] == [0, 0, 0];
    assert BigEndian(4, 0) == BigEndian(3, 0) + [0] == [0, 0, 0, 0];
  }

  lemma SixtyFourBits()
    ensures BigEndian(8, 65536) == [0, 0, 0, 0, 0, 1, 0, 0]
  {
    SmallBytes();
    Zeros();
    assert BigEndian(6, 1) == BigEndian(5, 0) + [1];
    assert BigEndian(7, 256) == BigEndian(6, 1) + [0];
    assert BigEndian(8, 65536) == BigEndian(7, 256) + [0];
  }

  /** 256 bytes take the 16-bit length, 64 KiB the 64-bit one. */
  lemma LongExamples(p: seq<byte>, q: seq<byte>)
    requires |p| == 256 && |q| == 65536
    ensures Encode(Frame(true, 0, BINARY_MESSAGE, None, MinimalForm(|p|), p)) == [0x82, 0x7e, 0x01, 0x00] + p
    ensures Encode(Frame(true, 0, BINARY_MESSAGE, None, MinimalForm(|q|), q)) == [0x82, 0x7f, 0, 0, 0, 0, 0, 1, 0, 0] + q
  {
    hide BigEndian;
    SmallBytes();
    SixteenBits();
    SixtyFourBits();
    var f, g := Frame(true, 0, BINARY_MESSAGE, None, Medium, p), Frame(true, 0, BINARY_MESSAGE, None, Long, q);
    assert HeaderBytes(f) == [0x82, 0x7e, 0x01, 0x00];
    assert HeaderBytes(g) == [0x82, 0x7f, 0, 0, 0, 0, 0, 1, 0, 0];
  }
}
