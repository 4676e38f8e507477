/** Payload masking: section 5.3 of RFC 6455, and maskBytes in conn.go. */
module Masking {
  import opened Bytes

  type Key = s: seq<byte> | |s| == 4 witness [0, 0, 0, 0]

  /** Byte i of the payload is XORed with byte (pos + i) mod 4 of the key. */
  function Masked(key: Key, pos: nat, s: seq<byte>): (r: seq<byte>)
    ensures |r| == |s|
  {
    seq(|s|, i requires 0 <= i < |s| => s[i] ^ key[(pos + i) % 4])
  }

  /** Masking in place: b[lo..hi] is the slice that maskBytes is given. */
  method MaskBytes(key: Key, pos: nat, b: array<byte>, lo: nat, hi: nat) returns (next: nat)
    requires lo <= hi <= b.Length
    modifies b
    ensures b[..lo] == old(b[..lo]) && b[hi..] == old(b[hi..])
    ensures b[lo..hi] == Masked(key, pos, old(b[lo..hi]))
    ensures forall j :: lo <= j < hi ==> b[j] == old(b[j]) ^ key[(pos + (j - lo)) % 4]
    ensures next == (pos + (hi - lo)) % 4
  {
    var p := pos;
    for i := lo to hi
      invariant p == pos + (i - lo)
      invariant forall j :: 0 <= j < b.Length && !(lo <= j < i) ==> b[j] == old(b[j])
      invariant forall j :: lo <= j < i ==> b[j] == old(b[j]) ^ key[(pos + (j - lo)) % 4]
    {
      b[i] := b[i] ^ key[p % 4];
      p := p + 1;
    }
    next := p % 4;
  }

  /** Octet i of the payload is XORed with octet i modulo 4 of the key; */
  lemma MaskedByOctet(key: Key, pos: nat, s: seq<byte>, i: nat)
    requires i < |s|
    ensures Masked(key, 0, s)[i] == s[i] ^ key[i % 4]
    ensures Masked(key, pos, [s[i]]) == [s[i] ^ key[pos % 4]]
  {
  }

  /** so zeros become the key itself. */
  lemma ZerosGiveKey(key: Key)
    ensures Masked(key, 0, [0, 0, 0, 0]) == key
  {
    var zeros: seq<byte> := [0, 0, 0, 0];
    MaskedZero(key, zeros, 0);
    MaskedZero(key, zeros, 1);
    MaskedZero(key, zeros, 2);
    MaskedZero(key, zeros, 3);
    hide Masked;
    assert |key| == 4 && |Masked(key, 0, zeros)| == 4;
  }

  lemma MaskedZero(key: Key, s: seq<byte>, i: nat)
    requires i < |s| && i < 4 && s[i] == 0
    ensures Masked(key, 0, s)[i] == key[i]
  {
    XorZero(key[i]);
  }

  lemma XorZero(a: byte)
    ensures 0 ^ a == a
  {
  }

  lemma XorTwice(a: byte, k: byte)
    ensures (a ^ k) ^ k == a
  {
  }

  /** Masking twice with the same key and position is the identity. */
  lemma MaskedTwice(key: Key, pos: nat, s: seq<byte>)
    ensures Masked(key, pos, Masked(key, pos, s)) == s
  {
    forall i | 0 <= i < |s|
      ensures Masked(key, pos, Masked(key, pos, s))[i] == s[i]
    {
      XorTwice(s[i], key[(pos + i) % 4]);
    }
  }

  lemma PositionMod4(pos: nat, n: nat, i: nat)
    ensures ((pos + n) % 4 + i) % 4 == (pos + n + i) % 4
  {
  }

  /** Masking a piece, then the rest from the position maskBytes returned, masks the whole. */
  lemma MaskedSplit(key: Key, pos: nat, s: seq<byte>, t: seq<byte>)
    ensures Masked(key, pos, s + t) == Masked(key, pos, s) + Masked(key, (pos + |s|) % 4, t)
  {
    var l, r := Masked(key, pos, s + t), Masked(key, pos, s) + Masked(key, (pos + |s|) % 4, t);
    forall i | |s| <= i < |s| + |t|
      ensures l[i] == r[i]
    {
      PositionMod4(pos, |s|, i - |s|);
    }
    assert l == r;
  }

  /** Masking piece by piece, with the position threaded through as readMaskPos is. */
  function MaskedPieces(key: Key, pos: nat, pieces: seq<seq<byte>>): (r: seq<byte>)
    decreases |pieces|
  {
    if pieces == [] then []
    else Masked(key, pos, pieces[0]) + MaskedPieces(key, (pos + |pieces[0]|) % 4, pieces[1..])
  }

  lemma {:induction false} MaskingIgnoresChunking(key: Key, pos: nat, pieces: seq<seq<byte>>)
    ensures MaskedPieces(key, pos, pieces) == Masked(key, pos, Flatten(pieces))
    decreases |pieces|
  {
    hide Masked;
    if pieces != [] {
      var head, tail := pieces[0], Flatten(pieces[1..]);
      MaskingIgnoresChunking(key, (pos + |head|) % 4, pieces[1..]);
      MaskedSplit(key, pos, head, tail);
      assert Flatten(pieces) == head + tail;
    }
  }
}
