/**
  * What the UTF-8 decoder accepts: exactly the UTF8-octets of section 4 of RFC 3629, read
  * as the scalar values they encode.
  */
module Utf8Language {
  import opened Bytes
  import opened Utf8

  // ----- One character -----

  lemma LeadFits(c: seq<byte>)
    requires c != [] && LeadState(c[0]) >= 2
    ensures 0 <= LeadValue(c[0]) < Limit(LeadState(c[0]))
  {
  }

  lemma AccumulatedIsScalar(c: seq<byte>)
    requires IsChar(c)
    ensures Accumulated(LeadValue(c[0]), c[1..]) == ScalarOf(c)
  {
    var x, t := LeadValue(c[0]), c[1..];
    if |c| >= 2 {
      AccumulatedStep(x, t);
      if |c| >= 3 {
        AccumulatedStep(x * 64 + Bits(t[0]), t[1..]);
        if |c| == 4 {
          AccumulatedStep((x * 64 + Bits(t[0])) * 64 + Bits(t[1]), t[1..][1..]);
        }
      }
    }
  }

  lemma AccumulatedStep(x: int, c: seq<byte>)
    requires c != []
    ensures Accumulated(x, c) == Accumulated(x * 64 + Bits(c[0]), c[1..])
    ensures |c| == 1 ==> Accumulated(x, c) == x * 64 + Bits(c[0])
  {
  }

  /** Each time the decoder is back in the accepting state, x is the scalar value just read. */
  lemma CharIsDecoded(d: Decoder, s: seq<byte>, k: nat)
    requires d.state == ACCEPT && k <= |s| && IsChar(s[..k])
    ensures var v := ScalarOf(s[..k]); Leads(d, s, [v], Decoder(ACCEPT, v), s[k..])
  {
    hide Decode, Run, Outputs, LeadState, LeadValue, Completes, Accumulated, IsChar, ScalarOf;
    var c := s[..k];
    CharHasLength(c);
    CharIsLeadAndCompletion(c);
    First(d, s[0]);
    LeadsOn(d, s);
    AccumulatedIsScalar(c);
    var e := Decode(d, s[0]);
    if e.state == ACCEPT {
      NothingCompletes(c);
    } else {
      LeadFits(c);
      assert s[1..][..k - 1] == c[1..] && s[1..][k - 1..] == s[k..];
      CompletionIsDecoded(e, s[1..], k - 1);
      var v := ScalarOf(c);
      LeadsTwice(d, s, e, s[1..], [v], Decoder(ACCEPT, v), s[k..]);
    }
  }

  lemma CharHasLength(c: seq<byte>)
    requires IsChar(c)
    ensures 1 <= |c| <= 4
  {
  }

  lemma NothingCompletes(c: seq<byte>)
    requires c != [] && Completes(ACCEPT, c[1..])
    ensures |c| == 1 && Accumulated(LeadValue(c[0]), c[1..]) == LeadValue(c[0])
  {
  }

  /** A non-empty accepted input starts with a character. */
  lemma FirstChar(d: Decoder, s: seq<byte>) returns (k: nat)
    requires d.state == ACCEPT && s != [] && Run(d, s).state == ACCEPT
    ensures 1 <= k <= |s| && IsChar(s[..k])
  {
    hide Decode, LeadState, LeadValue, IsChar, Takes;
    First(d, s[0]);
    var e := Decode(d, s[0]);
    if e.state == REJECT {
      RejectStays(e, s[1..]);
      assert false;
    } else if e.state == ACCEPT {
      k := 1;
    } else {
      var j := AcceptedIsCompleted(e, s[1..]);
      k := j + 1;
      assert s[..k][1..] == s[1..][..j];
    }
    assert s[..k][0] == s[0];
    CharIsLeadAndCompletion(s[..k]);
  }

  // ----- The language -----

  lemma {:induction false} OctetsFromAccept(d: Decoder, s: seq<byte>)
    requires d.state == ACCEPT
    ensures IsOctets(s) <==> Run(d, s).state == ACCEPT
    decreases |s|
  {
    hide Decode, IsChar, ScalarOf;
    if s == [] {
    } else if IsOctets(s) {
      var k :| 1 <= k <= |s| && IsChar(s[..k]) && IsOctets(s[k..]);
      CharIsDecoded(d, s, k);
      OctetsFromAccept(Decoder(ACCEPT, ScalarOf(s[..k])), s[k..]);
    } else if Run(d, s).state == ACCEPT {
      var k := FirstChar(d, s);
      CharIsDecoded(d, s, k);
      OctetsFromAccept(Decoder(ACCEPT, ScalarOf(s[..k])), s[k..]);
    }
  }

  /** A fold of decode ends in utf8Accept exactly on well-formed UTF-8. */
  lemma LanguageEquality(s: seq<byte>)
    ensures Run(START, s).state == ACCEPT <==> IsOctets(s)
  {
    OctetsFromAccept(START, s);
  }

  lemma {:induction false} RunAppend(d: Decoder, s: seq<byte>, t: seq<byte>)
    ensures Run(d, s + t) == Run(Run(d, s), t)
    decreases |s|
  {
    hide Decode;
    if s == [] {
      assert s + t == t;
    } else {
      assert (s + t)[0] == s[0] && (s + t)[1..] == s[1..] + t;
      RunAppend(Decode(d, s[0]), s[1..], t);
    }
  }

  /** The least octets that a state still takes. */
  function Ending(state: State): seq<byte> {
    match state
    case 2 => [0x80]
    case 3 => [0x80, 0x80]
    case 4 => [0xA0, 0x80]
    case 5 => [0x80, 0x80]
    case 6 => [0x90, 0x80, 0x80]
    case 7 => [0x80, 0x80, 0x80]
    case 8 => [0x80, 0x80, 0x80]
    case _ => []
  }

  lemma {:induction false} EndingAccepts(d: Decoder)
    requires d.state != REJECT
    ensures Run(d, Ending(d.state)).state == ACCEPT
    decreases Waits(d.state)
  {
    hide Decode;
    if d.state != ACCEPT {
      var s := Ending(d.state);
      Continue(d, s[0]);
      assert s[1..] == Ending(After(d.state));
      EndingAccepts(Decode(d, s[0]));
    }
  }

  ghost predicate Extends(s: seq<byte>) {
    exists t :: IsOctets(s + t)
  }

  /** The decoder rejects as soon as no more bytes could make the input well-formed, and not before. */
  lemma RejectsAsSoonAsHopeless(s: seq<byte>)
    ensures Run(START, s).state == REJECT <==> !Extends(s)
  {
    hide Decode, IsOctets, Run;
    var d := Run(START, s);
    if d.state != REJECT {
      var t := Ending(d.state);
      RunAppend(START, s, t);
      EndingAccepts(d);
      LanguageEquality(s + t);
    } else if Extends(s) {
      var t :| IsOctets(s + t);
      RunAppend(START, s, t);
      RejectStays(d, t);
      LanguageEquality(s + t);
      assert false;
    }
  }

  // ----- Characters and scalar values -----

  lemma ScalarOfEncode1(v: int)
    requires 0 <= v <= 0x7FF
    ensures IsChar(Encode(v)) && ScalarOf(Encode(v)) == v
  {
  }

  lemma Quotients(v: int)
    requires 0 <= v
    ensures v / 64 / 64 == v / 4096 && v / 4096 / 64 == v / 262144
    ensures v == v / 64 * 64 + v % 64 && v / 64 == v / 4096 * 64 + v / 64 % 64
    ensures v / 4096 == v / 262144 * 64 + v / 4096 % 64
  {
  }

  lemma TailBits(v: int)
    requires 0 <= v
    ensures IsTail(Tail(v)) && Bits(Tail(v)) == v % 64 && 0 <= v % 64 < 64
  {
  }

  lemma MakeChar3(c: seq<byte>, hi: int)
    requires |c| == 3 && IsTail(c[1]) && IsTail(c[2]) && 0xE0 <= c[0] as int <= 0xEF
    requires hi == (c[0] as int - 0xE0) * 64 + Bits(c[1])
    requires hi >= 0x20 && !(0x360 <= hi < 0x380)
    ensures IsChar(c) && ScalarOf(c) == hi * 64 + Bits(c[2])
  {
  }

  lemma MakeChar4(c: seq<byte>, hi: int)
    requires |c| == 4 && IsTail(c[1]) && IsTail(c[2]) && IsTail(c[3]) && 0xF0 <= c[0] as int <= 0xF4
    requires hi == (c[0] as int - 0xF0) * 64 + Bits(c[1])
    requires 0x10 <= hi < 0x110
    ensures IsChar(c) && ScalarOf(c) == (hi * 64 + Bits(c[2])) * 64 + Bits(c[3])
  {
  }

  lemma ScalarOfEncode3(v: int)
    requires 0x7FF < v <= 0xFFFF && IsScalar(v)
    ensures IsChar(Encode(v)) && ScalarOf(Encode(v)) == v
  {
    hide IsChar, ScalarOf, Tail, Bits, IsTail;
    Quotients(v);
    TailBits(v / 64);
    TailBits(v);
    MakeChar3(Encode(v), v / 64);
  }

  lemma ScalarOfEncode4(v: int)
    requires 0xFFFF < v <= 0x10FFFF
    ensures IsChar(Encode(v)) && ScalarOf(Encode(v)) == v
  {
    hide IsChar, ScalarOf, Tail, Bits, IsTail;
    Quotients(v);
    TailBits(v / 4096);
    TailBits(v / 64);
    TailBits(v);
    MakeChar4(Encode(v), v / 4096);
  }

  /** A scalar value's octets are a character that reads as the value. */
  lemma ScalarOfEncode(v: int)
    requires IsScalar(v)
    ensures IsChar(Encode(v)) && ScalarOf(Encode(v)) == v
  {
    hide IsChar, Encode, ScalarOf;
    if v <= 0x7FF {
      ScalarOfEncode1(v);
    } else if v <= 0xFFFF {
      ScalarOfEncode3(v);
    } else {
      ScalarOfEncode4(v);
    }
  }

  lemma ByteIs(b: byte)
    ensures 0 <= b as int < 256 && ByteOf(b as int) == b
  {
    var c := ByteOf(b as int);
    ByteOrder(b, c);
    ByteOrder(c, b);
  }

  lemma TailIs(b: byte, v: int)
    requires IsTail(b) && 0 <= v && v % 64 == Bits(b)
    ensures Tail(v) == b
  {
    ByteIs(b);
  }

  lemma Digits(hi: int, b: byte)
    requires IsTail(b)
    ensures (hi * 64 + Bits(b)) / 64 == hi && (hi * 64 + Bits(b)) % 64 == Bits(b)
  {
    assert 0 <= Bits(b) < 64;
  }

  lemma ScalarRange2(c: seq<byte>)
    requires IsChar(c) && |c| == 2
    ensures 2 <= LeadValue(c[0]) < 32 && c[0] as int == 0xC0 + LeadValue(c[0]) && IsTail(c[1])
  {
  }

  lemma ScalarRange3(c: seq<byte>)
    requires IsChar(c) && |c| == 3
    ensures c[0] as int == 0xE0 + LeadValue(c[0]) && IsTail(c[1]) && IsTail(c[2])
    ensures ScalarOf(c) > 0x7FF && ScalarOf(c) <= 0xFFFF && IsScalar(ScalarOf(c))
  {
  }

  lemma ScalarRange4(c: seq<byte>)
    requires IsChar(c) && |c| == 4
    ensures c[0] as int == 0xF0 + LeadValue(c[0]) && IsTail(c[1]) && IsTail(c[2]) && IsTail(c[3])
    ensures ScalarOf(c) > 0xFFFF && ScalarOf(c) <= 0x10FFFF
  {
    hide IsChar, LeadValue, Bits, IsTail;
    Lead4(c);
    InRange4(LeadValue(c[0]), Bits(c[1]), Bits(c[2]), Bits(c[3]));
  }

  lemma InRange4(lead: int, b1: int, b2: int, b3: int)
    requires 0 <= lead <= 4 && 0 <= b1 < 64 && 0 <= b2 < 64 && 0 <= b3 < 64
    requires (lead == 0 ==> b1 >= 0x10) && (lead == 4 ==> b1 < 0x10)
    ensures 0xFFFF < ((lead * 64 + b1) * 64 + b2) * 64 + b3 <= 0x10FFFF
  {
    var hi := lead * 64 + b1;
    assert 0x10 <= hi < 0x110;
    assert 0x400 <= hi * 64 + b2 < 0x4400;
  }

  lemma Lead4(c: seq<byte>)
    requires IsChar(c) && |c| == 4
    ensures c[0] as int == 0xF0 + LeadValue(c[0]) && IsTail(c[1]) && IsTail(c[2]) && IsTail(c[3])
    ensures 0 <= LeadValue(c[0]) <= 4 && 0 <= Bits(c[1]) < 64 && 0 <= Bits(c[2]) < 64 && 0 <= Bits(c[3]) < 64
    ensures LeadValue(c[0]) == 0 ==> Bits(c[1]) >= 0x10
    ensures LeadValue(c[0]) == 4 ==> Bits(c[1]) < 0x10
  {
  }

  lemma EncodeOfScalar1(c: seq<byte>)
    requires IsChar(c) && |c| == 1
    ensures IsScalar(ScalarOf(c)) && Encode(ScalarOf(c)) == c
  {
    ByteIs(c[0]);
  }

  lemma EncodeOfScalar2(c: seq<byte>)
    requires IsChar(c) && |c| == 2
    ensures IsScalar(ScalarOf(c)) && Encode(ScalarOf(c)) == c
  {
    hide IsChar, LeadValue, Bits, Tail, IsTail, ByteOf;
    ScalarRange2(c);
    var v := ScalarOf(c);
    Digits(LeadValue(c[0]), c[1]);
    ByteIs(c[0]);
    BitsBound(c[1]);
    TailIs(c[1], v);
    assert Encode(v) == [c[0], c[1]];
  }

  lemma BitsBound(b: byte)
    requires IsTail(b)
    ensures 0 <= Bits(b) < 64
  {
  }

  /** The digits of a scalar value to the base 64. */
  lemma Parts(lead: int, c: seq<byte>)
    requires c != [] && IsTail(c[0]) && (|c| >= 2 ==> IsTail(c[1])) && (|c| == 3 ==> IsTail(c[2])) && |c| <= 3
    ensures var h1 := lead * 64 + Bits(c[0]); h1 / 64 == lead && h1 % 64 == Bits(c[0])
    ensures |c| >= 2 ==> var h2 := (lead * 64 + Bits(c[0])) * 64 + Bits(c[1]);
      h2 / 64 == lead * 64 + Bits(c[0]) && h2 % 64 == Bits(c[1])
    ensures |c| == 3 ==> var h3 := ((lead * 64 + Bits(c[0])) * 64 + Bits(c[1])) * 64 + Bits(c[2]);
      h3 / 64 == (lead * 64 + Bits(c[0])) * 64 + Bits(c[1]) && h3 % 64 == Bits(c[2])
  {
    hide Bits, IsTail;
    Digits(lead, c[0]);
    if |c| >= 2 {
      Digits(lead * 64 + Bits(c[0]), c[1]);
    }
    if |c| == 3 {
      Digits((lead * 64 + Bits(c[0])) * 64 + Bits(c[1]), c[2]);
    }
  }

  lemma EncodeOfScalar3(c: seq<byte>)
    requires IsChar(c) && |c| == 3
    ensures IsScalar(ScalarOf(c)) && Encode(ScalarOf(c)) == c
  {
    hide IsChar, LeadValue, Bits, Tail, IsTail, IsScalar, ByteOf;
    ScalarRange3(c);
    var v := ScalarOf(c);
    Parts(LeadValue(c[0]), c[1..]);
    Quotients(v);
    ByteIs(c[0]);
    TailIs(c[1], v / 64);
    TailIs(c[2], v);
    assert Encode(v) == [c[0], c[1], c[2]];
  }

  lemma Parts4(c: seq<byte>)
    requires IsChar(c) && |c| == 4
    ensures var v := ScalarOf(c);
      && v / 262144 == LeadValue(c[0]) && v / 4096 % 64 == Bits(c[1])
      && v / 64 % 64 == Bits(c[2]) && v % 64 == Bits(c[3])
  {
    hide IsChar, LeadValue, Bits, IsTail;
    ScalarRange4(c);
    Parts(LeadValue(c[0]), c[1..]);
    Quotients(ScalarOf(c));
  }

  lemma EncodeOfScalar4(c: seq<byte>)
    requires IsChar(c) && |c| == 4
    ensures IsScalar(ScalarOf(c)) && Encode(ScalarOf(c)) == c
  {
    hide IsChar, LeadValue, Bits, Tail, IsTail, ByteOf, ScalarOf;
    ScalarRange4(c);
    Parts4(c);
    var v := ScalarOf(c);
    ByteIs(c[0]);
    TailIs(c[1], v / 4096);
    TailIs(c[2], v / 64);
    TailIs(c[3], v);
    assert Encode(v) == [c[0], c[1], c[2], c[3]];
  }

  /** A character reads as a scalar value, and is the octets of that value: no overlong forms. */
  lemma EncodeOfScalar(c: seq<byte>)
    requires IsChar(c)
    ensures IsScalar(ScalarOf(c)) && Encode(ScalarOf(c)) == c
  {
    hide IsChar, Encode, ScalarOf, IsScalar;
    CharHasLength(c);
    if |c| == 1 {
      EncodeOfScalar1(c);
    } else if |c| == 2 {
      EncodeOfScalar2(c);
    } else if |c| == 3 {
      EncodeOfScalar3(c);
    } else {
      EncodeOfScalar4(c);
    }
  }

  // ----- Whole texts -----

  ghost predicate AreScalars(text: seq<int>) {
    forall i :: 0 <= i < |text| ==> IsScalar(text[i])
  }

  function EncodeText(text: seq<int>): seq<byte>
    requires AreScalars(text)
  {
    if text == [] then [] else Encode(text[0]) + EncodeText(text[1..])
  }

  /** The encoding of any scalar values is accepted, and x takes exactly those values at each accept. */
  lemma {:induction false} TextIsDecoded(d: Decoder, text: seq<int>)
    requires d.state == ACCEPT && AreScalars(text)
    ensures Run(d, EncodeText(text)).state == ACCEPT && Outputs(d, EncodeText(text)) == text
    decreases |text|
  {
    hide Decode, IsChar, Encode, ScalarOf, IsScalar;
    if text != [] {
      var c, rest := Encode(text[0]), EncodeText(text[1..]);
      ScalarOfEncode(text[0]);
      assert (c + rest)[..|c|] == c && (c + rest)[|c|..] == rest;
      CharIsDecoded(d, c + rest, |c|);
      TextIsDecoded(Decoder(ACCEPT, text[0]), text[1..]);
      assert text == [text[0]] + text[1..];
    }
  }

  /** And every accepted input is the encoding of the values that x takes. */
  lemma {:induction false} AcceptedIsText(d: Decoder, s: seq<byte>)
    requires d.state == ACCEPT && Run(d, s).state == ACCEPT
    ensures AreScalars(Outputs(d, s)) && EncodeText(Outputs(d, s)) == s
    decreases |s|
  {
    hide Decode, IsChar, Encode, ScalarOf, IsScalar;
    if s != [] {
      var k := FirstChar(d, s);
      var v := ScalarOf(s[..k]);
      CharIsDecoded(d, s, k);
      AcceptedIsText(Decoder(ACCEPT, v), s[k..]);
      EncodeOfScalar(s[..k]);
      var later := Outputs(Decoder(ACCEPT, v), s[k..]);
      assert Outputs(d, s)[1..] == later;
      assert s == s[..k] + s[k..];
    }
  }
}
