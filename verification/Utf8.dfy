/**
  * The table-driven UTF-8 decoder of the Autobahn test server, against section 3 and 4 of
  * RFC 3629.
  */
module Utf8 {
  import opened Bytes

  // ----- The table -----

  function Row(i: nat): (r: seq<nat>)
    ensures |r| == 16
  {
    match i
    case 0x8 => seq(16, _ => 1)
    case 0x9 => seq(16, _ => 9)
    case 0xa => seq(16, _ => 7)
    case 0xb => seq(16, _ => 7)
    case 0xc => [8, 8, 2, 2, 2, 2, 2, 2, 2, 2, 2, 2, 2, 2, 2, 2]
    case 0xd => seq(16, _ => 2)
    case 0xe => [0xa, 0x3, 0x3, 0x3, 0x3, 0x3, 0x3, 0x3, 0x3, 0x3, 0x3, 0x3, 0x3, 0x4, 0x3, 0x3]
    case 0xf => [0xb, 0x6, 0x6, 0x6, 0x5, 0x8, 0x8, 0x8, 0x8, 0x8, 0x8, 0x8, 0x8, 0x8, 0x8, 0x8]
    case 16 => [0x0, 0x1, 0x2, 0x3, 0x5, 0x8, 0x7, 0x1, 0x1, 0x1, 0x4, 0x6, 0x1, 0x1, 0x1, 0x1]
    case 17 => [1, 1, 1, 1, 1, 1, 1, 1, 1, 1, 1, 1, 1, 1, 1, 1]
    case 18 => [1, 0, 1, 1, 1, 1, 1, 0, 1, 0, 1, 1, 1, 1, 1, 1]
    case 19 => [1, 2, 1, 1, 1, 1, 1, 2, 1, 2, 1, 1, 1, 1, 1, 1]
    case 20 => [1, 1, 1, 1, 1, 1, 1, 2, 1, 1, 1, 1, 1, 1, 1, 1]
    case 21 => [1, 2, 1, 1, 1, 1, 1, 1, 1, 2, 1, 1, 1, 1, 1, 1]
    case 22 => [1, 1, 1, 1, 1, 1, 1, 3, 1, 3, 1, 1, 1, 1, 1, 1]
    case 23 => [1, 3, 1, 1, 1, 1, 1, 3, 1, 3, 1, 1, 1, 1, 1, 1]
    case 24 => [1, 3, 1, 1, 1, 1, 1, 1, 1, 1, 1, 1, 1, 1, 1, 1]
    case _ => seq(16, _ => 0)
  }

  /** utf8d, sixteen entries to a row. */
  function Utf8d(i: nat): nat
    requires i < 400
  {
    Row(i / 16)[i % 16]
  }

  const ACCEPT: nat := 0
  const REJECT: nat := 1

  type State = s: nat | s <= 8

  /** The character class of a byte, in closed form. */
  function ClassOf(b: byte): (t: nat)
    ensures t <= 11
    ensures t == Utf8d(b as int)
  {
    var v := b as int;
    ClassTable(v);
    Class(v)
  }

  function Class(v: nat): nat
    requires v < 256
  {
    if v < 0x80 then 0
    else if v < 0x90 then 1
    else if v < 0xa0 then 9
    else if v < 0xc0 then 7
    else if v < 0xc2 then 8
    else if v < 0xe0 then 2
    else if v == 0xe0 then 10
    else if v == 0xed then 4
    else if v < 0xf0 then 3
    else if v == 0xf0 then 11
    else if v < 0xf4 then 6
    else if v == 0xf4 then 5
    else 8
  }

  lemma ClassTable(v: nat)
    requires v < 256
    ensures Utf8d(v) == Class(v)
  {
    var i, j := v / 16, v % 16;
    if i == 0xc {
      LookupC(j);
    } else if i == 0xe {
      LookupE(j);
    } else if i == 0xf {
      LookupF(j);
    }
  }

  lemma LookupC(j: nat)
    requires j < 16
    ensures Row(0xc)[j] == if j < 2 then 8 else 2
  {
  }

  lemma LookupE(j: nat)
    requires j < 16
    ensures Row(0xe)[j] == if j == 0 then 10 else if j == 13 then 4 else 3
  {
  }

  lemma LookupF(j: nat)
    requires j < 16
    ensures Row(0xf)[j] == if j == 0 then 11 else if j < 4 then 6 else if j == 4 then 5 else 8
  {
  }

  /** The next state, from the last nine rows of the table. */
  function Next(state: State, t: nat): (r: State)
    requires t <= 11
    ensures r == Utf8d(256 + state * 16 + t)
  {
    NextTable(state, t);
    Utf8d(256 + state * 16 + t)
  }

  /** The states by what they still wait for. */
  function NextOf(state: State, t: nat): State {
    match state
    case 0 =>
      (match t
       case 0 => 0 case 2 => 2 case 3 => 3 case 4 => 5 case 5 => 8 case 6 => 7 case 10 => 4 case 11 => 6
       case _ => 1)
    case 1 => 1
    case 2 => if t == 1 || t == 7 || t == 9 then 0 else 1
    case 3 => if t == 1 || t == 7 || t == 9 then 2 else 1
    case 4 => if t == 7 then 2 else 1
    case 5 => if t == 1 || t == 9 then 2 else 1
    case 6 => if t == 7 || t == 9 then 3 else 1
    case 7 => if t == 1 || t == 7 || t == 9 then 3 else 1
    case _ => if t == 1 then 3 else 1
  }

  lemma NextTable(state: State, t: nat)
    requires t <= 11
    ensures Utf8d(256 + state * 16 + t) == NextOf(state, t)
  {
    hide Row, NextOf;
    assert (256 + state * 16 + t) / 16 == 16 + state && (256 + state * 16 + t) % 16 == t;
    if state == 0 {
      NextRow0(t);
    } else if state <= 4 {
      NextRowLow(state, t);
    } else {
      NextRowHigh(state, t);
    }
  }

  lemma NextRow0(t: nat)
    requires t <= 11
    ensures Row(16)[t] == NextOf(0, t)
  {
  }

  lemma NextRowLow(state: State, t: nat)
    requires 1 <= state <= 4 && t <= 11
    ensures Row(16 + state)[t] == NextOf(state, t)
  {
  }

  lemma NextRowHigh(state: State, t: nat)
    requires 5 <= state && t <= 11
    ensures Row(16 + state)[t] == NextOf(state, t)
  {
  }

  // ----- decode -----

  /** Go's rune(0xff >> t & b): a shift by eight or more leaves nothing. */
  function LeadBits(t: nat, b: byte): int {
    if t >= 8 then 0 else (((0xff as byte) >> t) & b) as int
  }

  /** Go's x << 6 on an int32. */
  function Shift6(x: int): int {
    (x * 64 + 0x8000_0000) % 0x1_0000_0000 - 0x8000_0000
  }

  datatype Decoder = Decoder(state: State, x: int)

  const START := Decoder(0, 0)

  /** The low six bits of x << 6 are zero, so that or-ing six bits in is adding them. */
  function Decode(d: Decoder, b: byte): Decoder {
    var t := ClassOf(b);
    var x := if d.state != ACCEPT then (b & 0x3f) as int + Shift6(d.x) else LeadBits(t, b);
    Decoder(Next(d.state, t), x)
  }

  function Run(d: Decoder, s: seq<byte>): Decoder
    decreases |s|
  {
    if s == [] then d else Run(Decode(d, s[0]), s[1..])
  }

  /** The values of x each time the decoder is back in the accepting state. */
  function Outputs(d: Decoder, s: seq<byte>): seq<int>
    decreases |s|
  {
    if s == [] then []
    else
      var e := Decode(d, s[0]);
      (if e.state == ACCEPT then [e.x] else []) + Outputs(e, s[1..])
  }

  // ----- RFC 3629 -----

  /** A Unicode scalar value: a code point that is not a surrogate. */
  predicate IsScalar(v: int) {
    0 <= v <= 0x10FFFF && !(0xD800 <= v <= 0xDFFF)
  }

  /** Section 3 of RFC 3629: the octets of a scalar value. */
  function Encode(v: int): (s: seq<byte>)
    requires IsScalar(v)
  {
    if v <= 0x7F then [ByteOf(v)]
    else if v <= 0x7FF then [ByteOf(0xC0 + v / 64), Tail(v)]
    else if v <= 0xFFFF then [ByteOf(0xE0 + v / 4096), Tail(v / 64), Tail(v)]
    else [ByteOf(0xF0 + v / 262144), Tail(v / 4096), Tail(v / 64), Tail(v)]
  }

  /** A continuation octet with the low six bits of v. */
  function Tail(v: int): byte
    requires 0 <= v
  {
    ByteOf(0x80 + v % 64)
  }

  predicate InRange(b: byte, lo: int, hi: int) {
    lo <= b as int <= hi
  }

  predicate IsTail(b: byte) {
    InRange(b, 0x80, 0xBF)
  }

  /** Section 4 of RFC 3629: UTF8-1 / UTF8-2 / UTF8-3 / UTF8-4. */
  predicate IsChar(c: seq<byte>) {
    match |c|
    case 1 => InRange(c[0], 0x00, 0x7F)
    case 2 => InRange(c[0], 0xC2, 0xDF) && IsTail(c[1])
    case 3 =>
      || (InRange(c[0], 0xE0, 0xE0) && InRange(c[1], 0xA0, 0xBF) && IsTail(c[2]))
      || (InRange(c[0], 0xE1, 0xEC) && IsTail(c[1]) && IsTail(c[2]))
      || (InRange(c[0], 0xED, 0xED) && InRange(c[1], 0x80, 0x9F) && IsTail(c[2]))
      || (InRange(c[0], 0xEE, 0xEF) && IsTail(c[1]) && IsTail(c[2]))
    case 4 =>
      || (InRange(c[0], 0xF0, 0xF0) && InRange(c[1], 0x90, 0xBF) && IsTail(c[2]) && IsTail(c[3]))
      || (InRange(c[0], 0xF1, 0xF3) && IsTail(c[1]) && IsTail(c[2]) && IsTail(c[3]))
      || (InRange(c[0], 0xF4, 0xF4) && InRange(c[1], 0x80, 0x8F) && IsTail(c[2]) && IsTail(c[3]))
    case _ => false
  }

  /** UTF8-octets: any number of characters. */
  ghost predicate IsOctets(s: seq<byte>)
    decreases |s|
  {
    s == [] || exists k :: 1 <= k <= |s| && IsChar(s[..k]) && IsOctets(s[k..])
  }

  // ----- The decoder on one byte -----

  lemma Low6Bits(b: byte)
    ensures (b & 0x3f) as int == b as int % 64
  {
  }

  lemma Low5Bits(b: byte)
    ensures (b & 0x1f) as int == b as int % 32
  {
  }

  lemma Low4Bits(b: byte)
    ensures (b & 0x0f) as int == b as int % 16
  {
  }

  lemma Low3Bits(b: byte)
    ensures (b & 0x07) as int == b as int % 8
  {
  }

  lemma Low2Bits(b: byte)
    ensures (b & 0x03) as int == b as int % 4
  {
  }

  lemma LeadBitsOf(b: byte)
    ensures var v := b as int;
      LeadBits(Class(v), b) == if v < 0x80 then v
        else if 0xC2 <= v < 0xE0 then v - 0xC0
        else if 0xE0 <= v < 0xF0 then v - 0xE0
        else if 0xF0 <= v <= 0xF4 then v - 0xF0
        else LeadBits(Class(v), b)
  {
    var v := b as int;
    var t := Class(v);
    if t == 0 {
      assert (0xff as byte) >> 0 == 0xff;
    } else if t == 2 {
      Low6Bits(b);
      assert (0xff as byte) >> 2 == 0x3f;
    } else if t == 3 {
      Low5Bits(b);
      assert (0xff as byte) >> 3 == 0x1f;
    } else if t == 4 {
      Low4Bits(b);
      assert (0xff as byte) >> 4 == 0x0f;
    } else if t == 5 {
      Low3Bits(b);
      assert (0xff as byte) >> 5 == 0x07;
    } else if t == 6 {
      Low2Bits(b);
      assert (0xff as byte) >> 6 == 0x03;
    }
  }

  /** The continuation octets that a waiting state takes. */
  predicate Takes(state: State, b: byte) {
    match state
    case 4 => InRange(b, 0xA0, 0xBF)
    case 5 => InRange(b, 0x80, 0x9F)
    case 6 => InRange(b, 0x90, 0xBF)
    case 8 => InRange(b, 0x80, 0x8F)
    case _ => IsTail(b)
  }

  /** And the state after it. */
  function After(state: State): State {
    if state == 2 then 0 else if state <= 5 then 2 else 3
  }

  lemma NextIsTable(state: State, b: byte)
    ensures Next(state, ClassOf(b)) == NextOf(state, Class(b as int))
  {
    hide Utf8d;
    ClassTable(b as int);
    NextTable(state, ClassOf(b));
  }

  /** In a waiting state, an octet is taken or the input is rejected. */
  lemma Continue(d: Decoder, b: byte)
    requires d.state >= 2
    ensures Decode(d, b).state == if Takes(d.state, b) then After(d.state) else REJECT
    ensures Takes(d.state, b) && 0 <= d.x < 0x10000 ==> Decode(d, b).x == d.x * 64 + (b as int - 0x80)
  {
    hide Utf8d, Class;
    NextIsTable(d.state, b);
    TailClass(b as int);
    Low6Bits(b);
  }

  lemma TailClass(v: nat)
    requires v < 256
    ensures Class(v) == 1 <==> 0x80 <= v < 0x90
    ensures Class(v) == 9 <==> 0x90 <= v < 0xa0
    ensures Class(v) == 7 <==> 0xa0 <= v < 0xc0
  {
  }

  /** The state that a first octet leads to. */
  function LeadState(b: byte): State {
    var v := b as int;
    if v < 0x80 then 0
    else if v < 0xC2 then 1
    else if v < 0xE0 then 2
    else if v == 0xE0 then 4
    else if v == 0xED then 5
    else if v < 0xF0 then 3
    else if v == 0xF0 then 6
    else if v < 0xF4 then 7
    else if v == 0xF4 then 8
    else 1
  }

  function LeadValue(b: byte): int {
    var v := b as int;
    if v < 0x80 then v else if v < 0xE0 then v - 0xC0 else if v < 0xF0 then v - 0xE0 else v - 0xF0
  }

  lemma LeadClass(b: byte)
    ensures NextOf(ACCEPT, Class(b as int)) == LeadState(b)
  {
  }

  lemma LeadBitsAreValue(b: byte)
    ensures LeadState(b) != REJECT ==> LeadBits(Class(b as int), b) == LeadValue(b)
  {
    hide LeadBits, Class;
    LeadBitsOf(b);
  }

  lemma First(d: Decoder, b: byte)
    requires d.state == ACCEPT
    ensures Decode(d, b).state == LeadState(b)
    ensures LeadState(b) != REJECT ==> Decode(d, b).x == LeadValue(b)
  {
    hide Utf8d, Class, NextOf, LeadState, LeadValue, LeadBits;
    NextIsTable(d.state, b);
    ClassTable(b as int);
    LeadClass(b);
    LeadBitsAreValue(b);
  }

  lemma {:induction false} RejectStays(d: Decoder, s: seq<byte>)
    requires d.state == REJECT
    ensures Run(d, s).state == REJECT
    decreases |s|
  {
    if s != [] {
      hide Utf8d;
      NextIsTable(d.state, s[0]);
      RejectStays(Decode(d, s[0]), s[1..]);
    }
  }

  // ----- The decoder on one character -----

  function Bits(b: byte): int { b as int - 0x80 }

  /** The number that the octets of a character stand for. */
  function ScalarOf(c: seq<byte>): int
    requires IsChar(c)
  {
    match |c|
    case 1 => LeadValue(c[0])
    case 2 => LeadValue(c[0]) * 64 + Bits(c[1])
    case 3 => (LeadValue(c[0]) * 64 + Bits(c[1])) * 64 + Bits(c[2])
    case _ => ((LeadValue(c[0]) * 64 + Bits(c[1])) * 64 + Bits(c[2])) * 64 + Bits(c[3])
  }

  /** Run and Outputs over s, from d, are those over t, from e, after the outputs out. */
  ghost predicate Leads(d: Decoder, s: seq<byte>, out: seq<int>, e: Decoder, t: seq<byte>) {
    Run(d, s) == Run(e, t) && Outputs(d, s) == out + Outputs(e, t)
  }

  lemma LeadsOn(d: Decoder, s: seq<byte>)
    requires s != []
    ensures var e := Decode(d, s[0]); Leads(d, s, if e.state == ACCEPT then [e.x] else [], e, s[1..])
  {
    hide Decode;
  }

  lemma LeadsTwice(d: Decoder, s: seq<byte>, e: Decoder, t: seq<byte>, out: seq<int>, f: Decoder, u: seq<byte>)
    requires Leads(d, s, [], e, t) && Leads(e, t, out, f, u)
    ensures Leads(d, s, out, f, u)
  {
    hide Run, Outputs;
    assert [] + (out + Outputs(f, u)) == out + Outputs(f, u);
  }

  /** The octets that complete a character. */
  predicate Completes(state: State, c: seq<byte>)
    decreases |c|
  {
    if state == ACCEPT then c == []
    else state != REJECT && c != [] && Takes(state, c[0]) && Completes(After(state), c[1..])
  }

  function Accumulated(x: int, c: seq<byte>): int
    decreases |c|
  {
    if c == [] then x else Accumulated(x * 64 + Bits(c[0]), c[1..])
  }

  /** How many octets a state still waits for. */
  function Waits(state: State): nat {
    if state <= 1 then 0 else if state == 2 then 1 else if state <= 5 then 2 else 3
  }

  function Limit(state: State): int {
    if state == 2 then 0x10000 else if state <= 5 then 0x400 else 0x10
  }

  lemma {:induction false} CompletionIsDecoded(d: Decoder, s: seq<byte>, k: nat)
    requires d.state >= 2 && k <= |s| && Completes(d.state, s[..k]) && 0 <= d.x < Limit(d.state)
    ensures var e := Decoder(ACCEPT, Accumulated(d.x, s[..k])); Leads(d, s, [e.x], e, s[k..])
    decreases k
  {
    hide Decode, Run, Outputs, Takes;
    assert s[..k][0] == s[0] && s[..k][1..] == s[1..][..k - 1];
    Continue(d, s[0]);
    LeadsOn(d, s);
    var e := Decode(d, s[0]);
    assert s[1..][k - 1..] == s[k..];
    if e.state == ACCEPT {
      assert s[1..][..k - 1] == [];
    } else {
      TakenBound(d.state, d.x, s[0]);
      CompletionIsDecoded(e, s[1..], k - 1);
      var f := Decoder(ACCEPT, Accumulated(d.x, s[..k]));
      LeadsTwice(d, s, e, s[1..], [f.x], f, s[k..]);
    }
  }

  lemma TakenBound(state: State, x: int, b: byte)
    requires state >= 2 && 0 <= x < Limit(state) && Takes(state, b)
    ensures After(state) != ACCEPT ==> 0 <= x * 64 + Bits(b) < Limit(After(state))
  {
  }

  /** Only a completion of the character leads back to the accepting state. */
  lemma {:induction false} AcceptedIsCompleted(d: Decoder, s: seq<byte>) returns (k: nat)
    requires d.state >= 2 && Run(d, s).state == ACCEPT
    ensures k <= |s| && Completes(d.state, s[..k])
    decreases Waits(d.state)
  {
    hide Decode, Takes;
    assert s != [];
    Continue(d, s[0]);
    var e := Decode(d, s[0]);
    if e.state == REJECT {
      RejectStays(e, s[1..]);
      assert false;
    } else if e.state == ACCEPT {
      k := 1;
      assert s[..1][1..] == [];
    } else {
      var j := AcceptedIsCompleted(e, s[1..]);
      k := j + 1;
      assert s[..k][1..] == s[1..][..j] && s[..k][0] == s[0];
    }
  }

  /** A character is a first octet and a completion of the state it leads to. */
  lemma CharIsLeadAndCompletion(c: seq<byte>)
    requires c != []
    ensures IsChar(c) <==> LeadState(c[0]) != REJECT && Completes(LeadState(c[0]), c[1..])
  {
    hide Accumulated;
    Completion1(c[1..]);
    var state := LeadState(c[0]);
    if 3 <= state <= 5 {
      Completion2(state, c[1..]);
    } else if 6 <= state {
      Completion3(state, c[1..]);
    }
  }

  lemma Completion1(c: seq<byte>)
    ensures Completes(2, c) <==> |c| == 1 && IsTail(c[0])
  {
    if |c| >= 1 {
      assert c[1..] == [] <==> |c| == 1;
    }
  }

  lemma Completion2(state: State, c: seq<byte>)
    requires 3 <= state <= 5
    ensures Completes(state, c) <==> |c| == 2 && Takes(state, c[0]) && IsTail(c[1])
  {
    if |c| >= 1 {
      Completion1(c[1..]);
    }
  }

  lemma Completion3(state: State, c: seq<byte>)
    requires 6 <= state <= 8
    ensures Completes(state, c) <==> |c| == 3 && Takes(state, c[0]) && IsTail(c[1]) && IsTail(c[2])
  {
    if |c| >= 1 {
      Completion2(3, c[1..]);
    }
  }
}
