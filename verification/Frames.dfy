/**
  * WebSocket frames (section 5.2 of RFC 6455), their bytes on the wire, and the
  * fragmentation rules (section 5.4) that turn a frame sequence into messages.
  */
module Frames {
  import opened Wrappers
  import opened Bytes
  import opened Masking

  const CONTINUATION_FRAME := 0
  const TEXT_MESSAGE := 1
  const BINARY_MESSAGE := 2
  const CLOSE_MESSAGE := 8
  const PING_MESSAGE := 9
  const PONG_MESSAGE := 10
  const NO_FRAME := -1

  const MAX_FRAME_HEADER_SIZE := 14
  const MAX_CONTROL_PAYLOAD := 125

  predicate IsControl(frameType: int) {
    frameType == CLOSE_MESSAGE || frameType == PING_MESSAGE || frameType == PONG_MESSAGE
  }

  predicate IsData(frameType: int) {
    frameType == TEXT_MESSAGE || frameType == BINARY_MESSAGE
  }

  /** The three ways to write a payload length: in 7 bits, or in 16 or 64 more. */
  datatype LengthForm = Short | Medium | Long

  /**
    * A frame as it may appear on the wire. The payload is the unmasked one. The
    * writer only produces frames with reserved == 0 and the minimal length form; a
    * peer may produce any.
    */
  datatype Frame = Frame(fin: bool, reserved: int, opcode: int, key: Option<Key>, form: LengthForm, payload: seq<byte>)
  {
    /** The frame has a wire form: each field fits the bits that carry it. */
    predicate Encodable() {
      && 0 <= reserved < 8
      && 0 <= opcode < 16
      && match form
         case Short => |payload| <= 125
         case Medium => |payload| < 0x1_0000
         case Long => |payload| < 0x8000_0000_0000_0000
    }

    /** What section 5.2 of RFC 6455 asks of a frame sent by this role. */
    predicate SentBy(isServer: bool) {
      && Encodable()
      && reserved == 0
      && (key.Some? <==> !isServer)
      && form == MinimalForm(|payload|)
    }
  }

  function MinimalForm(length: nat): LengthForm {
    if length <= 125 then Short else if length < 0x1_0000 then Medium else Long
  }

  const FINAL_BIT: byte := 0x80
  const MASK_BIT: byte := 0x80

  function FirstByte(f: Frame): byte
    requires f.Encodable()
  {
    (if f.fin then FINAL_BIT else 0) | (ByteOf(f.reserved) << 4) | ByteOf(f.opcode)
  }

  function SecondByte(f: Frame): byte
    requires f.Encodable()
  {
    (if f.key.Some? then MASK_BIT else 0)
    | (match f.form case Short => ByteOf(|f.payload|) case Medium => 126 case Long => 127)
  }

  function LengthBytes(f: Frame): seq<byte>
    requires f.Encodable()
  {
    match f.form
    case Short => []
    case Medium => BigEndian(2, |f.payload|)
    case Long => BigEndian(8, |f.payload|)
  }

  function KeyBytes(f: Frame): seq<byte> {
    if f.key.Some? then f.key.value else []
  }

  function WirePayload(f: Frame): (s: seq<byte>)
    ensures |s| == |f.payload|
  {
    if f.key.Some? then Masked(f.key.value, 0, f.payload) else f.payload
  }

  function HeaderBytes(f: Frame): seq<byte>
    requires f.Encodable()
  {
    [FirstByte(f), SecondByte(f)] + LengthBytes(f) + KeyBytes(f)
  }

  function Encode(f: Frame): seq<byte>
    requires f.Encodable()
  {
    HeaderBytes(f) + WirePayload(f)
  }

  ghost predicate AllEncodable(fs: seq<Frame>) {
    forall i :: 0 <= i < |fs| ==> fs[i].Encodable()
  }

  function EncodeAll(fs: seq<Frame>): seq<byte>
    requires AllEncodable(fs)
  {
    if fs == [] then [] else Encode(fs[0]) + EncodeAll(fs[1..])
  }

  lemma {:induction false} EncodeAllAppend(fs: seq<Frame>, f: Frame)
    requires AllEncodable(fs) && f.Encodable()
    ensures AllEncodable(fs + [f])
    ensures EncodeAll(fs + [f]) == EncodeAll(fs) + Encode(f)
  {
    hide Encode, Frame.Encodable;
    if fs == [] {
      assert fs + [f] == [f] && [f][1..] == [];
    } else {
      var head, tail, last := Encode(fs[0]), fs[1..], Encode(f);
      assert (fs + [f])[1..] == tail + [f];
      EncodeAllAppend(tail, f);
      assert EncodeAll(fs) == head + EncodeAll(tail);
      assert EncodeAll(fs + [f]) == head + EncodeAll(tail + [f]);
    }
  }

  // ----- Fragmentation -----

  /** A message: a data message that may have come in fragments, or a control message. */
  datatype Message = Message(opcode: int, payload: seq<byte>)

  /** The messages completed so far, in order of completion, and the fragmented one still open. */
  datatype Assembly = Assembly(done: seq<Message>, open: Option<Message>)

  const EMPTY_ASSEMBLY := Assembly([], None)

  /** A control frame is whole, and its length is in the second byte. */
  predicate GoodControl(f: Frame) {
    IsControl(f.opcode) && f.fin && f.form.Short?
  }

  /** Section 5.4: what one more frame does, or None where the frame may not come. */
  function Accept(a: Assembly, f: Frame): Option<Assembly> {
    if IsControl(f.opcode) then
      if GoodControl(f) then Some(a.(done := a.done + [Message(f.opcode, f.payload)])) else None
    else if IsData(f.opcode) && a.open.None? then
      Some(Grow(a, Message(f.opcode, f.payload), f.fin))
    else if f.opcode == CONTINUATION_FRAME && a.open.Some? then
      Some(Grow(a, Extended(a.open.value, f.payload), f.fin))
    else
      None
  }

  function Extended(m: Message, more: seq<byte>): Message {
    m.(payload := m.payload + more)
  }

  function Grow(a: Assembly, m: Message, fin: bool): Assembly {
    if fin then Assembly(a.done + [m], None) else a.(open := Some(m))
  }

  function Assemble(a: Assembly, fs: seq<Frame>): Option<Assembly>
    decreases |fs|
  {
    if fs == [] then Some(a)
    else match Accept(a, fs[0])
         case None => None
         case Some(b) => Assemble(b, fs[1..])
  }

  lemma {:induction false} AssembleAppend(a: Assembly, fs: seq<Frame>, f: Frame)
    ensures Assemble(a, fs + [f])
         == match Assemble(a, fs) case None => None case Some(b) => Accept(b, f)
    decreases |fs|
  {
    if fs == [] {
      assert [f][1..] == [];
      assert fs + [f] == [f];
    } else {
      assert (fs + [f])[1..] == fs[1..] + [f];
      match Accept(a, fs[0])
      case None =>
      case Some(b) => AssembleAppend(b, fs[1..], f);
    }
  }

  /** The data messages of a list, in order. */
  function DataMessages(ms: seq<Message>): (r: seq<Message>)
  {
    if ms == [] then []
    else DataMessages(ms[..|ms| - 1]) + (if IsControl(ms[|ms| - 1].opcode) then [] else [ms[|ms| - 1]])
  }

  lemma DataMessagesAppend(ms: seq<Message>, m: Message)
    ensures DataMessages(ms + [m]) == DataMessages(ms) + if IsControl(m.opcode) then [] else [m]
  {
    assert (ms + [m])[..|ms|] == ms;
  }

  // ----- The fragmentation grammar of section 5.4, by positions -----

  /** The place of the last frame before i that is not a control frame, or -1. */
  function PreviousData(fs: seq<Frame>, i: nat): (p: int)
    requires i <= |fs|
    ensures -1 <= p < i
    ensures p >= 0 ==> !IsControl(fs[p].opcode)
    ensures forall j :: p < j < i ==> IsControl(fs[j].opcode)
  {
    if i == 0 then -1
    else if !IsControl(fs[i - 1].opcode) then i - 1
    else PreviousData(fs, i - 1)
  }

  /** The frame at i may stand after the frames before it. */
  predicate LegalAt(fs: seq<Frame>, i: nat)
    requires i < |fs|
  {
    var p := PreviousData(fs, i);
    if IsControl(fs[i].opcode) then GoodControl(fs[i])
    else if IsData(fs[i].opcode) then p == -1 || fs[p].fin
    else fs[i].opcode == CONTINUATION_FRAME && p != -1 && !fs[p].fin
  }

  ghost predicate Legal(fs: seq<Frame>) {
    forall i :: 0 <= i < |fs| ==> LegalAt(fs, i)
  }

  /** A message is open exactly when the last data frame was not a final one. */
  predicate EndsOpen(fs: seq<Frame>) {
    var p := PreviousData(fs, |fs|);
    p != -1 && !fs[p].fin
  }

  lemma {:induction false} PreviousDataOfPrefix(fs: seq<Frame>, gs: seq<Frame>, i: nat)
    requires i <= |fs|
    ensures PreviousData(fs + gs, i) == PreviousData(fs, i)
  {
    if i > 0 {
      PreviousDataOfPrefix(fs, gs, i - 1);
    }
  }

  lemma LegalAppend(fs: seq<Frame>, f: Frame)
    ensures Legal(fs + [f]) <==> Legal(fs) && LegalAt(fs + [f], |fs|)
  {
    forall i | 0 <= i < |fs|
      ensures LegalAt(fs + [f], i) == LegalAt(fs, i)
    {
      PreviousDataOfPrefix(fs, [f], i);
    }
    if Legal(fs + [f]) {
      forall i | 0 <= i < |fs|
        ensures LegalAt(fs, i)
      {
        assert LegalAt(fs + [f], i);
      }
    }
  }

  /**
    * The assembly automaton accepts exactly the frame sequences that the positional
    * rules of section 5.4 allow, and has a message open exactly when they leave one open.
    */
  lemma {:induction false} AssemblyIsTheGrammar(fs: seq<Frame>)
    ensures Assemble(EMPTY_ASSEMBLY, fs).Some? <==> Legal(fs)
    ensures Legal(fs) ==> (Assemble(EMPTY_ASSEMBLY, fs).value.open.Some? <==> EndsOpen(fs))
  {
    if fs != [] {
      var n := |fs| - 1;
      var gs, f := fs[..n], fs[n];
      assert fs == gs + [f];
      AssemblyIsTheGrammar(gs);
      AssembleAppend(EMPTY_ASSEMBLY, gs, f);
      LegalAppend(gs, f);
      PreviousDataOfPrefix(gs, [f], n);
    }
  }
}
