/**
  * What advanceFrame makes of the bytes ahead of it (conn.go): the frame header,
  * and one whole step of the reader.
  */
module FrameParser {
  import opened Wrappers
  import opened Bytes
  import opened Masking
  import opened Frames

  datatype Violation =
    | ReservedBits
    | ControlTooLong
    | ControlNotFinal
    | MessageStartInsideMessage
    | ContinuationOutsideMessage
    | UnknownOpcode
    | WrongMaskFlag

  /** Everything that can end up in readErr. */
  datatype ReadError =
    | EOF
    | UnexpectedEOF
    | Transport
    | Protocol(violation: Violation)
    | ReadLimit
    | Closed(code: int)

  /** How the transport can end: a clean end of stream, or a failure. */
  type Fault = e: ReadError | e.EOF? || e.Transport? witness EOF

  /** readFull never lets a plain EOF out. */
  function FullReadError(e: ReadError): ReadError {
    if e == EOF then UnexpectedEOF else e
  }

  datatype Header = Header(fin: bool, frameType: int, key: Option<Key>, length: int, size: nat)

  datatype HeaderResult = GoodHeader(header: Header) | BadHeader(error: ReadError)

  // The fields of the first two header bytes.

  predicate FinalOf(b0: byte) { b0 & FINAL_BIT != 0 }

  function ReservedOf(b0: byte): int { ((b0 >> 4) & 0x7) as int }

  function OpcodeOf(b0: byte): int { (b0 & 0xf) as int }

  predicate MaskedOf(b1: byte) { b1 & MASK_BIT != 0 }

  function LengthCodeOf(b1: byte): int { (b1 & 0x7f) as int }

  /** The tests on the first two bytes: advanceFrame, step 2. */
  function CheckStart(b0: byte, b1: byte, final: bool): Option<Violation> {
    var frameType := OpcodeOf(b0);
    if ReservedOf(b0) != 0 then Some(ReservedBits)
    else if IsControl(frameType) then
      if LengthCodeOf(b1) > MAX_CONTROL_PAYLOAD then Some(ControlTooLong)
      else if !FinalOf(b0) then Some(ControlNotFinal)
      else None
    else if IsData(frameType) then
      if !final then Some(MessageStartInsideMessage) else None
    else if frameType == CONTINUATION_FRAME then
      if final then Some(ContinuationOutsideMessage) else None
    else Some(UnknownOpcode)
  }

  /** How many bytes the 7-bit length code says follow it. */
  function ExtraLengthBytes(code: int): nat {
    if code == 126 then 2 else if code == 127 then 8 else 0
  }

  /** The payload length, with the wrap of int64(Uint64(...)). */
  function PayloadLength(code: int, more: seq<byte>): int {
    if code == 126 || code == 127 then Int64(FromBigEndian(more)) else code
  }

  /** What a header that passed the tests can be, between messages and inside one. */
  predicate Expected(h: Header, final: bool) {
    if IsControl(h.frameType) then 0 <= h.length <= MAX_CONTROL_PAYLOAD
    else if final then IsData(h.frameType)
    else h.frameType == CONTINUATION_FRAME
  }

  /** Steps 2 to 4 of advanceFrame on the bytes s; fault is what the transport reports at its end. */
  function ParseHeader(s: seq<byte>, isServer: bool, final: bool, fault: Fault): (r: HeaderResult)
    ensures r.GoodHeader? ==> 2 <= r.header.size <= |s| && Expected(r.header, final)
  {
    if |s| < 2 then BadHeader(FullReadError(fault))
    else
      var violation := CheckStart(s[0], s[1], final);
      if violation.Some? then BadHeader(Protocol(violation.value))
      else
        var code := LengthCodeOf(s[1]);
        var lengthEnd := 2 + ExtraLengthBytes(code);
        if |s| < lengthEnd then BadHeader(FullReadError(fault))
        else
          var length := PayloadLength(code, s[2..lengthEnd]);
          var masked := MaskedOf(s[1]);
          if masked != isServer then BadHeader(Protocol(WrongMaskFlag))
          else if !masked then
            GoodHeader(Header(FinalOf(s[0]), OpcodeOf(s[0]), None, length, lengthEnd))
          else if |s| < lengthEnd + 4 then BadHeader(FullReadError(fault))
          else
            GoodHeader(Header(FinalOf(s[0]), OpcodeOf(s[0]), Some(s[lengthEnd..lengthEnd + 4]), length, lengthEnd + 4))
  }

  // ----- Header round trip -----

  lemma ByteOfRange(n: int, top: byte)
    requires 0 <= n <= top as int < 256
    ensures ByteOf(n) <= top
  {
    ByteOrder(ByteOf(n), top);
  }

  lemma FirstByteBits(fin: bool, reserved: byte, opcode: byte)
    requires reserved <= 7 && opcode <= 15
    ensures var b := (if fin then FINAL_BIT else 0) | (reserved << 4) | opcode;
      b & 0xf == opcode && (b >> 4) & 0x7 == reserved && (b & FINAL_BIT != 0 <==> fin)
  {
  }

  lemma SecondByteBits(masked: bool, code: byte)
    requires code <= 127
    ensures var b := (if masked then MASK_BIT else 0) | code;
      b & 0x7f == code && (b & MASK_BIT != 0 <==> masked)
  {
  }

  function LengthCode(f: Frame): int
    requires f.Encodable()
  {
    match f.form case Short => |f.payload| case Medium => 126 case Long => 127
  }

  lemma SecondByteCode(f: Frame)
    requires f.Encodable()
    ensures 0 <= LengthCode(f) <= 127
    ensures SecondByte(f) == (if f.key.Some? then MASK_BIT else 0) | ByteOf(LengthCode(f))
  {
    match f.form
    case Short =>
    case Medium => assert ByteOf(126) == 126;
    case Long => assert ByteOf(127) == 127;
  }

  lemma FirstByteFields(f: Frame)
    requires f.Encodable()
    ensures OpcodeOf(FirstByte(f)) == f.opcode
    ensures ReservedOf(FirstByte(f)) == f.reserved
    ensures FinalOf(FirstByte(f)) == f.fin
  {
    ByteOfRange(f.opcode, 15);
    ByteOfRange(f.reserved, 7);
    FirstByteBits(f.fin, ByteOf(f.reserved), ByteOf(f.opcode));
  }

  lemma SecondByteFields(f: Frame)
    requires f.Encodable()
    ensures LengthCodeOf(SecondByte(f)) == LengthCode(f)
    ensures MaskedOf(SecondByte(f)) == f.key.Some?
  {
    SecondByteCode(f);
    ByteOfRange(LengthCode(f), 127);
    SecondByteBits(f.key.Some?, ByteOf(LengthCode(f)));
  }

  lemma LengthFieldRoundTrip(f: Frame)
    requires f.Encodable()
    ensures |LengthBytes(f)| == ExtraLengthBytes(LengthCode(f))
    ensures PayloadLength(LengthCode(f), LengthBytes(f)) == |f.payload|
  {
    Radixes();
    match f.form
    case Short =>
    case Medium => BigEndianRoundTrip(2, |f.payload|);
    case Long => BigEndianRoundTrip(8, |f.payload|);
  }

  /** The rule a frame breaks for a reader of this role that is, or is not, between messages. */
  function FrameViolation(f: Frame, isServer: bool, final: bool): Option<Violation> {
    if f.reserved != 0 then Some(ReservedBits)
    else if IsControl(f.opcode) && !f.form.Short? then Some(ControlTooLong)
    else if IsControl(f.opcode) && !f.fin then Some(ControlNotFinal)
    else if IsData(f.opcode) && !final then Some(MessageStartInsideMessage)
    else if f.opcode == CONTINUATION_FRAME && final then Some(ContinuationOutsideMessage)
    else if !IsControl(f.opcode) && !IsData(f.opcode) && f.opcode != CONTINUATION_FRAME then Some(UnknownOpcode)
    else if f.key.Some? != isServer then Some(WrongMaskFlag)
    else None
  }

  /** The rules for a frame that comes between messages (final) or inside one, in the words of sections 5.1 to 5.5 of RFC 6455. */
  lemma RulesKept(f: Frame, isServer: bool, final: bool)
    requires f.Encodable()
    ensures FrameViolation(f, isServer, final).None? <==>
      && f.reserved == 0 && (f.key.Some? <==> isServer)
      && if f.opcode == 8 || f.opcode == 9 || f.opcode == 10 then f.fin && f.form.Short?
         else if f.opcode == 1 || f.opcode == 2 then final
         else f.opcode == 0 && !final
    ensures f.form.Short? ==> |f.payload| <= 125
  {
  }

  lemma CheckStartOfFrame(f: Frame, isServer: bool, final: bool)
    requires f.Encodable()
    ensures CheckStart(FirstByte(f), SecondByte(f), final)
         == (if FrameViolation(f, isServer, final) == Some(WrongMaskFlag) then None else FrameViolation(f, isServer, final))
  {
    FirstByteFields(f);
    SecondByteFields(f);
  }

  lemma PartsOf(a: byte, b: byte, more: seq<byte>, key: seq<byte>, rest: seq<byte>)
    ensures var s, e := [a, b] + more + key + rest, 2 + |more|;
      && s[0] == a && s[1] == b && s[2..e] == more && s[e..e + |key|] == key && s[e + |key|..] == rest
  {
  }

  /** Where the parts of a frame's bytes lie. */
  lemma FrameLayout(f: Frame, t: seq<byte>)
    requires f.Encodable()
    ensures var s, e := Encode(f) + t, 2 + |LengthBytes(f)|;
      && |HeaderBytes(f)| == e + |KeyBytes(f)|
      && |s| >= |HeaderBytes(f)|
      && s[0] == FirstByte(f) && s[1] == SecondByte(f)
      && s[2..e] == LengthBytes(f)
      && s[e..e + |KeyBytes(f)|] == KeyBytes(f)
      && s[|HeaderBytes(f)|..] == WirePayload(f) + t
  {
    var a, b, more, key, rest := FirstByte(f), SecondByte(f), LengthBytes(f), KeyBytes(f), WirePayload(f) + t;
    PartsOf(a, b, more, key, rest);
    assert Encode(f) + t == [a, b] + more + key + rest;
  }

  /** ParseHeader on bytes whose header parts are already known. */
  lemma ParseParts(s: seq<byte>, isServer: bool, final: bool, fault: Fault,
                   fin: bool, frameType: int, key: Option<Key>, more: seq<byte>, keyBytes: seq<byte>)
    requires |s| >= 2 + |more| + |keyBytes|
    requires FinalOf(s[0]) == fin
    requires OpcodeOf(s[0]) == frameType
    requires MaskedOf(s[1]) == key.Some?
    requires |more| == ExtraLengthBytes(LengthCodeOf(s[1]))
    requires s[2..2 + |more|] == more
    requires s[2 + |more|..2 + |more| + |keyBytes|] == keyBytes
    requires keyBytes == if key.Some? then key.value else []
    ensures ParseHeader(s, isServer, final, fault)
         == match CheckStart(s[0], s[1], final)
            case Some(v) => BadHeader(Protocol(v))
            case None =>
              if key.Some? != isServer then BadHeader(Protocol(WrongMaskFlag))
              else GoodHeader(Header(fin, frameType, key, PayloadLength(LengthCodeOf(s[1]), more), 2 + |more| + |keyBytes|))
  {
  }

  /**
    * Parsing the bytes of any frame, minimal length form or not, gives back its final
    * bit, opcode, mask key and length, or names the rule that the frame breaks.
    */
  lemma HeaderRoundTrip(f: Frame, t: seq<byte>, isServer: bool, final: bool, fault: Fault)
    requires f.Encodable()
    ensures ParseHeader(Encode(f) + t, isServer, final, fault)
         == match FrameViolation(f, isServer, final)
            case Some(v) => BadHeader(Protocol(v))
            case None => GoodHeader(Header(f.fin, f.opcode, f.key, |f.payload|, |HeaderBytes(f)|))
  {
    var s := Encode(f) + t;
    FrameLayout(f, t);
    CheckStartOfFrame(f, isServer, final);
    FirstByteFields(f);
    SecondByteFields(f);
    LengthFieldRoundTrip(f);
    ParseParts(s, isServer, final, fault, f.fin, f.opcode, f.key, LengthBytes(f), KeyBytes(f));
  }

  /**
    * The header flushFrame writes in front of the payload: it ends right at
    * maxFrameHeaderSize whatever the role and length, and no other length form that can
    * carry the length is shorter (section 5.2 of RFC 6455).
    */
  lemma MinimalHeader(f: Frame, form: LengthForm)
    requires f.Encodable() && f.form == MinimalForm(|f.payload|)
    requires f.(form := form).Encodable()
    ensures |HeaderBytes(f)| <= |HeaderBytes(f.(form := form))|
    ensures |HeaderBytes(f)| == (if f.key.Some? then 4 else 0)
                              + (if |f.payload| <= 125 then 2 else if |f.payload| < 65536 then 4 else 10)
    ensures |HeaderBytes(f)| <= MAX_FRAME_HEADER_SIZE
  {
  }

  // ----- One step of the reader -----

  /** The read fields of Conn that advanceFrame works on. */
  datatype ReadState = ReadState(remaining: int, final: bool, key: Key, maskPos: nat, length: int)

  /**
    * What does not change while reading: the role, the read limit, and how the transport
    * ends. An eager transport reports its end together with its last bytes, as io.Reader
    * allows; any other one in a Read of its own.
    */
  datatype Setting = Setting(isServer: bool, limit: int, fault: Fault, eager: bool)

  /** Control messages that advanceFrame itself writes. */
  datatype Reply = Pong(payload: seq<byte>) | CloseFrame(code: nat)

  /** What a message of the peer makes this side send: a Pong with the payload of a Ping (section 5.5.3 of RFC 6455). */
  function AnswersTo(m: Message): seq<Reply> {
    if m.opcode == PING_MESSAGE then [Pong(m.payload)] else []
  }

  const NO_STATUS := 1005
  const NORMAL_CLOSURE := 1000
  const GOING_AWAY := 1001
  const PROTOCOL_ERROR := 1002
  const MESSAGE_TOO_BIG := 1009

  datatype Step =
    | Stop(error: ReadError, replies: seq<Reply>)
    | Control(message: Message, state: ReadState, rest: seq<byte>, replies: seq<Reply>)
    | DataFrame(frameType: int, state: ReadState, rest: seq<byte>)

  /** Bytes of the current frame as the application sees them. */
  function Unmasked(cfg: Setting, st: ReadState, s: seq<byte>): (r: seq<byte>)
    ensures |r| == |s|
  {
    if cfg.isServer then Masked(st.key, st.maskPos, s) else s
  }

  /** The position after n more bytes of the frame's payload. */
  function Moved(cfg: Setting, st: ReadState, n: nat): ReadState {
    st.(remaining := st.remaining - n, maskPos := if cfg.isServer then (st.maskPos + n) % 4 else st.maskPos)
  }

  function CloseError(payload: seq<byte>): ReadError {
    var code := if |payload| >= 2 then FromBigEndian(payload[..2]) else NO_STATUS;
    if code == NORMAL_CLOSURE || code == GOING_AWAY then EOF else Closed(code)
  }

  /** Step 5: a text, binary or continuation header was read. */
  function DataStep(cfg: Setting, st: ReadState, frameType: int, rest: seq<byte>): Step {
    var total := Int64(st.length + st.remaining);
    if cfg.limit > 0 && total > cfg.limit then Stop(ReadLimit, [CloseFrame(MESSAGE_TOO_BIG)])
    else DataFrame(frameType, st.(length := total), rest)
  }

  /** Steps 6 and 7: a control header was read. */
  function ControlStep(cfg: Setting, st: ReadState, frameType: int, rest: seq<byte>): Step
    requires 0 <= st.remaining
  {
    if |rest| < st.remaining then Stop(FullReadError(cfg.fault), [])
    else
      var payload := if cfg.isServer then Masked(st.key, 0, rest[..st.remaining]) else rest[..st.remaining];
      var after := st.(remaining := 0);
      if frameType == CLOSE_MESSAGE then Stop(CloseError(payload), [CloseFrame(NO_STATUS)])
      else Control(Message(frameType, payload), after, rest[st.remaining..],
                   if frameType == PING_MESSAGE then [Pong(payload)] else [])
  }

  /** Step 4 ends with the header in the read fields. */
  function AfterHeader(st: ReadState, h: Header): ReadState {
    var final := if IsControl(h.frameType) then st.final else h.fin;
    if h.key.Some? then ReadState(h.length, final, h.key.value, 0, st.length)
    else ReadState(h.length, final, st.key, st.maskPos, st.length)
  }

  function ErrorReplies(e: ReadError): seq<Reply> {
    if e.Protocol? then [CloseFrame(PROTOCOL_ERROR)] else []
  }

  function FrameStep(cfg: Setting, st: ReadState, s: seq<byte>): Step {
    match ParseHeader(s, cfg.isServer, st.final, cfg.fault)
    case BadHeader(e) => Stop(e, ErrorReplies(e))
    case GoodHeader(h) =>
      if IsControl(h.frameType) then ControlStep(cfg, AfterHeader(st, h), h.frameType, s[h.size..])
      else DataStep(cfg, AfterHeader(st, h), h.frameType, s[h.size..])
  }

  /** All of advanceFrame, on the bytes s that are still to be read. */
  function Advance(cfg: Setting, st: ReadState, s: seq<byte>): Step {
    if st.remaining <= 0 then FrameStep(cfg, st, s)
    else if |s| < st.remaining then Stop(cfg.fault, [])
    else FrameStep(cfg, st, s[st.remaining..])
  }

  ghost predicate Progress(st: ReadState, s: seq<byte>, r: Step) {
    && (!r.Stop? ==> |r.rest| < |s| && (st.maskPos < 4 ==> r.state.maskPos < 4))
    && (r.Control? ==> IsControl(r.message.opcode) && r.replies == AnswersTo(r.message))
    && (r.Control? ==> r.state.remaining == 0 && r.state.final == st.final && r.state.length == st.length)
    && (r.DataFrame? ==> if st.final then IsData(r.frameType) else r.frameType == CONTINUATION_FRAME)
  }

  lemma FrameStepProgress(cfg: Setting, st: ReadState, s: seq<byte>)
    ensures Progress(st, s, FrameStep(cfg, st, s))
  {
    var r := ParseHeader(s, cfg.isServer, st.final, cfg.fault);
    if r.GoodHeader? {
      assert AfterHeader(st, r.header).length == st.length;
    }
  }

  /** Every step that does not stop the reader takes at least a header off the stream. */
  lemma AdvanceProgress(cfg: Setting, st: ReadState, s: seq<byte>)
    ensures Progress(st, s, Advance(cfg, st, s))
  {
    if st.remaining <= 0 {
      FrameStepProgress(cfg, st, s);
    } else if |s| >= st.remaining {
      FrameStepProgress(cfg, st, s[st.remaining..]);
    }
  }
}
