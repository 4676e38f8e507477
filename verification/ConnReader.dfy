/**
  * The read fields of Conn and the methods that use them (conn.go). The reader works on
  * the stream in whatever pieces the transport delivers it.
  */
module ConnReader {
  import opened Wrappers
  import opened Bytes
  import opened Masking
  import opened Frames
  import opened FrameParser
  import opened Receiver
  import opened RoundTrip
  import opened ByteSource
  import opened StreamPosition

  /** The messageReader struct, less its reference to the connection. */
  datatype MessageReader = MessageReader(number: nat)

  class ReadConn {
    const isServer: bool
    const readLimit: int
    const br: Source

    var readErr: Option<ReadError>
    var readRemaining: int
    var readFinal: bool
    var readSeq: nat
    var readLength: int
    var readMaskPos: nat
    var readMaskKey: Key
    /** The control messages that reading made this side send, in order. */
    var replies: seq<Reply>

    /** The messages delivered so far, and the one an open reader has started to deliver. */
    ghost var log: seq<Message>
    ghost var current: Option<Message>

    function Config(): Setting
      reads br
    {
      Setting(isServer, readLimit, br.fault, br.eager)
    }

    function Fields(): ReadState
      reads this
    {
      ReadState(readRemaining, readFinal, readMaskKey, readMaskPos, readLength)
    }

    /** readFull: io.EOF is never returned. */
    method ReadFull(p: array<byte>, n: nat) returns (err: Option<ReadError>)
      requires n <= p.Length
      modifies br, p
      ensures br.Measure() <= old(br.Measure())
      ensures err.None? <==> n <= |old(br.Rest())|
      ensures err.None? ==> p[..n] == old(br.Rest())[..n] && br.Rest() == old(br.Rest())[n..]
      ensures err.Some? ==> err.value == FullReadError(br.fault) == if br.fault == EOF then UnexpectedEOF else br.fault
    {
      hide Flatten;
      ghost var all := br.Rest();
      var got := 0;
      var readErr: Option<ReadError> := None;
      while got < n && readErr.None?
        invariant 0 <= got <= n && got <= |all| && p[..got] == all[..got] && br.Rest() == all[got..]
        invariant readErr.Some? ==> readErr.value == br.fault && got == |all|
        invariant br.Measure() <= old(br.Measure())
        decreases br.Measure(), if readErr.None? then 1 else 0
      {
        var k;
        ghost var before := p[..got];
        k, readErr := br.Read(p, got, n);
        assert p[..got + k] == before + all[got..][..k];
        got := got + k;
      }
      if got == n {
        return None;
      }
      return Some(FullReadError(br.fault));
    }

    constructor (isServer: bool, readLimit: int, br: Source)
      ensures this.isServer == isServer && this.readLimit == readLimit && this.br == br
      ensures Valid() && readErr.None? && Fresh(Fields()) && replies == [] && log == [] && current.None?
    {
      this.isServer, this.readLimit, this.br := isServer, readLimit, br;
      readErr, readRemaining, readFinal, readSeq, readLength, readMaskPos := None, 0, true, 0, 0, 0;
      readMaskKey := [0, 0, 0, 0];
      replies, log, current := [], [], None;
    }

    /** Step 2 of advanceFrame, on the first two bytes. */
    method CheckFirstBytes(b0: byte, b1: byte) returns (violation: Option<Violation>)
      modifies this`readFinal, this`readRemaining
      ensures violation == CheckStart(b0, b1, old(readFinal))
      ensures readRemaining == LengthCodeOf(b1)
      ensures violation.None? ==> readFinal == if IsControl(OpcodeOf(b0)) then old(readFinal) else FinalOf(b0)
    {
      hide FinalOf, OpcodeOf, ReservedOf, LengthCodeOf;
      var final, frameType, reserved := FinalOf(b0), OpcodeOf(b0), ReservedOf(b0);
      readRemaining := LengthCodeOf(b1);
      if reserved != 0 {
        return Some(ReservedBits);
      }
      if IsControl(frameType) {
        if readRemaining > MAX_CONTROL_PAYLOAD {
          return Some(ControlTooLong);
        }
        if !final {
          return Some(ControlNotFinal);
        }
      } else if IsData(frameType) {
        if !readFinal {
          return Some(MessageStartInsideMessage);
        }
        readFinal := final;
      } else if frameType == CONTINUATION_FRAME {
        if readFinal {
          return Some(ContinuationOutsideMessage);
        }
        readFinal := final;
      } else {
        return Some(UnknownOpcode);
      }
      return None;
    }

    /** Step 3 of advanceFrame: the length code is in readRemaining. */
    method ReadPayloadLength() returns (err: Option<ReadError>)
      requires 0 <= readRemaining <= 127
      modifies this`readRemaining, br
      ensures br.Measure() <= old(br.Measure())
      ensures var k, s := ExtraLengthBytes(old(readRemaining)), old(br.Rest());
        if |s| < k then err == Some(FullReadError(br.fault))
        else err.None? && br.Rest() == s[k..] && readRemaining == PayloadLength(old(readRemaining), s[..k])
    {
      hide FromBigEndian, Int64, Flatten;
      var k := ExtraLengthBytes(readRemaining);
      if k > 0 {
        var b := new byte[8];
        err := ReadFull(b, k);
        if err.Some? {
          return err;
        }
        readRemaining := Int64(FromBigEndian(b[..k]));
      }
      err := None;
    }

    /** Step 4 of advanceFrame, for a masked frame. */
    method ReadKey() returns (err: Option<ReadError>)
      modifies this`readMaskPos, this`readMaskKey, br
      ensures br.Measure() <= old(br.Measure())
      ensures if |old(br.Rest())| < 4 then err == Some(FullReadError(br.fault))
        else err.None? && br.Rest() == old(br.Rest())[4..] && readMaskKey == old(br.Rest())[..4] && readMaskPos == 0
    {
      hide Flatten;
      readMaskPos := 0;
      var key := new byte[4];
      err := ReadFull(key, 4);
      if err.None? {
        readMaskKey := key[..4];
      }
    }

    /** Steps 2 to 4 of advanceFrame. */
    method ReadHeader() returns (frameType: int, err: Option<ReadError>)
      modifies this`readFinal, this`readRemaining, this`readMaskPos, this`readMaskKey, br
      ensures br.Measure() <= old(br.Measure())
      ensures match ParseHeader(old(br.Rest()), isServer, old(readFinal), br.fault)
              case BadHeader(e) => err == Some(e)
              case GoodHeader(h) =>
                err.None? && frameType == h.frameType && br.Rest() == old(br.Rest())[h.size..]
                && Fields() == AfterHeader(old(Fields()), h)
    {
      hide FinalOf, OpcodeOf, ReservedOf, MaskedOf, CheckStart, FromBigEndian, Int64, Flatten, PayloadLength;
      ghost var s := br.Rest();
      var b := new byte[8];
      err := ReadFull(b, 2);
      if err.Some? {
        return NO_FRAME, err;
      }
      var b0, b1 := b[0], b[1];
      assert b[..2] == s[..2] && b0 == s[..2][0] && b1 == s[..2][1];
      var violation := CheckFirstBytes(b0, b1);
      if violation.Some? {
        return NO_FRAME, Some(Protocol(violation.value));
      }
      ghost var lengthEnd := 2 + ExtraLengthBytes(readRemaining);
      err := ReadPayloadLength();
      if err.Some? {
        return NO_FRAME, err;
      }
      assert br.Rest() == s[lengthEnd..] && s[2..][..lengthEnd - 2] == s[2..lengthEnd];
      if MaskedOf(b1) != isServer {
        return NO_FRAME, Some(Protocol(WrongMaskFlag));
      }
      if MaskedOf(b1) {
        err := ReadKey();
        if err.Some? {
          return NO_FRAME, err;
        }
        assert br.Rest() == s[lengthEnd + 4..] && s[lengthEnd..][..4] == s[lengthEnd..lengthEnd + 4];
      }
      return OpcodeOf(b0), None;
    }

    /** Step 6 of advanceFrame: the payload of a control frame, unmasked. */
    method ReadControlPayload() returns (payload: seq<byte>, err: Option<ReadError>)
      requires 0 <= readRemaining
      modifies this`readRemaining, br
      ensures br.Measure() <= old(br.Measure())
      ensures var n, s := old(readRemaining), old(br.Rest());
        if |s| < n then err == Some(FullReadError(br.fault))
        else err.None? && readRemaining == 0 && br.Rest() == s[n..]
             && payload == (if isServer then Masked(readMaskKey, 0, s[..n]) else s[..n])
    {
      hide Flatten, Masked;
      payload := [];
      if readRemaining > 0 {
        var p := new byte[readRemaining];
        readRemaining := 0;
        err := ReadFull(p, p.Length);
        if err.Some? {
          return payload, err;
        }
        assert p[..] == p[..p.Length] == p[0..p.Length];
        if isServer {
          var next := MaskBytes(readMaskKey, 0, p, 0, p.Length);
          assert p[..] == p[0..p.Length];
        }
        return p[..], None;
      }
      NothingMasked(readMaskKey);
      assert br.Rest()[0..] == br.Rest() && br.Rest()[..0] == [];
      err := None;
    }

    /** Steps 6 and 7 of advanceFrame. */
    method HandleControl(frameType: int) returns (err: Option<ReadError>)
      requires 0 <= readRemaining && IsControl(frameType)
      modifies this`readRemaining, this`replies, this`log, br
      ensures br.Measure() <= old(br.Measure())
      ensures match ControlStep(Config(), old(Fields()), frameType, old(br.Rest()))
              case Stop(e, rs) => err == Some(e) && replies == old(replies) + rs && log == old(log)
              case Control(m, st, rest, rs) =>
                err.None? && m.opcode == frameType
                && Fields() == st && br.Rest() == rest && replies == old(replies) + rs && log == old(log) + [m]
              case DataFrame(_, _, _) => false
    {
      hide Flatten, Masked, FromBigEndian;
      var payload;
      payload, err := ReadControlPayload();
      if err.Some? {
        return err;
      }
      if frameType == CLOSE_MESSAGE {
        replies := replies + [CloseFrame(NO_STATUS)];
        var closeCode := NO_STATUS;
        if |payload| >= 2 {
          closeCode := FromBigEndian(payload[..2]);
        }
        if closeCode == NORMAL_CLOSURE || closeCode == GOING_AWAY {
          return Some(EOF);
        }
        return Some(Closed(closeCode));
      }
      if frameType == PING_MESSAGE {
        replies := replies + [Pong(payload)];
      }
      log := log + [Message(frameType, payload)];
      err := None;
    }

    /** advanceFrame after the rest of the previous frame was skipped. */
    method ReadFrame() returns (frameType: int, err: Option<ReadError>)
      modifies this`readRemaining, this`readFinal, this`readLength, this`readMaskPos, this`readMaskKey, this`replies, this`log, br
      ensures br.Measure() <= old(br.Measure())
      ensures match FrameStep(Config(), old(Fields()), old(br.Rest()))
              case Stop(e, rs) => err == Some(e) && replies == old(replies) + rs && log == old(log)
              case Control(m, st, rest, rs) =>
                err.None? && frameType == m.opcode && Fields() == st && br.Rest() == rest
                && replies == old(replies) + rs && log == old(log) + [m]
              case DataFrame(t, st, rest) =>
                err.None? && frameType == t && Fields() == st && br.Rest() == rest
                && replies == old(replies) && log == old(log)
    {
      hide Flatten, ParseHeader, ControlStep, Int64;
      frameType, err := ReadHeader();
      if err.Some? {
        if err.value.Protocol? {
          replies := replies + [CloseFrame(PROTOCOL_ERROR)];
        }
        return NO_FRAME, err;
      }
      if IsControl(frameType) {
        err := HandleControl(frameType);
        return if err.None? then frameType else NO_FRAME, err;
      }
      readLength := Int64(readLength + readRemaining);
      if readLimit > 0 && readLength > readLimit {
        replies := replies + [CloseFrame(MESSAGE_TOO_BIG)];
        return NO_FRAME, Some(ReadLimit);
      }
      return frameType, None;
    }

    method AdvanceFrame() returns (frameType: int, err: Option<ReadError>)
      modifies this`readRemaining, this`readFinal, this`readLength, this`readMaskPos, this`readMaskKey, this`replies, this`log, br
      ensures br.Measure() <= old(br.Measure())
      ensures match Advance(Config(), old(Fields()), old(br.Rest()))
              case Stop(e, rs) => err == Some(e) && replies == old(replies) + rs && log == old(log)
              case Control(m, st, rest, rs) =>
                err.None? && frameType == m.opcode && Fields() == st && br.Rest() == rest
                && replies == old(replies) + rs && log == old(log) + [m]
              case DataFrame(t, st, rest) =>
                err.None? && frameType == t && Fields() == st && br.Rest() == rest
                && replies == old(replies) && log == old(log)
    {
      hide Flatten, FrameStep;
      if readRemaining > 0 {
        err := br.Discard(readRemaining);
        if err.Some? {
          return NO_FRAME, err;
        }
      }
      frameType, err := ReadFrame();
    }

    ghost predicate Valid()
      reads this
    {
      (readErr.None? ==> readMaskPos < 4) && (current.Some? ==> IsData(current.value.opcode))
    }

    /**
      * The messages delivered so far and all those still to come, if every message is read to
      * its end, and likewise the answers.
      */
    ghost function Forecast(): Outlook
      reads this, br
    {
      if readErr.Some? then Outlook(log, readErr.value, replies)
      else Onto(log, replies, View(Config(), if current.None? then Fields().(length := 0) else Fields(), current, br.Rest()))
    }

    /** The same if the message being read is given up. */
    ghost function ForecastWithout(): Outlook
      reads this, br
    {
      if readErr.Some? then Outlook(log, readErr.value, replies)
      else Onto(log, replies, View(Config(), Fields().(length := 0), None, br.Rest()))
    }

    /** What holds of every reader that NextReader gave out. */
    ghost predicate Live(r: MessageReader)
      reads this`readSeq, this`current, this`readErr
    {
      r.number <= readSeq && (r.number == readSeq && readErr.None? ==> current.Some?)
    }

    /** What the stream holds, for a reader that has counted length bytes of its message. */
    ghost function Ahead(): Outlook
      reads this, br
    {
      Onto(log, replies, View(Config(), Fields(), current, br.Rest()))
    }

    /** What reading the open message to its end will report. */
    ghost function Collect(): Collected
      requires current.Some?
      reads this, br
    {
      ReadToEnd(Config(), Fields(), current.value, br.Rest())
    }

    /**
      * The bytes still to come, less those left in the current frame, are the last of the
      * frames fs: the reader is at a frame's start, or that many bytes before one.
      */
    ghost predicate Track(fs: seq<Frame>)
      reads this, br
    {
      AllEncodable(fs) && OnTrack(Place(Fields(), br.Rest()), fs)
    }

    /** advanceFrame keeps the forecast: a control message moves to the log, a header starts a message. */
    method AdvanceOnce() returns (frameType: int, err: Option<ReadError>)
      requires Valid() && readErr.None? && (current.None? || (readRemaining <= 0 && !readFinal))
      modifies this`readRemaining, this`readFinal, this`readLength, this`readMaskPos, this`readMaskKey
      modifies this`replies, this`log, this`current, br
      ensures err.None? ==> Valid() && Ahead() == old(Ahead()) && |br.Rest()| < |old(br.Rest())|
      ensures err.Some? ==> Outlook(log, err.value, replies) == old(Ahead())
      ensures br.Measure() <= old(br.Measure())
      ensures old(log) <= log && DataMessages(log) == DataMessages(old(log))
      ensures current == if err.None? && IsData(frameType) then Some(Message(frameType, [])) else old(current)
      ensures old(current).Some? && err.None? ==> !IsData(frameType) && Collect() == old(Collect())
      ensures err.None? ==> forall fs :: old(Track(fs)) ==> Track(fs)
      ensures old(current).Some? && err.Some? ==> old(Collect()) == Collected(old(current).value, Some(FullReadError(err.value)))
    {
      hide View, ReadToEnd, Advance, Flatten, OnTrack;
      ghost var st, s := Fields(), br.Rest();
      if current.Some? {
        ReadToEndUnfolds(Config(), st, current.value, s);
      }
      AdvanceProgress(Config(), st, s);
      ViewUnfolds(Config(), st, current, s);
      frameType, err := AdvanceFrame();
      if err.None? {
        forall fs | AllEncodable(fs) && OnTrack(Place(st, s), fs)
          ensures OnTrack(Place(Fields(), br.Rest()), fs)
        {
          AdvanceTracks(Config(), Place(st, s), Place(Fields(), br.Rest()), fs);
        }
        if IsData(frameType) {
          current := Some(Message(frameType, []));
        } else if IsControl(frameType) {
          DataMessagesAppend(old(log), Advance(Config(), st, s).message);
        }
      }
    }

    method NextReader() returns (messageType: int, r: MessageReader, err: Option<ReadError>)
      requires Valid()
      modifies this, br
      ensures Valid()
      ensures forall v :: old(Live(v)) ==> Live(v)
      ensures Forecast() == old(ForecastWithout())
      ensures old(log) <= log && DataMessages(log) == DataMessages(old(log))
      ensures err.None? ==> IsData(messageType) && current == Some(Message(messageType, [])) && r.number == readSeq && readErr.None?
      ensures err.Some? ==> err == readErr && current.None?
      ensures old(readErr).Some? ==> err == old(readErr)
      ensures err.None? ==> |br.Rest()| < |old(br.Rest())|
      ensures err.None? ==> forall fs :: old(Track(fs)) ==> Track(fs)
    {
      hide View, Advance, Flatten, DataMessages, OnTrack;
      readSeq := readSeq + 1;
      readLength := 0;
      forall fs | AllEncodable(fs) && OnTrack(Place(old(Fields()), br.Rest()), fs)
        ensures OnTrack(Place(Fields(), br.Rest()), fs)
      {
        RestartTracks(Config(), Place(old(Fields()), br.Rest()), fs);
      }
      current := None;
      ghost var target := old(ForecastWithout());
      while readErr.None?
        invariant Valid() && current.None? && readSeq == old(readSeq) + 1 && (old(readErr).Some? ==> readErr == old(readErr))
        invariant old(log) <= log && DataMessages(log) == DataMessages(old(log))
        invariant if readErr.None? then Ahead() == target else Outlook(log, readErr.value, replies) == target
        invariant readErr.None? ==> |br.Rest()| <= |old(br.Rest())|
        invariant readErr.None? ==> forall fs :: old(Track(fs)) ==> Track(fs)
        decreases readErr.None?, |br.Rest()|
      {
        messageType, err := AdvanceOnce();
        if err.Some? {
          readErr := err;
          break;
        }
        if IsData(messageType) {
          return messageType, MessageReader(readSeq), None;
        }
      }
      return NO_FRAME, MessageReader(readSeq), readErr;
    }

    /** The branch of Read with bytes of the current frame left: what it does to the buffer and the fields. */
    method ReadBytes(b: array<byte>) returns (n: nat, err: Option<ReadError>)
      requires Valid() && readErr.None? && readRemaining > 0
      modifies this`readErr, this`readRemaining, this`readMaskPos, br, b
      ensures err == readErr && br.Measure() <= old(br.Measure())
      ensures n <= b.Length && n <= old(readRemaining) && n <= |old(br.Rest())|
      ensures b[..n] == Unmasked(Config(), old(Fields()), old(br.Rest())[..n])
      ensures Fields() == Moved(Config(), old(Fields()), n) && readMaskPos < 4
      ensures br.Rest() == old(br.Rest())[n..]
      ensures err.None? && b.Length > 0 ==> br.Measure() < old(br.Measure())
      ensures err.None? && br.eager && n > 0 ==> br.Rest() != []
      ensures err.Some? ==> err.value == br.fault && br.Rest() == [] && (n > 0 ==> br.eager)
    {
      hide Flatten, Masked;
      ghost var st, s := Fields(), br.Rest();
      var hi := if b.Length > readRemaining then readRemaining else b.Length;
      n, err := br.Read(b, 0, hi);
      readErr := err;
      assert b[0..n] == b[..n] == s[..n];
      if isServer {
        readMaskPos := MaskBytes(readMaskKey, readMaskPos, b, 0, n);
        assert b[0..n] == b[..n];
      }
      readRemaining := readRemaining - n;
    }

    /**
      * And what that means: the open message grows, the forecast and the place in the stream
      * are kept, and a clean end counts as the end of the message.
      */
    method TakeBytes(b: array<byte>) returns (n: nat, err: Option<ReadError>)
      requires Valid() && readErr.None? && current.Some? && readRemaining > 0
      modifies this`readErr, this`readRemaining, this`readMaskPos, this`current, this`log, br, b
      ensures Valid() && Forecast() == old(Forecast()) && err == readErr && n <= b.Length
      ensures |br.Rest()| <= |old(br.Rest())| && br.Measure() <= old(br.Measure())
      ensures var m := Extended(old(current).value, b[..n]);
        if err == Some(EOF) then current.None? && log == old(log) + [m] && DataMessages(log) == DataMessages(old(log)) + [m]
        else current == Some(m) && log == old(log)
      ensures err.None? && b.Length > 0 ==> br.Measure() < old(br.Measure())
      ensures err.Some? ==> err.value == br.fault && br.Rest() == []
      ensures err.None? ==> Collect() == old(Collect())
      ensures err.Some? ==>
        old(Collect()) == Collected(Extended(old(current).value, b[..n]), if err == Some(EOF) then None else err)
      ensures forall fs :: old(Track(fs)) ==> Track(fs)
    {
      hide View, ReadToEnd, Flatten, OnTrack, Unmasked;
      ghost var st, s, m, cfg := Fields(), br.Rest(), current.value, Config();
      n, err := ReadBytes(b);
      ghost var got := Extended(m, b[..n]);
      current := Some(got);
      if err.Some? {
        assert s[..n] == s;
        ViewEnds(cfg, st, m, s, b[..n]);
        if err == Some(EOF) {
          DataMessagesAppend(log, got);
          log, current := log + [got], None;
        }
      } else if n > 0 {
        ViewAfterBytes(cfg, st, m, s, n);
        ReadToEndAfterBytes(cfg, st, m, s, n);
      } else {
        MovedByNone(cfg, st, m, s, b[..n]);
      }
      forall fs | AllEncodable(fs) && OnTrack(Place(st, s), fs)
        ensures OnTrack(Place(Fields(), br.Rest()), fs)
      {
        TakingTracks(cfg, Place(st, s), n, fs);
      }
    }

    /** The last byte of the message was delivered before: Read says so, once. */
    method Complete()
      requires Valid() && readErr.None? && current.Some? && readRemaining <= 0 && readFinal
      modifies this`readSeq, this`log, this`current
      ensures Valid() && Forecast() == old(Forecast()) && readSeq == old(readSeq) + 1 && current.None?
      ensures log == old(log) + [old(current).value]
      ensures DataMessages(log) == DataMessages(old(log)) + [old(current).value]
      ensures old(Collect()) == Collected(old(current).value, None)
      ensures forall fs :: old(Track(fs)) ==> Track(fs)
    {
      hide View, Flatten, OnTrack;
      ViewCompletes(Config(), Fields(), current.value, br.Rest());
      DataMessagesAppend(log, current.value);
      readSeq := readSeq + 1;
      log := log + [current.value];
      current := None;
    }

    /** The application was told that the data message m is complete, after any control messages. */
    ghost predicate Completed(before: seq<Message>, m: Message)
      reads this`log, this`current
    {
      && current.None?
      && DataMessages(log) == DataMessages(before) + [m]
    }

    /**
      * Read, with a buffer of any size. It never changes what the stream will give in all;
      * it returns io.EOF once for each message that the application is told is complete.
      */
    method Read(r: MessageReader, b: array<byte>) returns (n: nat, err: Option<ReadError>)
      requires Valid() && Live(r)
      modifies this, br, b
      ensures Valid() && Forecast() == old(Forecast()) && n <= b.Length
      ensures forall v :: old(Live(v)) ==> Live(v)
      ensures old(log) <= log
      ensures r.number != old(readSeq) ==>
        n == 0 && err == Some(EOF) && log == old(log) && current == old(current) && readErr == old(readErr)
      ensures r.number == old(readSeq) && old(readErr).Some? ==>
        n == 0 && err == Some(FullReadError(old(readErr).value)) && log == old(log) && current == old(current) && readErr == old(readErr)
      ensures r.number == old(readSeq) && old(readErr).None? ==> Outcome(old(log), old(current).value, b[..n], err)
      ensures r.number == old(readSeq) && err.None? ==> readErr.None? && readSeq == old(readSeq) && Collect() == old(Collect())
      ensures r.number == old(readSeq) && err.None? && b.Length > 0 ==> br.Measure() < old(br.Measure())
      ensures readErr.None? ==> |br.Rest()| <= |old(br.Rest())|
      ensures r.number == old(readSeq) && err.Some? && old(readErr).None? ==>
        old(Collect()) == Collected(Extended(old(current).value, b[..n]), if err == Some(EOF) then None else err)
      ensures old(readErr).None? && readErr.None? ==> forall fs :: old(Track(fs)) ==> Track(fs)
    {
      hide View, ReadToEnd, Flatten, DataMessages, Masked, OnTrack;
      if r.number != readSeq {
        return 0, Some(EOF);
      }
      NoBytes(current, b[..0]);
      while readErr.None?
        invariant Valid() && current == old(current) && readSeq == old(readSeq) && Forecast() == old(Forecast())
        invariant old(log) <= log && DataMessages(log) == DataMessages(old(log)) && br.Measure() <= old(br.Measure())
        invariant readErr.None? ==> Collect() == old(Collect()) && |br.Rest()| <= |old(br.Rest())|
        invariant readErr.Some? && old(readErr).None? ==>
          old(Collect()) == Collected(old(current).value, Some(FullReadError(readErr.value)))
        invariant old(readErr).Some? ==> readErr == old(readErr) && log == old(log)
        invariant readErr.None? ==> forall fs :: old(Track(fs)) ==> Track(fs)
        decreases readErr.None?, |br.Rest()|
      {
        if readRemaining > 0 {
          n, err := TakeBytes(b);
          return n, err;
        }
        if readFinal {
          Complete();
          NoBytes(old(current), b[..0]);
          return 0, Some(EOF);
        }
        var frameType;
        frameType, err := AdvanceOnce();
        if err.Some? {
          readErr := err;
        }
      }
      err := readErr;
      if err == Some(EOF) && r.number == readSeq {
        err := Some(UnexpectedEOF);
      }
      return 0, err;
    }

    /** What Read does with the open message m when it returns the bytes p and err. */
    ghost predicate Outcome(before: seq<Message>, m: Message, p: seq<byte>, err: Option<ReadError>)
      reads this`log, this`current, this`readErr
    {
      match err
      case None => current == Some(Extended(m, p)) && DataMessages(log) == DataMessages(before) && readErr.None?
      case Some(e) =>
        if e == EOF then Completed(before, Extended(m, p))
        else current == Some(Extended(m, p)) && DataMessages(log) == DataMessages(before)
             && readErr.Some? && e == FullReadError(readErr.value)
    }

    /** ioutil.ReadAll on a message reader, with a buffer of any size for each Read. */
    method ReadAll(r: MessageReader) returns (p: seq<byte>, err: Option<ReadError>)
      requires Valid() && Live(r) && r.number == readSeq && readErr.None?
      modifies this, br
      ensures Valid() && Forecast() == old(Forecast()) && old(log) <= log
      ensures forall v :: old(Live(v)) ==> Live(v)
      ensures old(Collect()) == Collected(Extended(old(current).value, p), err)
      ensures err.None? ==> Completed(old(log), Extended(old(current).value, p))
      ensures err.Some? ==> readErr.Some? && DataMessages(log) == DataMessages(old(log)) && err.value == FullReadError(readErr.value)
      ensures readErr.None? ==> |br.Rest()| <= |old(br.Rest())|
      ensures readErr.None? ==> forall fs :: old(Track(fs)) ==> Track(fs)
    {
      hide View, ReadToEnd, Flatten, DataMessages, OnTrack;
      p := [];
      ghost var m := current.value;
      assert Extended(m, p) == m;
      while true
        invariant Valid() && Live(r) && r.number == readSeq && readErr.None? && old(log) <= log
        invariant Forecast() == old(Forecast()) && DataMessages(log) == DataMessages(old(log))
        invariant current == Some(Extended(m, p)) && Collect() == old(Collect())
        invariant forall v :: old(Live(v)) ==> Live(v)
        invariant |br.Rest()| <= |old(br.Rest())|
        invariant forall fs :: old(Track(fs)) ==> Track(fs)
        decreases br.Measure()
      {
        var size: nat :| size > 0;
        var b := new byte[size];
        var n;
        n, err := Read(r, b);
        ExtendedAgain(m, p, b[..n]);
        p := p + b[..n];
        if err.Some? {
          return p, if err == Some(EOF) then None else err;
        }
      }
    }

    /**
      * A whole session: NextReader and ReadAll until the connection ends. The application
      * gets every data message that the forecast has, and then the error.
      */
    method ReceiveAll() returns (messages: seq<Message>, err: ReadError)
      requires Valid() && current.None? && readErr.None?
      modifies this, br
      ensures Valid() && readErr.Some? && (err == readErr.value || err == FullReadError(readErr.value))
      ensures old(Forecast()) == Outlook(log, readErr.value, replies) && old(log) <= log
      ensures DataMessages(old(log)) + messages == DataMessages(log)
    {
      hide View, ReadToEnd, Flatten, DataMessages, OnTrack;
      messages := [];
      assert DataMessages(log) + [] == DataMessages(log);
      while true
        invariant Valid() && current.None? && old(log) <= log
        invariant Forecast() == old(Forecast()) && DataMessages(old(log)) + messages == DataMessages(log)
        decreases readErr.None?, |br.Rest()|
      {
        var messageType, r, e := NextReader();
        if e.Some? {
          return messages, e.value;
        }
        ghost var all := messages;
        var p;
        p, e := ReadAll(r);
        if e.Some? {
          return messages, e.value;
        }
        assert [] + p == p;
        messages := messages + [Message(messageType, p)];
        assert DataMessages(old(log)) + all + [Message(messageType, p)] == DataMessages(old(log)) + messages;
      }
    }
  }

  /** An outlook, after what has been delivered and sent already. */
  function Onto(log: seq<Message>, replies: seq<Reply>, o: Outlook): Outlook {
    Outlook(log + o.messages, o.error, replies + o.answers)
  }

  lemma NoBytes(m: Option<Message>, p: seq<byte>)
    requires p == []
    ensures m.Some? ==> Extended(m.value, p) == m.value
  {
  }

  lemma MovedByNone(cfg: Setting, st: ReadState, m: Message, s: seq<byte>, p: seq<byte>)
    requires p == [] && st.maskPos < 4
    ensures Extended(m, p) == m && s[0..] == s && Moved(cfg, st, 0) == st
  {
  }

  lemma AdvanceTracks(cfg: Setting, p: Place, q: Place, fs: seq<Frame>)
    requires AllEncodable(fs) && OnTrack(p, fs)
    requires !Advance(cfg, p.st, p.s).Stop?
    requires q == Place(Advance(cfg, p.st, p.s).state, Advance(cfg, p.st, p.s).rest)
    ensures OnTrack(q, fs)
  {
    hide Advance, OnTrack;
    MoveKeepsPosition(cfg, p, q, fs);
  }

  lemma RestartTracks(cfg: Setting, p: Place, fs: seq<Frame>)
    requires AllEncodable(fs) && OnTrack(p, fs)
    ensures OnTrack(p.(st := p.st.(length := 0)), fs)
  {
    hide Advance, OnTrack;
    MoveKeepsPosition(cfg, p, p.(st := p.st.(length := 0)), fs);
  }

  lemma TakingTracks(cfg: Setting, p: Place, n: nat, fs: seq<Frame>)
    requires AllEncodable(fs) && OnTrack(p, fs) && n <= p.st.remaining && n <= |p.s|
    ensures OnTrack(Place(Moved(cfg, p.st, n), p.s[n..]), fs)
  {
    hide Advance, OnTrack;
    var q := Place(Moved(cfg, p.st, n), p.s[n..]);
    assert Takes(cfg, p, q, n);
    MoveKeepsPosition(cfg, p, q, fs);
  }

  lemma ExtendedAgain(m: Message, p: seq<byte>, q: seq<byte>)
    ensures Extended(Extended(m, p), q) == Extended(m, p + q)
  {
    assert m.payload + p + q == m.payload + (p + q);
  }

  lemma ViewEnds(cfg: Setting, st: ReadState, m: Message, s: seq<byte>, p: seq<byte>)
    requires |s| <= st.remaining && 0 < st.remaining && (s != [] ==> cfg.eager) && p == Unmasked(cfg, st, s)
    ensures View(cfg, st, Some(m), s) == Ended(cfg, Extended(m, p))
    ensures ReadToEnd(cfg, st, m, s) == Collected(Extended(m, p), if cfg.fault == EOF then None else Some(cfg.fault))
  {
  }

  lemma NothingMasked(key: Key)
    ensures Masked(key, 0, []) == []
  {
  }
}
