/**
  * The write fields of Conn and the methods that use them (conn.go): frames are built in
  * place in writeBuf, and every write to the transport happens under the channel mutex mu.
  */
module ConnWriter {
  import opened Wrappers
  import opened Bytes
  import opened Masking
  import opened Frames
  import opened FrameParser
  import opened Receiver
  import opened RoundTrip
  import opened ByteSource

  datatype WriteError = CloseSent | BadOpCode | WriteClosed | InvalidControl | Network | Internal | Timeout | ReaderFailed

  ghost predicate AllControl(fs: seq<Frame>) {
    forall i :: 0 <= i < |fs| ==> GoodControl(fs[i])
  }

  /** A Close frame can only be the last frame. */
  ghost predicate NothingAfterClose(fs: seq<Frame>) {
    forall i :: 0 <= i < |fs| - 1 ==> fs[i].opcode != CLOSE_MESSAGE
  }

  /** Frames that this role may have put on the wire so far. */
  ghost predicate GoodStream(fs: seq<Frame>, isServer: bool) {
    && AllSentBy(fs, isServer)
    && AllEncodable(fs)
    && Assemble(EMPTY_ASSEMBLY, fs).Some?
    && NothingAfterClose(fs)
  }

  /** The messages that a stream of frames has completed, and the open one. */
  ghost function Assembled(fs: seq<Frame>): Assembly {
    match Assemble(EMPTY_ASSEMBLY, fs)
    case Some(a) => a
    case None => EMPTY_ASSEMBLY
  }

  lemma StreamGrows(fs: seq<Frame>, f: Frame, isServer: bool)
    requires GoodStream(fs, isServer) && NoClose(fs) && f.SentBy(isServer)
    requires Accept(Assembled(fs), f).Some?
    ensures GoodStream(fs + [f], isServer)
    ensures Assembled(fs + [f]) == Accept(Assembled(fs), f).value
    ensures EncodeAll(fs + [f]) == EncodeAll(fs) + Encode(f)
    ensures NoClose(fs + [f]) <==> f.opcode != CLOSE_MESSAGE
  {
    hide Encode, Frame.SentBy, Accept, Assemble, EncodeAll;
    assert f.Encodable() by { SentIsEncodable(f, isServer); }
    EncodeAllAppend(fs, f);
    AssembleAppend(EMPTY_ASSEMBLY, fs, f);
    assert (fs + [f])[|fs|] == f;
  }

  lemma SentIsEncodable(f: Frame, isServer: bool)
    requires f.SentBy(isServer)
    ensures f.Encodable()
  {
  }

  /** Frame f may come next (section 5.4 of RFC 6455). */
  ghost predicate CanFollow(fs: seq<Frame>, f: Frame) {
    Assemble(EMPTY_ASSEMBLY, fs).Some? && Accept(Assembled(fs), f).Some?
  }

  /**
    * The bytes on the wire are whole frames, each one a frame this role may send where it
    * stands, with nothing after a Close; only a failed write leaves part of a frame, and
    * then the connection is closed.
    */
  ghost predicate WireGood(isServer: bool, closeSent: bool, connOpen: bool, wire: seq<byte>, frames: seq<Frame>, torn: seq<byte>) {
    && GoodStream(frames, isServer)
    && wire == EncodeAll(frames) + torn
    && (torn != [] ==> !connOpen)
    && TornOk(isServer, frames, torn)
    && (!closeSent ==> NoClose(frames))
  }

  /** The bytes after the last whole frame are the beginning of a frame that may come there. */
  ghost predicate TornOk(isServer: bool, frames: seq<Frame>, torn: seq<byte>) {
    torn == [] || exists f :: Beginning(isServer, frames, torn, f)
  }

  ghost predicate Beginning(isServer: bool, frames: seq<Frame>, torn: seq<byte>, f: Frame) {
    f.SentBy(isServer) && CanFollow(frames, f) && NoClose(frames) && f.Encodable() && torn < Encode(f)
  }

  /** A write failed after the transport took part of a frame. */
  lemma WireAfterFailure(isServer: bool, closeSent: bool, connOpen: bool, wire: seq<byte>, frames: seq<Frame>, torn: seq<byte>,
                         closing: bool, part: seq<byte>, f: Frame)
    requires WireGood(isServer, closeSent, connOpen, wire, frames, torn) && !closeSent
    requires f.SentBy(isServer) && CanFollow(frames, f) && f.Encodable() && part < Encode(f)
    requires part != [] ==> connOpen
    ensures WireGood(isServer, closing, false, wire + part, frames, torn + part)
    ensures part == [] ==> WireGood(isServer, closing, connOpen, wire + part, frames, torn + part)
    ensures if part == [] then torn + part == torn else torn + part == part && Beginning(isServer, frames, part, f)
  {
    hide Encode, Assemble, CanFollow, Frame.SentBy, Frame.Encodable;
    if part != [] {
      assert torn + part == part;
      assert Beginning(isServer, frames, part, f);
    } else {
      assert torn + part == torn;
    }
    assert EncodeAll(frames) + torn + part == EncodeAll(frames) + (torn + part);
  }

  /** Of messages, nothing is torn: at most a control frame is. */
  predicate OnlyControlTorn(torn: seq<byte>) {
    torn == [] || IsControl(OpcodeOf(torn[0]))
  }

  lemma TornOpcode(f: Frame, torn: seq<byte>)
    requires f.Encodable() && torn <= Encode(f) && torn != []
    ensures OpcodeOf(torn[0]) == f.opcode
  {
    hide FirstByte, OpcodeOf, LengthBytes, KeyBytes, Frame.Encodable;
    FrameLayout(f, []);
    assert (Encode(f) + [])[0] == torn[0];
    FirstByteFields(f);
  }

  predicate PartOfMessage(m: Message, whole: Message) {
    m.opcode == whole.opcode && m.payload <= whole.payload
  }

  /** Frame f holds the next part of the message that s is writing. */
  ghost predicate CutBy(frames: seq<Frame>, f: Frame, s: Written) {
    && s.current.Some? && IsData(s.current.value.opcode) && s.delivered == DataMessages(Assembled(frames).done)
    && PartOfMessage(WithFrame(Assembled(frames).open, f), s.current.value)
  }

  /** Frame f went out whole. */
  lemma WireAfterFrame(isServer: bool, connOpen: bool, wire: seq<byte>, frames: seq<Frame>, torn: seq<byte>, f: Frame)
    requires WireGood(isServer, false, true, wire, frames, torn) && f.SentBy(isServer)
    requires CanFollow(frames, f) && f.Encodable()
    ensures torn == []
    ensures WireGood(isServer, f.opcode == CLOSE_MESSAGE, connOpen, wire + Encode(f), frames + [f], [])
  {
    hide Encode, Frame.SentBy, Frame.Encodable, Accept, Assemble, AllSentBy, AllEncodable, Beginning;
    StreamGrows(frames, f, isServer);
    assert EncodeAll(frames) + [] + Encode(f) == EncodeAll(frames) + Encode(f) + [];
  }

  /** The messageWriter struct, less its reference to the connection. */
  datatype MessageWriter = MessageWriter(number: nat)

  /** What the application has sent: the data messages that are complete on the wire, and the one it is writing. */
  datatype Written = Written(delivered: seq<Message>, current: Option<Message>)

  /** The current message is closed. */
  function Finish(s: Written): Written {
    match s.current
    case None => s
    case Some(m) => Written(s.delivered + (if IsControl(m.opcode) then [] else [m]), None)
  }

  function Begin(s: Written, messageType: int): Written {
    Finish(s).(current := Some(Message(messageType, [])))
  }

  function Append(s: Written, p: seq<byte>): Written {
    if s.current.None? then s else s.(current := Some(Extended(s.current.value, p)))
  }

  lemma FlattenEnds(bufs: seq<seq<byte>>)
    ensures bufs[0..] == bufs && Flatten(bufs[|bufs|..]) == []
    ensures [] + Flatten(bufs) == Flatten(bufs)
  {
  }

  /** The bytes sent so far when n bytes of buffer i have gone out after those before it. */
  lemma PartWritten(out: seq<byte>, bufs: seq<seq<byte>>, i: nat, n: nat)
    requires i < |bufs| && n <= |bufs[i]|
    ensures var total, now := out + Flatten(bufs[i..]), out + bufs[i][..n];
      && now <= total
      && (n == |bufs[i]| ==> now == out + bufs[i] && now + Flatten(bufs[i + 1..]) == total)
      && (n < |bufs[i]| ==> now != total)
  {
    var buf, rest := bufs[i], Flatten(bufs[i + 1..]);
    assert bufs[i..][1..] == bufs[i + 1..];
    assert Flatten(bufs[i..]) == buf + rest;
    if n == |buf| {
      assert buf[..n] == buf;
    } else {
      assert |out + buf[..n]| < |out + (buf + rest)|;
    }
  }

  lemma TakeMore(s: seq<byte>, m: nat, n: nat)
    requires m + n <= |s|
    ensures s[..m] + s[m..][..n] == s[..m + n] && s[m..][n..] == s[m + n..]
  {
  }

  lemma AppendTwice(s: Written, p: seq<byte>, q: seq<byte>)
    ensures Append(Append(s, p), q) == Append(s, p + q)
  {
    if s.current.Some? {
      assert s.current.value.payload + p + q == s.current.value.payload + (p + q);
    }
  }

  class WriteConn {
    const isServer: bool
    const writeBuf: array<byte>

    // Kept under mu: other goroutines change these through WriteControl.
    var closeSent: bool
    var connOpen: bool
    var wire: seq<byte>
    ghost var frames: seq<Frame>
    ghost var torn: seq<byte>

    // Used by the one goroutine that writes messages.
    var writeErr: Option<WriteError>
    var writePos: int
    var writeFrameType: int
    var writeSeq: nat

    ghost predicate WireOk()
      reads this`closeSent, this`connOpen, this`wire, this`frames, this`torn
    {
      WireGood(isServer, closeSent, connOpen, wire, frames, torn)
    }

    /** A write fails only after a Close frame was tried, or with the connection closed. */
    ghost predicate Justified(err: Option<WriteError>)
      reads this`closeSent, this`connOpen
    {
      err.Some? ==> (err.value == CloseSent && closeSent) || (err.value == Network && !connOpen)
    }

    /** The transport: it may take only part of the bytes, and takes none after Close. */
    method NetWrite(buf: seq<byte>) returns (n: nat, failed: bool)
      modifies this`wire
      ensures n <= |buf| && wire == old(wire) + buf[..n]
      ensures failed <==> n < |buf|
      ensures !connOpen ==> n == 0
    {
      if connOpen {
        n :| 0 <= n <= |buf|;
      } else {
        n := 0;
      }
      wire := wire + buf[..n];
      failed := n < |buf|;
    }

    method NewMaskKey() returns (key: Key) {
      key := *;
    }

    /** What WriteControl does between taking and releasing mu; buf is a whole frame. */
    method ControlSection(messageType: int, buf: seq<byte>, ghost f: Frame) returns (err: Option<WriteError>)
      requires WireOk() && f.SentBy(isServer) && GoodControl(f) && f.opcode == messageType && buf == Encode(f)
      modifies this`closeSent, this`connOpen, this`wire, this`frames, this`torn
      ensures WireOk()
      ensures old(closeSent) ==> err == Some(CloseSent)
      ensures closeSent == (old(closeSent) || messageType == CLOSE_MESSAGE)
      ensures connOpen ==> old(connOpen)
      ensures frames == old(frames) + if err.None? then [f] else []
      ensures err == Some(CloseSent) ==> old(closeSent)
      ensures err.None? || err == Some(CloseSent) || err == Some(Network)
      ensures old(OnlyControlTorn(torn)) ==> OnlyControlTorn(torn)
    {
      hide WireGood, Encode, Frame.SentBy, CanFollow, GoodControl, Frame.Encodable, OpcodeOf, Beginning;
      EncodeNotEmpty(f, isServer);
      ControlAlwaysFits(isServer, closeSent, connOpen, wire, frames, torn, f);
      if closeSent {
        return Some(CloseSent);
      } else if messageType == CLOSE_MESSAGE {
        closeSent := true;
      }
      var n, failed := NetWrite(buf);
      if failed {
        WireAfterFailure(isServer, false, connOpen, old(wire), frames, torn, messageType == CLOSE_MESSAGE, buf[..n], f);
        if n > 0 {
          TornOpcode(f, buf[..n]);
        }
      } else {
        assert buf[..n] == buf;
        WireAfterFrame(isServer, true, old(wire), frames, torn, f);
      }
      if n != 0 && n != |buf| {
        connOpen := false;
      }
      if failed {
        torn := torn + buf[..n];
        return Some(Network);
      }
      frames := frames + [f];
      return None;
    }

    /**
      * Any number of WriteControl calls by other goroutines, with any control messages: what
      * can happen while this goroutine waits for mu.
      */
    method OtherCallers() returns (ghost ctl: seq<Frame>)
      requires WireOk()
      modifies this`closeSent, this`connOpen, this`wire, this`frames, this`torn
      ensures WireOk() && AllControl(ctl) && frames == old(frames) + ctl
      ensures (old(closeSent) ==> closeSent) && (connOpen ==> old(connOpen))
      ensures old(OnlyControlTorn(torn)) ==> OnlyControlTorn(torn)
    {
      hide WireGood, Encode, Frame.SentBy, Frame.Encodable, GoodControl, OnlyControlTorn;
      ctl := [];
      var calls: nat := *;
      while calls > 0
        invariant WireOk() && AllControl(ctl) && frames == old(frames) + ctl
        invariant (old(closeSent) ==> closeSent) && (connOpen ==> old(connOpen))
        invariant old(OnlyControlTorn(torn)) ==> OnlyControlTorn(torn)
      {
        var messageType, data, key := AnyControl();
        var f := ControlFrame(messageType, data, key);
        EncodeNotEmpty(f, isServer);
        var err := ControlSection(messageType, Encode(f), f);
        if err.None? {
          ctl := ctl + [f];
        }
        calls := calls - 1;
      }
    }

    function ControlFrame(messageType: int, data: seq<byte>, key: Key): (f: Frame)
      requires IsControl(messageType) && |data| <= MAX_CONTROL_PAYLOAD
      ensures f.SentBy(isServer) && GoodControl(f)
    {
      Frame(true, 0, messageType, if isServer then None else Some(key), Short, data)
    }

    method AnyControl() returns (messageType: int, data: seq<byte>, key: Key)
      ensures IsControl(messageType) && |data| <= MAX_CONTROL_PAYLOAD
    {
      messageType :| messageType in [CLOSE_MESSAGE, PING_MESSAGE, PONG_MESSAGE];
      data := *;
      if |data| > MAX_CONTROL_PAYLOAD {
        data := data[..MAX_CONTROL_PAYLOAD];
      }
      key := NewMaskKey();
    }

    /** The loop of Conn.write: a partial write closes the connection. */
    method WriteAll(bufs: seq<seq<byte>>) returns (failed: bool, ghost out: seq<byte>)
      modifies this`wire, this`connOpen
      ensures wire == old(wire) + out && out <= Flatten(bufs)
      ensures failed <==> out != Flatten(bufs)
      ensures connOpen == (old(connOpen) && !failed)
      ensures out != [] ==> old(connOpen)
    {
      hide Flatten;
      out := [];
      ghost var total := Flatten(bufs);
      FlattenEnds(bufs);
      for i := 0 to |bufs|
        invariant wire == old(wire) + out && out + Flatten(bufs[i..]) == total
        invariant connOpen == old(connOpen) && (out != [] ==> connOpen)
      {
        var n, err := |bufs[i]|, false;
        if |bufs[i]| > 0 {
          n, err := WriteOne(bufs[i]);
        }
        ghost var before, part := out, bufs[i][..n];
        out := out + part;
        assert wire == old(wire) + before + part == old(wire) + out;
        PartWritten(before, bufs, i, n);
        if err {
          return true, out;
        }
      }
      assert out + [] == out;
      failed := false;
    }

    method WriteOne(buf: seq<byte>) returns (n: nat, err: bool)
      requires buf != []
      modifies this`wire, this`connOpen
      ensures n <= |buf| && wire == old(wire) + buf[..n] && (err <==> n < |buf|)
      ensures connOpen == (old(connOpen) && !err) && (n > 0 ==> old(connOpen))
    {
      n, err := NetWrite(buf);
      if n != |buf| {
        connOpen := false;
      }
    }

    /** Conn.write: one frame, in the given buffers, under mu. */
    method LockedWrite(frameType: int, bufs: seq<seq<byte>>, ghost f: Frame)
      returns (err: Option<WriteError>, ghost ctl: seq<Frame>)
      requires WireOk() && f.SentBy(isServer) && f.opcode == frameType && Flatten(bufs) == Encode(f)
      requires CanFollow(frames, f)
      modifies this`closeSent, this`connOpen, this`wire, this`frames, this`torn
      ensures WireOk() && AllControl(ctl)
      ensures frames == old(frames) + ctl + if err.None? then [f] else []
      ensures Justified(err)
      ensures old(OnlyControlTorn(torn)) ==>
        OnlyControlTorn(torn) || (err == Some(Network) && Beginning(isServer, frames, torn, f))
    {
      hide WireGood, Encode, Frame.SentBy, CanFollow, AllControl, Frame.Encodable, Flatten, OpcodeOf, Beginning;
      EncodeNotEmpty(f, isServer);
      ctl := OtherCallers();
      AcceptedAfterControls(isServer, closeSent, connOpen, wire, old(frames), ctl, torn, f);
      if closeSent {
        return Some(CloseSent), ctl;
      } else if frameType == CLOSE_MESSAGE {
        closeSent := true;
      }
      ghost var before, wasOpen := wire, connOpen;
      var failed, out := WriteAll(bufs);
      if failed {
        WireAfterFailure(isServer, false, wasOpen, before, frames, torn, frameType == CLOSE_MESSAGE, out, f);
        torn := torn + out;
        return Some(Network), ctl;
      }
      WireAfterFrame(isServer, true, before, frames, torn, f);
      frames := frames + [f];
      return None, ctl;
    }

    // ----- Frames built in writeBuf -----

    /** A length goes into its place in writeBuf, in k bytes of network byte order. */
    method PutUint(at: nat, k: nat, n: nat)
      requires at + k <= writeBuf.Length
      modifies writeBuf
      ensures writeBuf[..at] == old(writeBuf[..at]) && writeBuf[at + k..] == old(writeBuf[at + k..])
      ensures writeBuf[at..at + k] == BigEndian(k, n)
    {
      var s := BigEndian(k, n);
      forall i | 0 <= i < k {
        writeBuf[at + i] := s[i];
      }
    }

    /** Bytes go into their place in writeBuf, and the rest of it stays. */
    method PutBytes(at: nat, s: seq<byte>)
      requires at + |s| <= writeBuf.Length
      modifies writeBuf
      ensures writeBuf[..at] == old(writeBuf[..at]) && writeBuf[at + |s|..] == old(writeBuf[at + |s|..])
      ensures writeBuf[at..at + |s|] == s
    {
      forall i | 0 <= i < |s| {
        writeBuf[at + i] := s[i];
      }
    }

    /** The two fixed bytes and, after them, the length in k bytes. */
    method PutStart(at: nat, b0: byte, b1: byte, k: nat, length: nat)
      requires at + 2 + k <= writeBuf.Length
      modifies writeBuf
      ensures writeBuf[at + 2 + k..] == old(writeBuf[at + 2 + k..])
      ensures writeBuf[at..at + 2 + k] == [b0, b1] + BigEndian(k, length)
    {
      PutBytes(at, [b0, b1]);
      ghost var start := writeBuf[..at + 2];
      PutUint(at + 2, k, length);
      assert writeBuf[..at + 2 + k] == start + BigEndian(k, length);
    }

    /** The end of the header, less the key. */
    function KeyStart(): nat {
      if isServer then MAX_FRAME_HEADER_SIZE else MAX_FRAME_HEADER_SIZE - 4
    }

    /**
      * The first part of flushFrame: the header, less the key, ends right where the key or
      * the payload starts. The payload is not touched.
      */
    method PutHeader(final: bool, length: nat) returns (framePos: nat)
      requires MAX_FRAME_HEADER_SIZE <= writeBuf.Length && 0 <= writeFrameType < 16
      modifies writeBuf
      ensures framePos + |HeaderStart(final, writeFrameType, !isServer, length)| == KeyStart()
      ensures writeBuf[framePos..KeyStart()] == HeaderStart(final, writeFrameType, !isServer, length)
      ensures writeBuf[MAX_FRAME_HEADER_SIZE..] == old(writeBuf[MAX_FRAME_HEADER_SIZE..])
    {
      hide BigEndian, OpeningByte, LengthByte;
      var b0 := OpeningByte(final, writeFrameType);
      framePos := if isServer then 4 else 0;
      var tail := writeBuf[KeyStart()..];
      assert writeBuf[MAX_FRAME_HEADER_SIZE..] == tail[MAX_FRAME_HEADER_SIZE - KeyStart()..];
      if length >= 65536 {
        PutStart(framePos, b0, LengthByte(!isServer, 127), 8, length);
      } else if length > 125 {
        framePos := framePos + 6;
        PutStart(framePos, b0, LengthByte(!isServer, 126), 2, length);
      } else {
        framePos := framePos + 8;
        PutStart(framePos, b0, LengthByte(!isServer, length), 0, length);
      }
      assert writeBuf[KeyStart()..] == tail;
      assert writeBuf[MAX_FRAME_HEADER_SIZE..] == tail[MAX_FRAME_HEADER_SIZE - KeyStart()..];
    }

    /** The payload bytes that wait in writeBuf. */
    ghost function Buffered(): seq<byte>
      requires MAX_FRAME_HEADER_SIZE <= writePos <= writeBuf.Length
      reads this`writePos, writeBuf
    {
      writeBuf[MAX_FRAME_HEADER_SIZE..writePos]
    }

    /** flushFrame up to the write: header, key and masked payload stand in a row in writeBuf. */
    method BuildFrame(final: bool, length: nat) returns (framePos: nat, ghost key: Option<Key>)
      requires 0 <= writeFrameType < 16 && MAX_FRAME_HEADER_SIZE <= writePos <= writeBuf.Length
      modifies writeBuf
      ensures framePos <= MAX_FRAME_HEADER_SIZE && (key.Some? <==> !isServer)
      ensures writeBuf[framePos..writePos]
           == HeaderStart(final, writeFrameType, !isServer, length)
            + (if key.Some? then key.value + Masked(key.value, 0, old(Buffered())) else old(Buffered()))
    {
      hide HeaderStart, Masked;
      framePos := PutHeader(final, length);
      ghost var start := writeBuf[framePos..KeyStart()];
      assert Buffered() == old(Buffered()) by {
        assert Buffered() == writeBuf[MAX_FRAME_HEADER_SIZE..][..writePos - MAX_FRAME_HEADER_SIZE];
        assert old(Buffered()) == old(writeBuf[MAX_FRAME_HEADER_SIZE..])[..writePos - MAX_FRAME_HEADER_SIZE];
      }
      if isServer {
        key := None;
        assert writeBuf[framePos..writePos] == start + Buffered();
      } else {
        var k := NewMaskKey();
        key := Some(k);
        KeyAndMask(framePos, k);
      }
    }

    method KeyAndMask(framePos: nat, k: Key)
      requires !isServer && framePos <= KeyStart() && MAX_FRAME_HEADER_SIZE <= writePos <= writeBuf.Length
      modifies writeBuf
      ensures writeBuf[framePos..writePos] == old(writeBuf[framePos..KeyStart()]) + (k + Masked(k, 0, old(Buffered())))
    {
      hide Masked;
      PutBytes(KeyStart(), k);
      assert Buffered() == old(Buffered()) by {
        assert Buffered() == writeBuf[MAX_FRAME_HEADER_SIZE..][..writePos - MAX_FRAME_HEADER_SIZE];
        assert old(Buffered()) == old(writeBuf[MAX_FRAME_HEADER_SIZE..])[..writePos - MAX_FRAME_HEADER_SIZE];
      }
      ghost var head := writeBuf[..MAX_FRAME_HEADER_SIZE];
      assert head[framePos..] == old(writeBuf[framePos..KeyStart()]) + k;
      var next := MaskBytes(k, 0, writeBuf, MAX_FRAME_HEADER_SIZE, writePos);
      assert writeBuf[..MAX_FRAME_HEADER_SIZE] == head;
      assert writeBuf[framePos..writePos] == head[framePos..] + Buffered();
    }

    /** The message left open by the frames sent so far. */
    ghost function Open(): Option<Message>
      reads this`frames
    {
      Assembled(frames).open
    }

    ghost predicate Valid()
      reads this, writeBuf
    {
      && WireOk()
      && MAX_FRAME_HEADER_SIZE < writeBuf.Length
      && MAX_FRAME_HEADER_SIZE <= writePos <= writeBuf.Length
      && (writeFrameType == NO_FRAME || writeFrameType == CONTINUATION_FRAME || IsControl(writeFrameType) || IsData(writeFrameType))
      && (writeErr.None? ==> (Open().Some? <==> writeFrameType == CONTINUATION_FRAME))
      && (writeErr.None? && writeFrameType == NO_FRAME ==> writePos == MAX_FRAME_HEADER_SIZE)
      && (writeErr == Some(Internal) || Justified(writeErr))
      && (writeErr != Some(Network) ==> OnlyControlTorn(torn))
    }

    /** What is torn, unless it is a control frame, is a part of the message that s is writing. */
    ghost predicate Cuts(s: Written)
      reads this`frames, this`torn
    {
      OnlyControlTorn(torn) || exists f :: Beginning(isServer, frames, torn, f) && CutBy(frames, f, s)
    }

    /** The outcome of a call that failed, in which s would have been written. */
    ghost predicate Broke(err: Option<WriteError>, s: Written)
      reads this`frames, this`torn, this`writeErr
    {
      (writeErr.None? || err == writeErr) && Cuts(s)
    }

    /** flushFrame refuses a control message that does not fit one small frame. */
    ghost predicate Refused(final: bool, extra: seq<byte>)
      reads this`writeFrameType, this`writePos
    {
      IsControl(writeFrameType) && (!final || writePos - MAX_FRAME_HEADER_SIZE + |extra| > MAX_CONTROL_PAYLOAD)
    }

    /** A frame is started, and nothing has failed so far. */
    ghost predicate Ready()
      reads this, writeBuf
    {
      Valid() && writeErr.None? && writeFrameType != NO_FRAME
    }

    method FlushFrame(final: bool, extra: seq<byte>) returns (err: Option<WriteError>, ghost ctl: seq<Frame>, ghost f: Frame)
      requires Ready() && writeBuf.Length + |extra| < 0x8000_0000_0000_0000
      modifies this, writeBuf
      ensures Valid() && AllControl(ctl)
      ensures f.payload == old(Buffered()) + extra && f.opcode == old(writeFrameType) && f.fin == final
      ensures frames == old(frames) + ctl + if err.None? then [f] else []
      ensures err.None? ==> CanFollow(old(frames), f)
      ensures OnlyControlTorn(torn) || Beginning(isServer, frames, torn, f)
      ensures old(Refused(final, extra)) || (!isServer && extra != []) || Justified(err)
      ensures writeFrameType == NO_FRAME || writeFrameType == CONTINUATION_FRAME || err == Some(Internal)
      ensures if old(Refused(final, extra)) then
                err == Some(InvalidControl) && writeErr.None? && ctl == [] && wire == old(wire)
                && writeFrameType == NO_FRAME && writePos == MAX_FRAME_HEADER_SIZE && writeSeq == old(writeSeq) + 1
              else if !isServer && extra != [] then
                err == writeErr == Some(Internal) && ctl == [] && wire == old(wire) && writeSeq == old(writeSeq)
              else
                err == writeErr && writePos == MAX_FRAME_HEADER_SIZE
                && writeFrameType == (if final then NO_FRAME else CONTINUATION_FRAME)
                && writeSeq == old(writeSeq) + (if final then 1 else 0)
    {
      hide WireGood, Encode, Frame.SentBy, CanFollow, AllControl, Masked, HeaderStart, Assembled, OnlyControlTorn, Beginning;
      var length := writePos - MAX_FRAME_HEADER_SIZE + |extra|;
      f := FlushedFrame(final, writeFrameType, None, Buffered() + extra);
      ctl := [];
      NoControls();
      if IsControl(writeFrameType) && (!final || length > MAX_CONTROL_PAYLOAD) {
        writeSeq := writeSeq + 1;
        writeFrameType := NO_FRAME;
        writePos := MAX_FRAME_HEADER_SIZE;
        return Some(InvalidControl), ctl, f;
      }
      var framePos, key := BuildFrame(final, length);
      if !isServer && |extra| > 0 {
        writeErr := Some(Internal);
        return writeErr, ctl, f;
      }
      f := FlushedFrame(final, writeFrameType, key, old(Buffered()) + extra);
      BuiltIsEncoded(final, writeFrameType, key, old(Buffered()), extra, isServer, writeBuf[framePos..writePos]);
      FlushCanFollow(isServer, closeSent, connOpen, wire, frames, torn, f);
      writeErr, ctl := LockedWrite(writeFrameType, [writeBuf[framePos..writePos], extra], f);
      writePos := MAX_FRAME_HEADER_SIZE;
      writeFrameType := CONTINUATION_FRAME;
      if final {
        writeSeq := writeSeq + 1;
        writeFrameType := NO_FRAME;
      }
      if writeErr.None? {
        OpenAfterFlush(old(frames), ctl, f);
      }
      return writeErr, ctl, f;
    }

    // ----- Messages -----

    ghost function State(): Written
      requires MAX_FRAME_HEADER_SIZE <= writePos <= writeBuf.Length
      reads this`frames, this`writePos, this`writeFrameType, writeBuf
    {
      Written(DataMessages(Assembled(frames).done), CurrentMessage(Assembled(frames).open, writeFrameType, Buffered()))
    }

    /** flushFrame at the level of messages. */
    method Flush(final: bool, extra: seq<byte>) returns (err: Option<WriteError>)
      requires Ready() && (isServer || extra == []) && writeBuf.Length + |extra| < 0x8000_0000_0000_0000
      modifies this, writeBuf
      ensures Valid()
      ensures err.None? ==> writeErr.None? && writePos == MAX_FRAME_HEADER_SIZE
      ensures err.None? ==> writeFrameType == if final then NO_FRAME else CONTINUATION_FRAME
      ensures err.None? ==> writeSeq == old(writeSeq) + if final then 1 else 0
      ensures err.None? ==> State() == if final then Finish(Append(old(State()), extra)) else Append(old(State()), extra)
      ensures err.None? ==> frames != [] && LastFrame(frames, final, old(writeFrameType), old(Buffered()) + extra)
      ensures err.Some? ==> State().delivered == old(State().delivered)
      ensures err == Some(InvalidControl) <==> old(Refused(final, extra))
      ensures err == Some(InvalidControl) || Justified(err)
      ensures err.Some? && writeErr.None? ==> err == Some(InvalidControl) && State().current.None? && writeSeq == old(writeSeq) + 1
      ensures writeSeq >= old(writeSeq)
      ensures err.Some? ==> Broke(err, Append(old(State()), extra))
    {
      hide WireGood, Encode, Frame.SentBy, CanFollow, AllControl, Assembled, DataMessages, Accept, OnlyControlTorn, Beginning, CutBy;
      ghost var fs, waiting := frames, Buffered();
      ghost var ctl, f;
      err, ctl, f := FlushFrame(final, extra);
      if err.None? {
        FlushSent(fs, ctl, f, waiting, extra);
        assert Buffered() == [];
        assert frames[|frames| - 1] == f;
      } else {
        FlushFailed(fs, ctl);
        assert frames == fs + ctl;
        if !OnlyControlTorn(torn) {
          FlushCut(isServer, fs, ctl, torn, f, waiting, extra);
        }
      }
    }

    lemma CutsMore(s: Written, p: seq<byte>, q: seq<byte>)
      requires Cuts(Append(s, p))
      ensures Cuts(Append(s, p + q))
    {
      hide Assembled, Beginning, OnlyControlTorn, DataMessages, WithFrame;
      AppendTwice(s, p, q);
      if f :| Beginning(isServer, frames, torn, f) && CutBy(frames, f, Append(s, p)) {
        assert CutBy(frames, f, Append(s, p + q));
      }
    }

    /** messageWriter.ncopy: room in the buffer, after a flush where there is none. */
    method Ncopy(max: nat) returns (n: nat, err: Option<WriteError>)
      requires Ready() && max > 0 && writeBuf.Length < 0x8000_0000_0000_0000
      modifies this, writeBuf
      ensures Valid() && State().delivered == old(State().delivered)
      ensures err.None? ==> Ready() && 0 < n <= max && writePos + n <= writeBuf.Length
      ensures err.None? && (IsControl(writeFrameType) || IsControl(old(writeFrameType))) ==>
        writeFrameType == old(writeFrameType) && writePos == old(writePos)
      ensures err.None? ==> State() == old(State()) && writeSeq == old(writeSeq)
      ensures err == Some(InvalidControl) <==> IsControl(old(writeFrameType)) && old(writePos) >= writeBuf.Length
      ensures err == Some(InvalidControl) || (Justified(err) && (IsControl(old(writeFrameType)) ==> err.None?))
      ensures err.Some? && writeErr.None? ==> State().current.None? && writeSeq == old(writeSeq) + 1
      ensures writeSeq >= old(writeSeq)
      ensures err.Some? ==> Broke(err, old(State()))
    {
      hide WireGood, Assembled, DataMessages, Cuts, OnlyControlTorn;
      AppendNothing(State());
      var room := writeBuf.Length - writePos;
      if room <= 0 {
        err := Flush(false, []);
        if err.Some? {
          return 0, err;
        }
        room := writeBuf.Length - writePos;
      }
      n := if room > max then max else room;
      err := None;
    }

    /** A control message that the buffer has no room for. */
    ghost predicate TooSmallFor(n: nat)
      reads this`writeFrameType, this`writePos
    {
      IsControl(writeFrameType) && writePos + n > writeBuf.Length
    }

    /** The copy loop that messageWriter.write and WriteString share. */
    method CopyIn(p: seq<byte>) returns (err: Option<WriteError>)
      requires Ready() && writeBuf.Length < 0x8000_0000_0000_0000
      modifies this, writeBuf
      ensures Valid() && State().delivered == old(State().delivered)
      ensures err.None? ==> Ready() && State() == Append(old(State()), p) && writeSeq == old(writeSeq)
      ensures err == Some(InvalidControl) <==> old(TooSmallFor(|p|))
      ensures err == Some(InvalidControl) || (Justified(err) && (IsControl(old(writeFrameType)) ==> err.None?))
      ensures err.Some? && writeErr.None? ==> State().current.None? && writeSeq == old(writeSeq) + 1
      ensures writeSeq >= old(writeSeq)
      ensures IsControl(old(writeFrameType)) && err.None? ==>
        writeFrameType == old(writeFrameType) && writePos == old(writePos) + |p|
      ensures err.Some? ==> Broke(err, Append(old(State()), p))
    {
      hide WireGood, Assembled, DataMessages, Append, Cuts, OnlyControlTorn;
      ghost var copied: seq<byte> := [];
      var rest := p;
      AppendNothing(State());
      while |rest| > 0
        invariant Ready() && p == copied + rest && writeSeq == old(writeSeq)
        invariant State() == Append(old(State()), copied) && State().delivered == old(State().delivered)
        invariant IsControl(writeFrameType) || IsControl(old(writeFrameType)) ==>
          writeFrameType == old(writeFrameType) && writePos == old(writePos) + |copied|
      {
        var n;
        n, err := Ncopy(|rest|);
        if err.Some? {
          CutsMore(old(State()), copied, rest);
          return err;
        }
        ghost var before := State();
        PutRest(rest[..n]);
        AppendTwice(old(State()), copied, rest[..n]);
        copied := copied + rest[..n];
        rest := rest[n..];
      }
      assert copied == p;
      err := None;
    }

    /** Bytes for which there is room join the buffered part of the message. */
    method PutRest(s: seq<byte>)
      requires Ready() && writePos + |s| <= writeBuf.Length
      modifies this`writePos, writeBuf
      ensures Ready() && writePos == old(writePos) + |s|
      ensures State() == Append(old(State()), s)
    {
      hide WireGood, Assembled, DataMessages;
      ghost var head := writeBuf[..writePos];
      PutBytes(writePos, s);
      writePos := writePos + |s|;
      assert writeBuf[..writePos] == head + s;
      assert Buffered() == head[MAX_FRAME_HEADER_SIZE..] + s;
      if Open().Some? {
        ExtendedTwice(Open().value, head[MAX_FRAME_HEADER_SIZE..], s);
      }
    }

    /** Why the writer cannot be used any more, if it cannot. */
    function WriterError(w: MessageWriter): Option<WriteError>
      reads this`writeSeq, this`writeErr
    {
      if writeSeq != w.number then Some(WriteClosed) else writeErr
    }

    /**
      * A message writer works only while its message is being written: that is what the
      * sequence number is for. The invariant of every writer NextWriter gave out.
      */
    ghost predicate Live(w: MessageWriter)
      reads this`writeSeq, this`writeErr, this`writeFrameType
    {
      w.number <= writeSeq && (w.number == writeSeq && writeErr.None? ==> writeFrameType != NO_FRAME)
    }

    method NextWriter(messageType: int) returns (w: MessageWriter, err: Option<WriteError>)
      requires Valid() && writeBuf.Length < 0x8000_0000_0000_0000
      modifies this, writeBuf
      ensures Valid()
      ensures forall v :: old(Live(v)) ==> Live(v)
      ensures err.None? ==> State() == Begin(old(State()), messageType) && Ready() && w.number == writeSeq
      ensures err.None? ==> writeFrameType == messageType && writePos == MAX_FRAME_HEADER_SIZE
      ensures err.Some? ==> State().delivered == old(State().delivered) || State() == Finish(old(State()))
      ensures old(writeErr).Some? ==> err == old(writeErr)
      ensures err == Some(BadOpCode) ==> !IsControl(messageType) && !IsData(messageType)
      ensures !IsControl(messageType) && !IsData(messageType) ==> err.Some?
      ensures old(writeErr).None? && err != Some(BadOpCode) ==>
        err == Some(InvalidControl) || Justified(err)
      ensures old(writeErr).None? ==> (err == Some(InvalidControl) <==> old(Refused(true, [])))
      ensures old(writeErr).None? && old(writeFrameType) == NO_FRAME ==>
        err == if IsControl(messageType) || IsData(messageType) then None else Some(BadOpCode)
      ensures old(writeErr).None? && err.Some? ==> Broke(err, old(State()))
    {
      hide WireGood, Assembled, DataMessages, OnlyControlTorn;
      w := MessageWriter(writeSeq);
      if writeErr.Some? {
        return w, writeErr;
      }
      if writeFrameType != NO_FRAME {
        AppendNothing(State());
        err := Flush(true, []);
        if err.Some? {
          return w, err;
        }
      }
      if !IsControl(messageType) && !IsData(messageType) {
        return w, Some(BadOpCode);
      }
      assert Buffered() == [] && Open().None?;
      writeFrameType := messageType;
      assert Buffered() == [];
      return MessageWriter(writeSeq), None;
    }

    /** Large messages of a server are not buffered. */
    predicate Unbuffered(p: seq<byte>) {
      |p| > 2 * writeBuf.Length && isServer
    }

    /** A control message that one frame from the buffer, or past it, cannot carry. */
    ghost predicate NoRoom(final: bool, p: seq<byte>)
      reads this`writeFrameType, this`writePos
    {
      if Unbuffered(p) then Refused(final, p) else TooSmallFor(|p|)
    }

    /** What Write and WriteMessage share: final says that p is the end of the message. */
    method WriteBytes(w: MessageWriter, final: bool, p: seq<byte>) returns (n: nat, err: Option<WriteError>)
      requires Valid() && Live(w) && writeBuf.Length + |p| < 0x8000_0000_0000_0000
      modifies this, writeBuf
      ensures Valid()
      ensures forall v :: old(Live(v)) ==> Live(v)
      ensures old(WriterError(w)).Some? ==> err == old(WriterError(w)) && State() == old(State()) && wire == old(wire)
      ensures old(WriterError(w)).None? ==> (err == Some(InvalidControl) <==> old(NoRoom(final, p)))
      ensures old(WriterError(w)).None? ==> err == Some(InvalidControl) || Justified(err)
      ensures old(WriterError(w)).None? && IsControl(old(writeFrameType)) && !Unbuffered(p) && err != Some(InvalidControl) ==>
        err.None? && writeFrameType == old(writeFrameType) && writePos == old(writePos) + |p|
      ensures err.None? ==> n == |p|
      ensures err.None? && !(final && Unbuffered(p)) ==>
        Ready() && State() == Append(old(State()), p) && writeSeq == old(writeSeq)
      ensures err.None? && final && Unbuffered(p) ==>
        State() == Finish(Append(old(State()), p)) && writeErr.None? && writeSeq == old(writeSeq) + 1
        && frames != [] && LastFrame(frames, true, old(writeFrameType), old(Buffered()) + p)
      ensures err.Some? ==> n == 0 && State().delivered == old(State().delivered)
      ensures old(writeErr).None? && err.Some? ==> Broke(err, Append(old(State()), p))
    {
      hide WireGood, Assembled, DataMessages, Append, LastFrame, OnlyControlTorn;
      err := WriterError(w);
      if err.Some? {
        return 0, err;
      }
      if Unbuffered(p) {
        err := Flush(final, p);
        return if err.None? then |p| else 0, err;
      }
      err := CopyIn(p);
      return if err.None? then |p| else 0, err;
    }

    /** A control message is refused exactly if it is too big; only a data message can fail on the way. */
    ghost predicate Copied(err: Option<WriteError>, tooBig: bool, control: bool)
      reads this`closeSent, this`connOpen
    {
      (err == Some(InvalidControl) <==> tooBig) && (err == Some(InvalidControl) || Justified(err)) && (control && !tooBig ==> err.None?)
    }

    /** Write, and WriteString on the bytes of the string: no part of a message is completed. */
    method Write(w: MessageWriter, p: seq<byte>) returns (n: nat, err: Option<WriteError>)
      requires Valid() && Live(w) && writeBuf.Length + |p| < 0x8000_0000_0000_0000
      modifies this, writeBuf
      ensures Valid()
      ensures forall v :: old(Live(v)) ==> Live(v)
      ensures old(WriterError(w)).Some? ==> err == old(WriterError(w)) && State() == old(State()) && wire == old(wire)
      ensures old(WriterError(w)).None? ==> Copied(err, old(TooSmallFor(|p|)), IsControl(old(writeFrameType)))
      ensures err.None? ==> n == |p| && State() == Append(old(State()), p) && writeErr.None? && writeSeq == old(writeSeq)
      ensures err.Some? ==> n == 0 && State().delivered == old(State().delivered)
      ensures old(writeErr).None? && err.Some? ==> Broke(err, Append(old(State()), p))
      ensures IsControl(old(writeFrameType)) && err.None? ==>
        writeFrameType == old(writeFrameType) && writePos == old(writePos) + |p|
    {
      hide WireGood, Assembled, DataMessages, Append, OnlyControlTorn, Cuts;
      n, err := WriteBytes(w, false, p);
    }

    method WriteString(w: MessageWriter, p: seq<byte>) returns (n: nat, err: Option<WriteError>)
      requires Valid() && Live(w) && writeBuf.Length + |p| < 0x8000_0000_0000_0000
      modifies this, writeBuf
      ensures Valid()
      ensures forall v :: old(Live(v)) ==> Live(v)
      ensures old(WriterError(w)).Some? ==> err == old(WriterError(w)) && State() == old(State()) && wire == old(wire)
      ensures old(WriterError(w)).None? ==> Copied(err, old(TooSmallFor(|p|)), IsControl(old(writeFrameType)))
      ensures err.None? ==> n == |p| && State() == Append(old(State()), p) && writeErr.None? && writeSeq == old(writeSeq)
      ensures err.Some? ==> n == 0 && State().delivered == old(State().delivered)
      ensures old(writeErr).None? && err.Some? ==> Broke(err, Append(old(State()), p))
    {
      hide WireGood, Assembled, DataMessages, Append, OnlyControlTorn;
      err := WriterError(w);
      if err.Some? {
        return 0, err;
      }
      err := CopyIn(p);
      return if err.None? then |p| else 0, err;
    }

    /** One Read of ReadFrom, straight into the free part of writeBuf. */
    method ReadIn(r: Source) returns (n: nat, err: Option<ReadError>)
      requires Ready() && writePos < writeBuf.Length
      modifies this`writePos, writeBuf, r
      ensures Ready() && n <= |old(r.Rest())| && r.Rest() == old(r.Rest())[n..] && writePos == old(writePos) + n
      ensures State() == Append(old(State()), old(r.Rest())[..n])
      ensures err.Some? ==> r.Rest() == [] && err.value == r.fault
      ensures err.Some? && !r.eager ==> n == 0
      ensures err.None? ==> r.Measure() < old(r.Measure()) && (r.eager ==> r.Rest() != [])
    {
      hide WireGood, Assembled, DataMessages, Flatten;
      ghost var head := writeBuf[..writePos];
      n, err := r.Read(writeBuf, writePos, writeBuf.Length);
      ghost var got := writeBuf[writePos..writePos + n];
      assert writeBuf[..writePos + n] == head + got;
      writePos := writePos + n;
      assert Buffered() == head[MAX_FRAME_HEADER_SIZE..] + got;
      if Open().Some? {
        ExtendedTwice(Open().value, head[MAX_FRAME_HEADER_SIZE..], got);
      }
    }

    /**
      * ReadFrom looks for room before it looks for the end of r: a control message that just
      * fills the buffer is refused too, unless r reports its end with its last byte.
      */
    ghost predicate Overfills(r: Source)
      reads this`writeFrameType, this`writePos, r
    {
      IsControl(writeFrameType)
      && (writePos + |r.Rest()| > writeBuf.Length
          || (writePos + |r.Rest()| == writeBuf.Length && (r.eager ==> r.Rest() == [])))
    }

    /** ReadFrom appends everything that r has, in whatever pieces it comes. */
    method ReadFrom(w: MessageWriter, r: Source) returns (nn: nat, err: Option<WriteError>)
      requires Valid() && Live(w) && writeBuf.Length < 0x8000_0000_0000_0000
      modifies this, writeBuf, r
      ensures Valid()
      ensures forall v :: old(Live(v)) ==> Live(v)
      ensures old(WriterError(w)).Some? ==> err == old(WriterError(w)) && State() == old(State()) && wire == old(wire)
      ensures old(WriterError(w)).None? ==> (err == Some(InvalidControl) <==> old(Overfills(r)))
      ensures old(WriterError(w)).None? && err != Some(ReaderFailed) ==> err == Some(InvalidControl) || Justified(err)
      ensures err.None? ==> r.fault == EOF && writeErr.None?
      ensures err.None? || err == Some(ReaderFailed) ==>
        old(WriterError(w)).None? ==> nn == |old(r.Rest())| && r.Rest() == [] && State() == Append(old(State()), old(r.Rest()))
      ensures err.Some? ==> State().delivered == old(State().delivered)
      ensures old(writeErr).None? && err.Some? ==> Broke(err, Append(old(State()), old(r.Rest())))
    {
      hide WireGood, Assembled, DataMessages, Append, Flatten, OnlyControlTorn;
      nn := 0;
      err := WriterError(w);
      if err.Some? {
        return 0, err;
      }
      AppendNothing(State());
      ghost var all, number := r.Rest(), writeSeq;
      while true
        invariant Ready() && writeSeq == number && nn <= |all| && r.Rest() == all[nn..]
        invariant State() == Append(old(State()), all[..nn]) && State().delivered == old(State().delivered)
        invariant IsControl(writeFrameType) ==> old(writeFrameType) == writeFrameType && writePos == old(writePos) + nn
        invariant IsControl(old(writeFrameType)) ==> IsControl(writeFrameType)
        invariant r.eager && nn > 0 ==> nn < |all|
        decreases r.Measure()
      {
        if writePos == writeBuf.Length {
          AppendNothing(Append(old(State()), all[..nn]));
          err := Flush(false, []);
          if err.Some? {
            assert all == all[..nn] + all[nn..];
            CutsMore(old(State()), all[..nn], all[nn..]);
            return nn, err;
          }
        }
        var n, readErr := ReadIn(r);
        TakeMore(all, nn, n);
        AppendTwice(old(State()), all[..nn], all[nn..][..n]);
        nn := nn + n;
        if readErr.Some? {
          assert all[..nn] == all;
          return nn, if readErr.value == EOF then None else Some(ReaderFailed);
        }
      }
    }

    /** Close completes the message. */
    method Close(w: MessageWriter) returns (err: Option<WriteError>)
      requires Valid() && Live(w) && writeBuf.Length < 0x8000_0000_0000_0000
      modifies this, writeBuf
      ensures Valid()
      ensures forall v :: old(Live(v)) ==> Live(v)
      ensures old(WriterError(w)).Some? ==> err == old(WriterError(w)) && State() == old(State()) && wire == old(wire)
      ensures old(WriterError(w)).None? ==> (err == Some(InvalidControl) <==> old(Refused(true, [])))
      ensures old(WriterError(w)).None? ==> err == Some(InvalidControl) || Justified(err)
      ensures err.None? ==> State() == Finish(old(State())) && WriterError(w) == Some(WriteClosed) && writeErr.None?
      ensures err.None? ==>
        && frames != [] && var f := frames[|frames| - 1];
        f.fin && f.opcode == old(writeFrameType) && f.payload == old(Buffered())
      ensures err.Some? ==> State().delivered == old(State().delivered)
      ensures old(writeErr).None? && err.Some? ==> Broke(err, old(State()))
    {
      hide WireGood, Assembled, DataMessages, Append, OnlyControlTorn;
      err := WriterError(w);
      if err.Some? {
        return;
      }
      AppendNothing(State());
      assert Buffered() + [] == Buffered();
      err := Flush(true, []);
    }

    /** A control message that WriteMessage cannot send as one frame. */
    predicate TooBigToSend(data: seq<byte>) {
      |data| > MAX_CONTROL_PAYLOAD || (!Unbuffered(data) && MAX_FRAME_HEADER_SIZE + |data| > writeBuf.Length)
    }

    /** WriteMessage closes the message that may be open, and sends one that holds exactly data. */
    method WriteMessage(messageType: int, data: seq<byte>) returns (err: Option<WriteError>)
      requires Valid() && writeBuf.Length + |data| < 0x8000_0000_0000_0000
      modifies this, writeBuf
      ensures Valid()
      ensures forall v :: old(Live(v)) ==> Live(v)
      ensures old(writeErr).Some? ==> err == old(writeErr)
      ensures old(writeErr).None? && IsData(messageType) && !old(Refused(true, [])) ==> Justified(err)
      ensures old(writeErr).None? && old(Refused(true, [])) ==> err == Some(InvalidControl)
      ensures old(writeErr).None? && IsControl(messageType) && TooBigToSend(data) ==> err.Some?
      ensures old(writeErr).None? && err == Some(InvalidControl) ==>
        old(Refused(true, [])) || (IsControl(messageType) && TooBigToSend(data))
      ensures old(writeErr).None? && old(writeFrameType) == NO_FRAME && IsControl(messageType) ==>
        (err == Some(InvalidControl) <==> TooBigToSend(data))
      ensures err.None? ==> State() == Finish(Append(Begin(old(State()), messageType), data))
      ensures err.None? && IsControl(messageType) ==>
        frames != [] && var f := frames[|frames| - 1]; f.fin && f.opcode == messageType && f.payload == data
      ensures old(writeErr).None? && IsControl(messageType) && |data| > 125 ==> err.Some?
      ensures err.Some? ==> old(State().delivered) <= State().delivered <= Finish(old(State())).delivered
      ensures err.None? ==> writeErr.None?
      ensures old(writeErr).None? && err.Some? ==>
        Broke(err, old(State())) || Broke(err, Append(Begin(old(State()), messageType), data))
    {
      hide WireGood, Assembled, DataMessages, OnlyControlTorn, Cuts;
      var w;
      w, err := NextWriter(messageType);
      if err.Some? {
        return;
      }
      ghost var begun := State();
      assert Buffered() == [] && Buffered() + data == data;
      var n;
      n, err := WriteBytes(w, true, data);
      if err.Some? {
        return;
      }
      if writeSeq == w.number {
        AppendNothing(State());
        assert Buffered() + [] == Buffered();
        if IsControl(messageType) {
          ControlIsWhole(frames, writeFrameType, Buffered(), Message(messageType, data));
        }
        err := Flush(true, []);
      }
    }

    // ----- Control messages -----

    /**
      * WriteControl, from any goroutine, while the message writer may be anywhere between two
      * frames of a message. timedOut says that the deadline passed before mu was free.
      */
    method WriteControl(messageType: int, data: seq<byte>, timedOut: bool) returns (err: Option<WriteError>)
      requires Valid()
      modifies this`closeSent, this`connOpen, this`wire, this`frames, this`torn
      ensures Valid() && State() == old(State())
      ensures err == Some(BadOpCode) <==> !IsControl(messageType)
      ensures err == Some(InvalidControl) <==> IsControl(messageType) && |data| > MAX_CONTROL_PAYLOAD
      ensures err == Some(BadOpCode) || err == Some(InvalidControl) || err == Some(Timeout) ==> frames == old(frames) && wire == old(wire)
      ensures err == Some(CloseSent) ==> closeSent
      ensures err.None? ==>
        frames != [] && var f := frames[|frames| - 1]; f.fin && f.opcode == messageType && f.payload == data
      ensures err.None? && messageType == CLOSE_MESSAGE ==> closeSent
    {
      hide WireGood, Assembled, DataMessages, Encode, Frame.SentBy, OpeningByte, LengthByte, Masked, AllControl, GoodControl;
      if !IsControl(messageType) {
        return Some(BadOpCode);
      }
      if |data| > MAX_CONTROL_PAYLOAD {
        return Some(InvalidControl);
      }
      var buf := [OpeningByte(true, messageType), LengthByte(!isServer, |data|)];
      var key := NewMaskKey();
      if isServer {
        buf := buf + data;
      } else {
        buf := buf + key + Masked(key, 0, data);
      }
      ghost var f := ControlFrame(messageType, data, key);
      ControlBytes(messageType, data, key, isServer, f);
      if timedOut {
        return Some(Timeout);
      }
      ghost var fs := frames;
      ghost var ctl := OtherCallers();
      err := ControlSection(messageType, buf, f);
      ghost var ctl' := if err.None? then ctl + [f] else ctl;
      assert AllControl(ctl') by { ControlsAppend(ctl, f); }
      assert frames == fs + ctl';
      ControlsChangeNothing(fs, ctl');
    }

    constructor (isServer: bool, writeBufferSize: nat)
      ensures Valid() && writeErr.None? && this.isServer == isServer && fresh(writeBuf)
      ensures State() == Written([], None) && wire == [] && frames == [] && !closeSent && connOpen
      ensures writeFrameType == NO_FRAME
      ensures writeBuf.Length == MAX_FRAME_HEADER_SIZE + if writeBufferSize == 0 then 4096 else writeBufferSize
    {
      var size := if writeBufferSize == 0 then 4096 else writeBufferSize;
      this.isServer := isServer;
      this.writeBuf := new byte[size + MAX_FRAME_HEADER_SIZE];
      closeSent, connOpen, wire, frames, torn := false, true, [], [], [];
      writeErr, writePos, writeFrameType, writeSeq := None, MAX_FRAME_HEADER_SIZE, NO_FRAME, 0;
    }
  }

  /** A control message that just fills the buffer: Write takes it, and Close may fail on the wire only, */
  method ControlThatFillsBuffer(isServer: bool, messageType: int, data: seq<byte>)
    returns (err: Option<WriteError>, closing: Option<WriteError>)
    requires IsControl(messageType) && 0 < |data| <= MAX_CONTROL_PAYLOAD
    ensures err.None? && (closing.None? || closing == Some(Network) || closing == Some(CloseSent))
  {
    hide WireGood, Assembled, DataMessages, Append, Begin, Finish;
    var c := new WriteConn(isServer, |data|);
    var w;
    w, err := c.NextWriter(messageType);
    var n;
    n, err := c.Write(w, data);
    closing := c.Close(w);
  }

  /** and ReadFrom refuses it. */
  method ControlReadFromFillsBuffer(isServer: bool, messageType: int, data: seq<byte>) returns (err: Option<WriteError>)
    requires IsControl(messageType) && 0 < |data| <= MAX_CONTROL_PAYLOAD
    ensures err == Some(InvalidControl)
  {
    hide WireGood, Assembled, DataMessages, Append, Begin, Finish, Flatten;
    var c := new WriteConn(isServer, |data|);
    var w;
    w, err := c.NextWriter(messageType);
    var r := new Source([data], EOF, false);
    FlattenOne(data);
    var n;
    n, err := c.ReadFrom(w, r);
  }

  lemma ControlsAppend(ctl: seq<Frame>, f: Frame)
    requires AllControl(ctl) && GoodControl(f)
    ensures AllControl(ctl + [f])
  {
  }

  lemma ControlsChangeNothing(fs: seq<Frame>, ctl: seq<Frame>)
    requires AllControl(ctl)
    ensures DataMessages(Assembled(fs + ctl).done) == DataMessages(Assembled(fs).done)
    ensures Assembled(fs + ctl).open == Assembled(fs).open
  {
    hide AllControl;
    FlushFailed(fs, ctl);
    if Assemble(EMPTY_ASSEMBLY, fs).Some? {
      AssembleControls(fs, ctl);
    } else {
      RejectionStays(fs, ctl);
    }
  }

  lemma ControlBytes(messageType: int, data: seq<byte>, key: Key, isServer: bool, f: Frame)
    requires IsControl(messageType) && |data| <= MAX_CONTROL_PAYLOAD
    requires f == Frame(true, 0, messageType, if isServer then None else Some(key), Short, data)
    ensures f.Encodable()
    ensures Encode(f)
         == [OpeningByte(true, messageType), LengthByte(!isServer, |data|)]
          + (if isServer then data else key + Masked(key, 0, data))
  {
    hide OpeningByte, LengthByte, Masked, FirstByte, SecondByte;
    FirstByteSent(f, isServer);
    SecondByteSent(f, isServer);
  }

  predicate LastFrame(fs: seq<Frame>, final: bool, opcode: int, payload: seq<byte>)
    requires fs != []
  {
    var f := fs[|fs| - 1];
    f.fin == final && f.opcode == opcode && f.payload == payload
  }

  lemma AppendNothing(s: Written)
    ensures Append(s, []) == s
  {
    if s.current.Some? {
      assert s.current.value.payload + [] == s.current.value.payload;
    }
  }

  /** The message being written: what its frames so far carry, and what waits in the buffer. */
  function CurrentMessage(open: Option<Message>, frameType: int, buffered: seq<byte>): Option<Message> {
    if frameType == NO_FRAME then None
    else if open.Some? then Some(Extended(open.value, buffered))
    else Some(Message(frameType, buffered))
  }

  lemma {:induction false} OpenIsData(a: Assembly, fs: seq<Frame>)
    requires DataOpen(a) && Assemble(a, fs).Some?
    ensures DataOpen(Assemble(a, fs).value)
    decreases |fs|
  {
    if fs != [] {
      OpenIsData(Accept(a, fs[0]).value, fs[1..]);
    }
  }

  lemma ExtendedTwice(m: Message, p: seq<byte>, q: seq<byte>)
    ensures Extended(Extended(m, p), q) == Extended(m, p + q)
  {
    assert m.payload + p + q == m.payload + (p + q);
  }

  ghost function WrittenOf(fs: seq<Frame>, frameType: int, buffered: seq<byte>): Written {
    Written(DataMessages(Assembled(fs).done), CurrentMessage(Assembled(fs).open, frameType, buffered))
  }

  /** The messages after a flush that went out: frame f after control frames of other callers. */
  lemma FlushSent(fs: seq<Frame>, ctl: seq<Frame>, f: Frame, buffered: seq<byte>, extra: seq<byte>)
    requires AllControl(ctl) && CanFollow(fs, f) && f.payload == buffered + extra
    requires Assembled(fs).open.Some? <==> f.opcode == CONTINUATION_FRAME
    ensures var s := Append(WrittenOf(fs, f.opcode, buffered), extra);
      WrittenOf(fs + ctl + [f], if f.fin then NO_FRAME else CONTINUATION_FRAME, [])
      == if f.fin then Finish(s) else s
  {
    hide AllControl, DataMessages;
    AssembleControls(fs, ctl);
    AssembleAppend(EMPTY_ASSEMBLY, fs + ctl, f);
    OpenIsData(EMPTY_ASSEMBLY, fs);
    var a, c := Assembled(fs), Assembled(fs + ctl);
    var m := WithFrame(a.open, f);
    assert !IsControl(f.opcode) && a.open.Some? ==> m == Extended(Extended(a.open.value, buffered), extra) by {
      if a.open.Some? {
        ExtendedTwice(a.open.value, buffered, extra);
      }
    }
    assert m.payload + [] == m.payload;
    DataMessagesAppend(c.done, m);
  }

  /** The message that a flush was for, when part of its frame f went out after control frames of other callers. */
  lemma FlushCut(isServer: bool, fs: seq<Frame>, ctl: seq<Frame>, torn: seq<byte>, f: Frame, buffered: seq<byte>, extra: seq<byte>)
    requires AllControl(ctl) && Beginning(isServer, fs + ctl, torn, f) && !OnlyControlTorn(torn)
    requires f.payload == buffered + extra
    requires Assembled(fs).open.Some? <==> f.opcode == CONTINUATION_FRAME
    ensures CutBy(fs + ctl, f, Append(WrittenOf(fs, f.opcode, buffered), extra))
  {
    hide AllControl, DataMessages, OpcodeOf, Frame.SentBy, Frame.Encodable, Encode, NoClose;
    TornOpcode(f, torn);
    if Assemble(EMPTY_ASSEMBLY, fs).None? {
      RejectionStays(fs, ctl);
    }
    AssembleControls(fs, ctl);
    OpenIsData(EMPTY_ASSEMBLY, fs);
    var a := Assembled(fs);
    if a.open.Some? {
      ExtendedTwice(a.open.value, buffered, extra);
    }
  }

  lemma FlushFailed(fs: seq<Frame>, ctl: seq<Frame>)
    requires AllControl(ctl)
    ensures DataMessages(Assembled(fs + ctl).done) == DataMessages(Assembled(fs).done)
  {
    if Assemble(EMPTY_ASSEMBLY, fs).Some? {
      AssembleControls(fs, ctl);
    } else {
      RejectionStays(fs, ctl);
    }
  }

  lemma {:induction false} RejectionStays(fs: seq<Frame>, gs: seq<Frame>)
    requires Assemble(EMPTY_ASSEMBLY, fs).None?
    ensures Assemble(EMPTY_ASSEMBLY, fs + gs).None?
    decreases |gs|
  {
    if gs == [] {
      assert fs + gs == fs;
    } else {
      var n := |gs| - 1;
      RejectionStays(fs, gs[..n]);
      AssembleAppend(EMPTY_ASSEMBLY, fs + gs[..n], gs[n]);
      assert fs + gs == fs + gs[..n] + [gs[n]];
    }
  }

  /** A control message being written has no frame on the wire yet. */
  lemma ControlIsWhole(fs: seq<Frame>, frameType: int, buffered: seq<byte>, m: Message)
    requires CurrentMessage(Assembled(fs).open, frameType, buffered) == Some(m) && IsControl(m.opcode)
    ensures frameType == m.opcode && buffered == m.payload
  {
    if Assemble(EMPTY_ASSEMBLY, fs).Some? {
      OpenIsData(EMPTY_ASSEMBLY, fs);
    }
  }

  lemma NoControls()
    ensures AllControl([])
  {
  }

  lemma FlushCanFollow(isServer: bool, closeSent: bool, connOpen: bool, wire: seq<byte>, frames: seq<Frame>, torn: seq<byte>, f: Frame)
    requires WireGood(isServer, closeSent, connOpen, wire, frames, torn)
    requires IsControl(f.opcode) || IsData(f.opcode) || f.opcode == CONTINUATION_FRAME
    requires Assembled(frames).open.Some? <==> f.opcode == CONTINUATION_FRAME
    requires IsControl(f.opcode) ==> GoodControl(f)
    ensures CanFollow(frames, f)
  {
    hide AllSentBy, AllEncodable, EncodeAll, Encode;
  }

  lemma OpenAfterFlush(fs: seq<Frame>, ctl: seq<Frame>, f: Frame)
    requires AllControl(ctl) && CanFollow(fs, f)
    requires Assembled(fs).open.Some? <==> f.opcode == CONTINUATION_FRAME
    ensures Assembled(fs + ctl + [f]).open.Some? <==> !f.fin
  {
    hide AllControl;
    AssembleControls(fs, ctl);
    AssembleAppend(EMPTY_ASSEMBLY, fs + ctl, f);
  }

  /** The frame that flushFrame sends. */
  function FlushedFrame(final: bool, frameType: int, key: Option<Key>, payload: seq<byte>): Frame {
    Frame(final, 0, frameType, key, MinimalForm(|payload|), payload)
  }

  lemma BuiltIsEncoded(final: bool, frameType: int, key: Option<Key>, buffered: seq<byte>, extra: seq<byte>,
                       isServer: bool, built: seq<byte>)
    requires 0 <= frameType < 16 && (key.Some? <==> !isServer) && |buffered| + |extra| < 0x8000_0000_0000_0000
    requires !isServer ==> extra == []
    requires built == HeaderStart(final, frameType, !isServer, |buffered| + |extra|)
                    + (if key.Some? then key.value + Masked(key.value, 0, buffered) else buffered)
    ensures var f := FlushedFrame(final, frameType, key, buffered + extra);
      f.SentBy(isServer) && Encode(f) == Flatten([built, extra])
  {
    hide HeaderStart, HeaderBytes, Masked, Flatten, MinimalForm;
    var f := FlushedFrame(final, frameType, key, buffered + extra);
    FlushedIsSent(final, frameType, key, buffered + extra, isServer);
    HeaderStartIsHeader(f, isServer);
    FlattenPair(built, extra);
    if isServer {
      assert Encode(f) == HeaderBytes(f) + (buffered + extra);
    } else {
      assert buffered + extra == buffered;
      assert Encode(f) == HeaderBytes(f) + Masked(key.value, 0, buffered);
    }
  }

  lemma FlushedIsSent(final: bool, frameType: int, key: Option<Key>, payload: seq<byte>, isServer: bool)
    requires 0 <= frameType < 16 && (key.Some? <==> !isServer) && |payload| < 0x8000_0000_0000_0000
    ensures FlushedFrame(final, frameType, key, payload).SentBy(isServer)
  {
  }

  /** The header that flushFrame writes in front of the mask key. */
  function HeaderStart(final: bool, frameType: int, masked: bool, length: nat): (s: seq<byte>)
    requires 0 <= frameType < 16
  {
    var b0 := OpeningByte(final, frameType);
    match MinimalForm(length)
    case Long => [b0, LengthByte(masked, 127)] + BigEndian(8, length)
    case Medium => [b0, LengthByte(masked, 126)] + BigEndian(2, length)
    case Short => [b0, LengthByte(masked, length)] + BigEndian(0, length)
  }

  /** b0 of flushFrame. */
  function OpeningByte(final: bool, frameType: int): byte
    requires 0 <= frameType < 16
  {
    if final then ByteOf(frameType) | FINAL_BIT else ByteOf(frameType)
  }

  /** b1 of flushFrame, with the length code. */
  function LengthByte(masked: bool, code: int): byte
    requires 0 <= code < 128
  {
    (if masked then MASK_BIT else 0) | ByteOf(code)
  }

  lemma HeaderStartIsHeader(f: Frame, isServer: bool)
    requires f.SentBy(isServer)
    ensures HeaderBytes(f) == HeaderStart(f.fin, f.opcode, !isServer, |f.payload|) + KeyBytes(f)
  {
    hide FirstByte, SecondByte, OpeningByte, LengthByte, KeyBytes;
    FirstByteSent(f, isServer);
    SecondByteSent(f, isServer);
    assert LengthBytes(f) == match f.form
      case Short => BigEndian(0, |f.payload|)
      case Medium => BigEndian(2, |f.payload|)
      case Long => BigEndian(8, |f.payload|);
  }

  lemma FirstByteSent(f: Frame, isServer: bool)
    requires f.SentBy(isServer)
    ensures FirstByte(f) == OpeningByte(f.fin, f.opcode)
  {
    assert ByteOf(f.reserved) == 0;
    FlagOrder(ByteOf(f.opcode));
  }

  lemma SecondByteSent(f: Frame, isServer: bool)
    requires f.SentBy(isServer)
    ensures SecondByte(f) == LengthByte(!isServer, match f.form case Short => |f.payload| case Medium => 126 case Long => 127)
  {
    assert ByteOf(126) == 126 && ByteOf(127) == 127;
  }

  lemma FlagOrder(b: byte)
    ensures FINAL_BIT | ((0 as byte) << 4) | b == b | FINAL_BIT
    ensures 0 | ((0 as byte) << 4) | b == b
  {
  }

  lemma ControlAlwaysFits(isServer: bool, closeSent: bool, connOpen: bool, wire: seq<byte>, frames: seq<Frame>, torn: seq<byte>, f: Frame)
    requires WireGood(isServer, closeSent, connOpen, wire, frames, torn) && GoodControl(f)
    ensures CanFollow(frames, f) && IsControl(f.opcode)
  {
    hide AllSentBy, AllEncodable;
  }

  lemma AcceptedAfterControls(isServer: bool, closeSent: bool, connOpen: bool, wire: seq<byte>,
                              fs: seq<Frame>, ctl: seq<Frame>, torn: seq<byte>, f: Frame)
    requires WireGood(isServer, closeSent, connOpen, wire, fs + ctl, torn) && AllControl(ctl)
    requires CanFollow(fs, f)
    ensures CanFollow(fs + ctl, f)
  {
    hide WireGood, AllControl;
    AssembleControls(fs, ctl);
    AcceptDependsOnOpen(Assembled(fs), Assembled(fs + ctl), f);
  }

  lemma {:induction false} AssembleControls(fs: seq<Frame>, ctl: seq<Frame>)
    requires Assemble(EMPTY_ASSEMBLY, fs).Some? && AllControl(ctl)
    ensures Assemble(EMPTY_ASSEMBLY, fs + ctl).Some?
    ensures Assembled(fs + ctl).open == Assembled(fs).open
    ensures DataMessages(Assembled(fs + ctl).done) == DataMessages(Assembled(fs).done)
    decreases |ctl|
  {
    if ctl == [] {
      assert fs + ctl == fs;
    } else {
      var n := |ctl| - 1;
      AssembleControls(fs, ctl[..n]);
      AssembleAppend(EMPTY_ASSEMBLY, fs + ctl[..n], ctl[n]);
      assert fs + ctl == fs + ctl[..n] + [ctl[n]];
      DataMessagesAppend(Assembled(fs + ctl[..n]).done, Message(ctl[n].opcode, ctl[n].payload));
    }
  }

  lemma AcceptDependsOnOpen(a: Assembly, b: Assembly, f: Frame)
    requires a.open == b.open
    ensures Accept(a, f).Some? <==> Accept(b, f).Some?
  {
  }

  lemma EncodeNotEmpty(f: Frame, isServer: bool)
    requires f.SentBy(isServer)
    ensures f.Encodable() && |Encode(f)| >= 2
  {
  }
}
