/**
  * Both ends together: what a writer has sent, whatever the calls, buffer size, keys and
  * concurrent control messages, is what a reader of the other role receives, whatever the
  * pieces in which the bytes arrive.
  */
module Exchange {
  import opened Wrappers
  import opened Bytes
  import opened Frames
  import opened FrameParser
  import opened Receiver
  import opened RoundTrip
  import opened ByteSource
  import opened ConnWriter
  import opened ConnReader
  import opened Truncation

  /**
    * The reader takes the bytes on the wire, in any pieces and with any end, under a read
    * limit that the messages keep. If the wire has whole frames only, and no Close among
    * them, the application gets exactly the messages that the writer completed. From a
    * transport that reports its end together with its last bytes, a message that is not
    * complete yet passes for one if the end is clean, and a complete one fails if it is not.
    * Every Ping on the wire is answered.
    */
  method Receive(w: WriteConn, source: Source, readLimit: int)
    returns (messages: seq<Message>, err: ReadError, answers: seq<Reply>)
    requires w.Valid() && source.Rest() == w.wire && w.torn == [] && NoClose(w.frames)
    requires readLimit < 0x8000_0000_0000_0000 && AllFit(readLimit, Assembled(w.frames))
    modifies source
    ensures !source.eager ==> messages == w.State().delivered && err == FullReadError(source.fault)
    ensures answers == AllAnswers(Assembled(w.frames).done)
    ensures var cfg := Setting(!w.isServer, readLimit, source.fault, source.eager);
      messages == DataMessages(Told(cfg, w.frames, Assembled(w.frames)).messages)
  {
    hide View, Assemble, EncodeAll, Encode, DataMessages, Flatten, Told, WireGood;
    ghost var delivered := w.State().delivered;
    assert delivered == DataMessages(Assembled(w.frames).done);
    var c := new ReadConn(!w.isServer, readLimit, source);
    GoodWire(w.isServer, w.closeSent, w.connOpen, w.wire, w.frames, w.torn);
    MessageRoundTrip(c.Config(), c.Fields(), w.frames);
    ghost var told := Told(c.Config(), w.frames, Assembled(w.frames));
    ghost var before := c.Forecast();
    assert before.messages == told.messages && before.error == told.error && before.answers == told.answers;
    NoMessages();
    messages, err := c.ReceiveAll();
    answers := c.replies;
    AnswersTold(c.Config(), w.frames, Assembled(w.frames));
    assert [] + messages == messages;
  }

  /** The same on a connection whose last frame is a Close: the reader stops there with the peer's status. */
  method ReceiveToClose(w: WriteConn, source: Source, readLimit: int, ghost close: Frame)
    returns (messages: seq<Message>, err: ReadError, answers: seq<Reply>)
    requires w.Valid() && source.Rest() == w.wire
    requires w.frames != [] && w.frames[|w.frames| - 1] == close && close.opcode == CLOSE_MESSAGE
    requires readLimit < 0x8000_0000_0000_0000 && AllFit(readLimit, Assembled(w.frames[..|w.frames| - 1]))
    modifies source
    ensures messages == w.State().delivered
    ensures err == CloseError(close.payload) || err == FullReadError(CloseError(close.payload))
    ensures answers == AllAnswers(Assembled(w.frames[..|w.frames| - 1]).done) + [CloseFrame(NO_STATUS)]
  {
    hide View, Assemble, EncodeAll, Encode, DataMessages, CloseError, Flatten, WireGood;
    ghost var delivered := w.State().delivered;
    ghost var front := w.frames[..|w.frames| - 1];
    ClosedWire(w.isServer, w.closeSent, w.connOpen, w.wire, w.frames, w.torn, front, close);
    assert delivered == DataMessages(Assembled(front).done);
    var c := new ReadConn(!w.isServer, readLimit, source);
    MessageRoundTripToClose(c.Config(), c.Fields(), front, close, []);
    ghost var before := c.Forecast();
    assert before.messages == Assembled(front).done && before.error == CloseError(close.payload);
    assert before.answers == AllAnswers(Assembled(front).done) + [CloseFrame(NO_STATUS)];
    NoMessages();
    messages, err := c.ReceiveAll();
    answers := c.replies;
    assert [] + messages == messages;
  }

  lemma AnswersTold(cfg: Setting, fs: seq<Frame>, b: Assembly)
    ensures Told(cfg, fs, b).answers == AllAnswers(b.done)
  {
  }

  /**
    * The message that a torn frame adds to those that are complete: if the end is clean, and
    * exactly if it is a text, binary or continuation frame whose header has gone out, but not
    * all of its payload, what has been sent of its message.
    */
  function LooksWhole(fault: Fault, readLimit: int, open: Option<Message>, last: Frame, torn: seq<byte>): (ms: seq<Message>)
    requires last.Encodable()
    ensures |ms| <= 1
    ensures ms != [] ==> InPayload(last, torn) && ms[0].opcode == WithFrame(open, last).opcode
    ensures ms != [] ==> ms[0].payload < WithFrame(open, last).payload
    ensures fault == EOF && readLimit <= 0 ==> (ms != [] <==> InPayload(last, torn))
  {
    FrameBytes(last);
    if fault == EOF && InPayload(last, torn) && !TooLong(readLimit, open, last)
    then [PartOf(open, last, |torn| - |HeaderBytes(last)|)] else []
  }

  /**
    * And on a connection whose last write failed part-way: the application gets all messages
    * that were complete before, and what LooksWhole says, which it cannot tell from them.
    */
  method ReceiveTorn(w: WriteConn, source: Source, readLimit: int)
    returns (messages: seq<Message>, err: ReadError, ghost last: Frame)
    requires w.Valid() && source.Rest() == w.wire && w.torn != []
    requires readLimit < 0x8000_0000_0000_0000 && AllFit(readLimit, Assembled(w.frames))
    modifies source
    ensures Beginning(w.isServer, w.frames, w.torn, last)
    ensures messages == w.State().delivered + LooksWhole(source.fault, readLimit, w.Open(), last, w.torn)
  {
    hide View, Assemble, EncodeAll, Encode, DataMessages, Flatten, CutOutlook, WireGood, Beginning, LooksWhole, Accept;
    ghost var a, torn := Assembled(w.frames), w.torn;
    var c := new ReadConn(!w.isServer, readLimit, source);
    last := TornFrame(w.isServer, w.closeSent, w.connOpen, w.wire, w.frames, torn);
    FailedWriteLosesOnlyTheEnd(c.Config(), c.Fields(), w.wire, w.frames, torn, w.closeSent, w.connOpen, last);
    ghost var before := c.Forecast();
    assert before.messages == a.done + CutOutlook(c.Config(), a.open, last, torn).messages;
    TornData(c.Config(), a, last, torn);
    NoMessages();
    messages, err := c.ReceiveAll();
    assert [] + messages == messages;
  }

  /**
    * What an application gets beyond the messages delivered: for the frame that torn begins,
    * what LooksWhole says of it.
    */
  ghost predicate AllAndTheCut(isServer: bool, frames: seq<Frame>, torn: seq<byte>, fault: Fault,
                               delivered: seq<Message>, messages: seq<Message>)
  {
    && (OnlyControlTorn(torn) ==> messages == delivered)
    && forall last :: Beginning(isServer, frames, torn, last) ==>
      messages == delivered + LooksWhole(fault, 0, Assembled(frames).open, last, torn)
  }

  /**
    * Whatever has become of the connection, with a transport that reports its end in a Read of
    * its own: all that was sent, and a message that was cut only if a write of this side's
    * messages has failed.
    */
  method ReceiveAny(w: WriteConn, source: Source) returns (messages: seq<Message>, err: ReadError)
    requires w.Valid() && source.Rest() == w.wire && !source.eager
    modifies source
    ensures AllAndTheCut(w.isServer, w.frames, w.torn, source.fault, w.State().delivered, messages)
    ensures w.writeErr != Some(Network) ==> messages == w.State().delivered
  {
    hide View, Assemble, EncodeAll, Encode, DataMessages, Flatten, WireGood, AllAndTheCut, OnlyControlTorn;
    ghost var delivered := w.State().delivered;
    var c := new ReadConn(!w.isServer, 0, source);
    AnyWire(c.Config(), c.Fields(), w.isServer, w.closeSent, w.connOpen, w.wire, w.frames, w.torn);
    ghost var told := View(c.Config(), c.Fields(), None, w.wire);
    ghost var before := c.Forecast();
    assert before.messages == told.messages;
    assert delivered == DataMessages(Assembled(w.frames).done);
    NoMessages();
    messages, err := c.ReceiveAll();
    assert [] + messages == messages;
  }

  lemma AnyWire(cfg: Setting, st: ReadState, isServer: bool, closeSent: bool, connOpen: bool,
                wire: seq<byte>, frames: seq<Frame>, torn: seq<byte>)
    requires WireGood(isServer, closeSent, connOpen, wire, frames, torn) && Fresh(st)
    requires cfg.isServer == !isServer && cfg.limit == 0 && !cfg.eager
    ensures var delivered, messages := DataMessages(Assembled(frames).done), DataMessages(View(cfg, st, None, wire).messages);
      && AllAndTheCut(isServer, frames, torn, cfg.fault, delivered, messages)
      && (OnlyControlTorn(torn) ==> messages == delivered)
  {
    hide View, Encode, Frame.SentBy, Assemble, Accept, CutOutlook, DataMessages, LooksWhole, CloseError,
         OnlyControlTorn, Beginning, WireGood;
    var delivered, messages := DataMessages(Assembled(frames).done), DataMessages(View(cfg, st, None, wire).messages);
    if torn != [] {
      forall last | Beginning(isServer, frames, torn, last)
        ensures last.Encodable() && messages == delivered + LooksWhole(cfg.fault, 0, Assembled(frames).open, last, torn)
      {
        FailedWriteLosesOnlyTheEnd(cfg, st, wire, frames, torn, closeSent, connOpen, last);
        TornData(cfg, Assembled(frames), last, torn);
      }
      var last := TornFrame(isServer, closeSent, connOpen, wire, frames, torn);
      NothingLooksWhole(isServer, frames, torn, last, cfg.fault);
    } else {
      WholeWire(cfg, st, isServer, closeSent, connOpen, wire, frames);
      forall last | Beginning(isServer, frames, torn, last)
        ensures last.Encodable() && messages == delivered + LooksWhole(cfg.fault, 0, Assembled(frames).open, last, torn)
      {
        NothingLooksWhole(isServer, frames, torn, last, cfg.fault);
      }
    }
  }

  lemma WholeWire(cfg: Setting, st: ReadState, isServer: bool, closeSent: bool, connOpen: bool,
                  wire: seq<byte>, frames: seq<Frame>)
    requires WireGood(isServer, closeSent, connOpen, wire, frames, []) && Fresh(st)
    requires cfg.isServer == !isServer && cfg.limit == 0 && !cfg.eager
    ensures DataMessages(View(cfg, st, None, wire).messages) == DataMessages(Assembled(frames).done)
  {
    hide View, Encode, Frame.SentBy, Assemble, Accept, DataMessages, CloseError;
    if NoClose(frames) {
      GoodWire(isServer, closeSent, connOpen, wire, frames, []);
      MessageRoundTrip(cfg, st, frames);
    } else {
      var n := |frames| - 1;
      var front, close := frames[..n], frames[n];
      assert frames == front + [close] && close.opcode == CLOSE_MESSAGE;
      ClosedWire(isServer, closeSent, connOpen, wire, frames, [], front, close);
      MessageRoundTripToClose(cfg, st, front, close, []);
    }
  }

  /** A torn control frame adds no message, whoever sent it. */
  lemma NothingLooksWhole(isServer: bool, frames: seq<Frame>, torn: seq<byte>, last: Frame, fault: Fault)
    requires Beginning(isServer, frames, torn, last)
    ensures last.Encodable() && Accept(Assembled(frames), last).Some?
    ensures OnlyControlTorn(torn) ==> LooksWhole(fault, 0, Assembled(frames).open, last, torn) == []
  {
    hide Accept, Assemble, OpcodeOf, Encode, HeaderBytes;
    if torn != [] {
      TornOpcode(last, torn);
    } else {
      HeaderNotEmpty(last);
    }
  }

  lemma HeaderNotEmpty(f: Frame)
    requires f.Encodable()
    ensures |HeaderBytes(f)| >= 2
  {
  }

  lemma ClosedWire(isServer: bool, closeSent: bool, connOpen: bool, wire: seq<byte>, frames: seq<Frame>, torn: seq<byte>,
                   front: seq<Frame>, close: Frame)
    requires WireGood(isServer, closeSent, connOpen, wire, frames, torn)
    requires frames == front + [close] && close.opcode == CLOSE_MESSAGE
    ensures AllSentBy(front, isServer) && NoClose(front) && AllEncodable(front)
    ensures close.SentBy(isServer) && GoodControl(close) && close.Encodable()
    ensures Assemble(EMPTY_ASSEMBLY, front) == Some(Assembled(front))
    ensures wire == EncodeAll(front) + (Encode(close) + []) && AllEncodable(frames) && wire == EncodeAll(frames)
    ensures DataMessages(Assembled(frames).done) == DataMessages(Assembled(front).done)
  {
    hide Encode, Frame.SentBy, Frame.Encodable, EncodeAll;
    assert frames[|front|] == close;
    assert forall i :: 0 <= i < |front| ==> frames[i] == front[i];
    assert torn == [];
    AssembleAppend(EMPTY_ASSEMBLY, front, close);
    EncodeAllAppend(front, close);
    var a := Assembled(front);
    assert Accept(a, close).Some?;
    DataMessagesAppend(a.done, Message(close.opcode, close.payload));
    assert EncodeAll(front) + Encode(close) + [] == EncodeAll(front) + (Encode(close) + []);
  }

  /** The wire is just whole frames. */
  lemma GoodWire(isServer: bool, closeSent: bool, connOpen: bool, wire: seq<byte>, frames: seq<Frame>, torn: seq<byte>)
    requires WireGood(isServer, closeSent, connOpen, wire, frames, torn) && torn == []
    ensures AllSentBy(frames, isServer) && AllEncodable(frames)
    ensures Assemble(EMPTY_ASSEMBLY, frames) == Some(Assembled(frames))
    ensures wire == EncodeAll(frames)
  {
    hide Encode, Frame.SentBy;
  }

  /** The data messages of a stream with a torn frame. */
  lemma TornData(cfg: Setting, a: Assembly, last: Frame, torn: seq<byte>)
    requires last.Encodable() && Accept(a, last).Some? && DataOpen(a)
    ensures DataMessages(a.done + CutOutlook(cfg, a.open, last, torn).messages)
         == DataMessages(a.done) + LooksWhole(cfg.fault, cfg.limit, a.open, last, torn)
  {
    hide DataMessages, Encode, HeaderBytes, Frame.Encodable, TooLong;
    assert a.done + [] == a.done && DataMessages(a.done) + [] == DataMessages(a.done);
    if InPayload(last, torn) {
      FrameBytes(last);
      DataMessagesAppend(a.done, PartOf(a.open, last, |torn| - |HeaderBytes(last)|));
    }
  }

  /** When a write failed part-way, what the beginning of the torn frame, whichever it may be, tells comes after the complete messages. */
  lemma FailedWriteLosesOnlyTheEnd(cfg: Setting, st: ReadState, w: seq<byte>, frames: seq<Frame>, torn: seq<byte>,
                                   closeSent: bool, connOpen: bool, last: Frame)
    requires WireGood(!cfg.isServer, closeSent, connOpen, w, frames, torn) && torn != [] && Fresh(st)
    requires Beginning(!cfg.isServer, frames, torn, last)
    requires cfg.limit < 0x8000_0000_0000_0000 && AllFit(cfg.limit, Assembled(frames))
    ensures last.Encodable()
    ensures Accept(Assembled(frames), last).Some? && DataOpen(Assembled(frames))
    ensures View(cfg, st, None, w)
         == PrependAll(Assembled(frames).done, CutOutlook(cfg, Assembled(frames).open, last, torn))
  {
    hide View, Encode, Frame.SentBy, Assemble, Accept, CutOutlook;
    TornIs(!cfg.isServer, closeSent, connOpen, w, frames, torn, last);
    AllFitEarlier(0, EMPTY_ASSEMBLY, frames);
    CutStream(cfg, st, frames, last, torn);
  }

  lemma TornFrame(isServer: bool, closeSent: bool, connOpen: bool, wire: seq<byte>, frames: seq<Frame>, torn: seq<byte>)
    returns (last: Frame)
    requires WireGood(isServer, closeSent, connOpen, wire, frames, torn) && torn != []
    ensures Beginning(isServer, frames, torn, last)
  {
    hide Beginning, GoodStream;
    last :| Beginning(isServer, frames, torn, last);
  }

  lemma TornIs(isServer: bool, closeSent: bool, connOpen: bool, wire: seq<byte>, frames: seq<Frame>, torn: seq<byte>, last: Frame)
    requires WireGood(isServer, closeSent, connOpen, wire, frames, torn) && Beginning(isServer, frames, torn, last)
    ensures AllSentBy(frames, isServer) && NoClose(frames) && AllEncodable(frames) && last.SentBy(isServer) && last.Encodable()
    ensures torn < Encode(last) && Accept(Assembled(frames), last).Some?
    ensures Assemble(EMPTY_ASSEMBLY, frames) == Some(Assembled(frames)) && wire == EncodeAll(frames) + torn
  {
    hide Encode, Frame.SentBy, Accept;
  }
}
