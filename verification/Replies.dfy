/**
  * What reading makes a connection send: a Pong for each Ping, in order and with its payload,
  * and at the end the Close that fits the error (sections 5.5 and 7.4.1 of RFC 6455).
  */
module Replies {
  import opened Wrappers
  import opened Bytes
  import opened Masking
  import opened Frames
  import opened FrameParser
  import opened Receiver
  import opened RoundTrip

  /** Each Ping is answered in its place, by a Pong with its payload, and nothing else is. */
  lemma AnswersInOrder(ms: seq<Message>, j: nat)
    requires j < |ms|
    ensures AllAnswers(ms)
         == AllAnswers(ms[..j]) + (if ms[j].opcode == 9 then [Pong(ms[j].payload)] else []) + AllAnswers(ms[j + 1..])
    ensures AllAnswers([]) == []
  {
    hide AllAnswers;
    var front, m, rest := ms[..j], ms[j], ms[j + 1..];
    assert ms == front + [m] + rest;
    AllAnswersConcat(front + [m], rest);
    AllAnswersConcat(front, [m]);
    OneAnswer(m);
  }

  lemma OneAnswer(m: Message)
    ensures AllAnswers([m]) == (if m.opcode == 9 then [Pong(m.payload)] else []) && AllAnswers([]) == []
  {
    assert [m][1..] == [] && AllAnswers([m]) == AnswersTo(m) + AllAnswers([]);
  }

  /** The Close that is sent with an error. */
  function Farewell(e: ReadError): seq<Reply> {
    match e
    case Protocol(_) => [CloseFrame(1002)]
    case ReadLimit => [CloseFrame(1009)]
    case Closed(_) => [CloseFrame(1005)]
    case _ => []
  }

  lemma AnswersOfPrepend(m: Message, o: Outlook, e: seq<Reply>)
    requires o.answers == AllAnswers(o.messages) + e
    ensures Prepend(m, o).answers == AllAnswers(Prepend(m, o).messages) + e
  {
    hide AnswersTo;
    assert ([m] + o.messages)[1..] == o.messages;
    assert AnswersTo(m) + (AllAnswers(o.messages) + e) == AnswersTo(m) + AllAnswers(o.messages) + e;
  }

  /**
    * On any bytes, from anywhere in a message: the Pings among the messages delivered are
    * answered, and then the Close that fits the error is sent. A plain EOF is either a Close
    * of the peer with status 1000 or 1001, which is answered too, or an end of the transport.
    */
  ghost predicate Answered(o: Outlook) {
    || o.answers == AllAnswers(o.messages) + Farewell(o.error)
    || (o.error == EOF && o.answers == AllAnswers(o.messages) + [CloseFrame(1005)])
  }

  lemma {:induction false} AnswersExactly(cfg: Setting, st: ReadState, reading: Option<Message>, s: seq<byte>)
    requires reading.Some? ==> !IsControl(reading.value.opcode)
    ensures Answered(View(cfg, st, reading, s))
    decreases |s|, if reading.None? then 0 else if st.remaining > 0 then 2 else 1
  {
    hide Advance, Masked, Unmasked, Answered;
    if reading.Some? && st.remaining > 0 {
      if EndsHere(cfg, st, s) {
        EndedAnswers(cfg, Extended(reading.value, Unmasked(cfg, st, s)));
      } else {
        var k := st.remaining;
        AnswersExactly(cfg, Moved(cfg, st, k), Some(Extended(reading.value, Unmasked(cfg, st, s[..k]))), s[k..]);
      }
    } else if reading.Some? && st.final {
      AnswersExactly(cfg, st.(length := 0), None, s);
      PrependAnswered(reading.value, View(cfg, st.(length := 0), None, s));
    } else {
      AdvanceProgress(cfg, st, s);
      ViewUnfolds(cfg, st, reading, s);
      match Advance(cfg, st, s)
      case Stop(_, _) => StopAnswers(cfg, st, s);
      case Control(m, st', rest, _) =>
        AnswersExactly(cfg, st', reading, rest);
        PrependAnswered(m, View(cfg, st', reading, rest));
      case DataFrame(t, st', rest) =>
        AnswersExactly(cfg, st', if IsData(t) then Some(Message(t, [])) else reading, rest);
    }
  }

  lemma PrependAnswered(m: Message, o: Outlook)
    requires Answered(o)
    ensures Answered(Prepend(m, o))
  {
    hide Prepend, AllAnswers;
    if o.answers == AllAnswers(o.messages) + Farewell(o.error) {
      AnswersOfPrepend(m, o, Farewell(o.error));
    } else {
      AnswersOfPrepend(m, o, [CloseFrame(1005)]);
    }
    SameError(m, o);
  }

  lemma SameError(m: Message, o: Outlook)
    ensures Prepend(m, o).error == o.error
  {
  }

  lemma EndedAnswers(cfg: Setting, m: Message)
    requires !IsControl(m.opcode)
    ensures Answered(Ended(cfg, m))
  {
    assert [m][1..] == [] && AllAnswers([m]) == AnswersTo(m) + AllAnswers([]) == [];
  }

  lemma StopAnswers(cfg: Setting, st: ReadState, s: seq<byte>)
    requires Advance(cfg, st, s).Stop?
    ensures Answered(Outlook([], Advance(cfg, st, s).error, Advance(cfg, st, s).replies))
  {
    hide FrameStep;
    if st.remaining <= 0 {
      FrameStepAnswers(cfg, st, s);
    } else if |s| >= st.remaining {
      FrameStepAnswers(cfg, st, s[st.remaining..]);
    }
  }

  lemma FrameStepAnswers(cfg: Setting, st: ReadState, s: seq<byte>)
    requires FrameStep(cfg, st, s).Stop?
    ensures Answered(Outlook([], FrameStep(cfg, st, s).error, FrameStep(cfg, st, s).replies))
  {
    hide ParseHeader, Masked, FromBigEndian;
    HeaderErrors(s, cfg.isServer, st.final, cfg.fault);
  }

  lemma HeaderErrors(s: seq<byte>, isServer: bool, final: bool, fault: Fault)
    ensures var r := ParseHeader(s, isServer, final, fault);
      r.BadHeader? ==> r.error.Protocol? || r.error == FullReadError(fault)
  {
  }

  lemma TwoBytes(a: byte, b: byte)
    ensures FromBigEndian([a, b]) == a as int * 256 + b as int
  {
    var two, one, none: seq<byte> := [a, b], [a], [];
    assert two[..1] == one && one[..0] == none && FromBigEndian(none) == 0;
    assert FromBigEndian(one) == FromBigEndian(none) * 256 + a as int;
    assert FromBigEndian(two) == FromBigEndian(one) * 256 + b as int;
  }

  /** A Close without status counts as 1005; a normal one, 1000 or 1001, is a clean end; any other is reported. */
  lemma CloseStatus(payload: seq<byte>)
    ensures |payload| < 2 ==> CloseError(payload) == Closed(1005)
    ensures |payload| >= 2 ==>
      var code := payload[0] as int * 256 + payload[1] as int;
      CloseError(payload) == if code == 1000 || code == 1001 then EOF else Closed(code)
  {
    hide FromBigEndian;
    if |payload| >= 2 {
      assert payload[..2] == [payload[0], payload[1]];
      TwoBytes(payload[0], payload[1]);
    }
  }

  /** The payload of a reply: FormatCloseMessage's, or nothing where the Close has no status. */
  function ReplyPayload(r: Reply, text: seq<byte>): seq<byte> {
    match r
    case Pong(payload) => payload
    case CloseFrame(code) => if code == NO_STATUS then [] else BigEndian(2, code) + text
  }

  /** The peer reads the status that belongs to the error, whatever text follows it. */
  lemma FarewellIsUnderstood(e: ReadError, text: seq<byte>)
    requires Farewell(e) != []
    ensures |Farewell(e)| == 1
    ensures CloseError(ReplyPayload(Farewell(e)[0], text)) == Closed(if e.Protocol? then 1002 else if e.ReadLimit? then 1009 else 1005)
    ensures e.Closed? ==> ReplyPayload(Farewell(e)[0], text) == []
  {
    var code := if e.Protocol? then 1002 else 1009;
    var sent := BigEndian(2, code) + text;
    BigEndianRoundTrip(2, code);
    Radixes();
    assert sent[..2] == BigEndian(2, code);
    hide BigEndian, FromBigEndian;
    assert CloseError(sent) == Closed(code);
  }

  // ----- Frames -----

  /** What a reader sends while it gets the frames fs; inside says that it is in the middle of a message. */
  function RepliesTo(cfg: Setting, inside: bool, length: int, fs: seq<Frame>): seq<Reply>
    decreases |fs|
  {
    if fs == [] then []
    else
      var f, more := fs[0], fs[1..];
      var total := Int64(length + |f.payload|);
      if FrameViolation(f, cfg.isServer, !inside).Some? then [CloseFrame(PROTOCOL_ERROR)]
      else if f.opcode == CLOSE_MESSAGE then [CloseFrame(NO_STATUS)]
      else if f.opcode == PING_MESSAGE then [Pong(f.payload)] + RepliesTo(cfg, inside, length, more)
      else if f.opcode == PONG_MESSAGE then RepliesTo(cfg, inside, length, more)
      else if cfg.limit > 0 && total > cfg.limit then [CloseFrame(MESSAGE_TOO_BIG)]
      else RepliesTo(cfg, !f.fin, if f.fin then 0 else total, more)
  }

  lemma {:induction false} RepliesOfOutlook(cfg: Setting, open: Option<Message>, length: int, fs: seq<Frame>)
    requires open.Some? ==> !IsControl(open.value.opcode)
    ensures FrameOutlook(cfg, open, length, fs).answers == RepliesTo(cfg, open.Some?, length, fs)
    decreases |fs|
  {
    hide FrameViolation, Int64;
    if fs != [] {
      var f, more := fs[0], fs[1..];
      var total := Int64(length + |f.payload|);
      if FrameViolation(f, cfg.isServer, open.None?).None? && f.opcode != CLOSE_MESSAGE {
        if IsControl(f.opcode) {
          RepliesOfOutlook(cfg, open, length, more);
          assert [] + RepliesTo(cfg, open.Some?, length, more) == RepliesTo(cfg, open.Some?, length, more);
        } else if !(cfg.limit > 0 && total > cfg.limit) {
          var m := WithFrame(open, f);
          RepliesOfOutlook(cfg, if f.fin then None else Some(m), if f.fin then 0 else total, more);
          assert [] + FrameOutlook(cfg, None, 0, more).answers == FrameOutlook(cfg, None, 0, more).answers;
        }
      }
    }
  }

  /** From the bytes of any frames, whole, legal or not: just what the frames ask for. */
  lemma RepliesToFrames(cfg: Setting, st: ReadState, fs: seq<Frame>)
    requires AllEncodable(fs) && Fresh(st)
    ensures View(cfg, st, None, EncodeAll(fs)).answers == RepliesTo(cfg, false, 0, fs)
  {
    ViewOfFrames(cfg, st, None, fs);
    RepliesOfOutlook(cfg, None, 0, fs);
  }
}
