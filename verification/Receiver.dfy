/**
  * The whole future of a reader: which messages NextReader, Read and the ping and
  * pong handlers will deliver from a given stream, and the error that ends it.
  */
module Receiver {
  import opened Wrappers
  import opened Bytes
  import opened Masking
  import opened Frames
  import opened FrameParser

  /**
    * The messages still to be delivered, in order of completion, the final readErr, and what
    * reading all that makes this side send.
    */
  datatype Outlook = Outlook(messages: seq<Message>, error: ReadError, answers: seq<Reply> := [])

  function Prepend(m: Message, o: Outlook): Outlook {
    o.(messages := [m] + o.messages, answers := AnswersTo(m) + o.answers)
  }

  /** The Pongs for the Pings among the messages, in order. */
  function AllAnswers(ms: seq<Message>): seq<Reply> {
    if ms == [] then [] else AnswersTo(ms[0]) + AllAnswers(ms[1..])
  }

  lemma {:induction false} AllAnswersConcat(ms: seq<Message>, ns: seq<Message>)
    ensures AllAnswers(ms + ns) == AllAnswers(ms) + AllAnswers(ns)
    decreases |ms|
  {
    hide AnswersTo;
    if ms == [] {
      assert ms + ns == ns;
    } else {
      assert (ms + ns)[1..] == ms[1..] + ns;
      AllAnswersConcat(ms[1..], ns);
    }
  }

  /** The transport ended inside the payload of a frame: where that is a clean end, Read takes it for the message's. */
  function Ended(cfg: Setting, m: Message): Outlook {
    Outlook(if cfg.fault == EOF then [m] else [], cfg.fault)
  }

  /** The bytes s of the current frame are all there is, or an eager transport reports its end with them. */
  predicate EndsHere(cfg: Setting, st: ReadState, s: seq<byte>) {
    |s| < st.remaining || (cfg.eager && |s| == st.remaining)
  }

  /**
    * The outlook on the bytes s, for an application that reads every message to its end. The
    * message being read, with the bytes the application has got of it, is in reading; None
    * means that no reader is open, so that the rest of an abandoned message is skipped.
    */
  function View(cfg: Setting, st: ReadState, reading: Option<Message>, s: seq<byte>): Outlook
    decreases |s|, if reading.None? then 0 else if st.remaining > 0 then 2 else 1
  {
    if reading.Some? && st.remaining > 0 then
      if EndsHere(cfg, st, s) then Ended(cfg, Extended(reading.value, Unmasked(cfg, st, s)))
      else View(cfg, Moved(cfg, st, st.remaining),
                Some(Extended(reading.value, Unmasked(cfg, st, s[..st.remaining]))), s[st.remaining..])
    else if reading.Some? && st.final then
      Prepend(reading.value, View(cfg, st.(length := 0), None, s))
    else
      AdvanceProgress(cfg, st, s);
      match Advance(cfg, st, s)
      case Stop(e, rs) => Outlook([], e, rs)
      case Control(m, st', rest, _) => Prepend(m, View(cfg, st', reading, rest))
      case DataFrame(t, st', rest) =>
        View(cfg, st', if IsData(t) then Some(Message(t, [])) else reading, rest)
  }

  /** The outlook where no bytes of a message being read are left in the current frame. */
  lemma ViewUnfolds(cfg: Setting, st: ReadState, reading: Option<Message>, s: seq<byte>)
    requires reading.None? || (st.remaining <= 0 && !st.final)
    ensures View(cfg, st, reading, s)
         == match Advance(cfg, st, s)
            case Stop(e, rs) => Outlook([], e, rs)
            case Control(m, st', rest, _) => Prepend(m, View(cfg, st', reading, rest))
            case DataFrame(t, st', rest) => View(cfg, st', if IsData(t) then Some(Message(t, [])) else reading, rest)
  {
    hide Advance;
  }

  lemma ViewCompletes(cfg: Setting, st: ReadState, m: Message, s: seq<byte>)
    requires st.remaining <= 0 && st.final
    ensures View(cfg, st, Some(m), s) == Prepend(m, View(cfg, st.(length := 0), None, s))
  {
    hide Advance;
  }

  // ----- Reading in pieces -----

  lemma UnmaskedSplit(cfg: Setting, st: ReadState, s: seq<byte>, t: seq<byte>)
    ensures Unmasked(cfg, st, s + t) == Unmasked(cfg, st, s) + Unmasked(cfg, Moved(cfg, st, |s|), t)
  {
    hide Masked;
    MaskedSplit(st.key, st.maskPos, s, t);
  }

  lemma MovedTwice(cfg: Setting, st: ReadState, n: nat, k: nat)
    ensures Moved(cfg, Moved(cfg, st, n), k) == Moved(cfg, st, n + k)
  {
    PositionMod4(st.maskPos, n, k);
    assert st.remaining - n - k == st.remaining - (n + k);
  }

  lemma ExtendedInTwo(m: Message, p: seq<byte>, q: seq<byte>)
    ensures Extended(Extended(m, p), q) == Extended(m, p + q)
  {
    assert m.payload + p + q == m.payload + (p + q);
  }

  /** Taking n bytes of a frame and then the rest of k is taking k bytes. */
  lemma PiecesOfFrame(cfg: Setting, st: ReadState, m: Message, s: seq<byte>, n: nat, k: nat)
    requires 0 < n < k <= |s|
    ensures s[n..][k - n..] == s[k..]
    ensures Moved(cfg, Moved(cfg, st, n), k - n) == Moved(cfg, st, k)
    ensures Extended(Extended(m, Unmasked(cfg, st, s[..n])), Unmasked(cfg, Moved(cfg, st, n), s[n..][..k - n]))
         == Extended(m, Unmasked(cfg, st, s[..k]))
  {
    hide Masked, Unmasked, Extended, Moved;
    var a, b := s[..n], s[n..][..k - n];
    assert s[..k] == a + b;
    UnmaskedSplit(cfg, st, a, b);
    MovedTwice(cfg, st, n, k - n);
    ExtendedInTwo(m, Unmasked(cfg, st, a), Unmasked(cfg, Moved(cfg, st, n), b));
  }

  /** Delivering n bytes of the current frame does not change the outlook. */
  lemma {:induction false} ViewAfterBytes(cfg: Setting, st: ReadState, m: Message, s: seq<byte>, n: nat)
    requires 0 < n <= st.remaining && n <= |s| && (cfg.eager ==> n < |s|)
    ensures View(cfg, st, Some(m), s)
         == View(cfg, Moved(cfg, st, n), Some(Extended(m, Unmasked(cfg, st, s[..n]))), s[n..])
  {
    hide Advance, Unmasked, Extended;
    if n < st.remaining {
      var k := if |s| < st.remaining then |s| else st.remaining;
      assert s[..|s|] == s;
      if n < k {
        PiecesOfFrame(cfg, st, m, s, n, k);
        assert k == |s| ==> s[n..][..k - n] == s[n..];
      } else {
        NoMoreBytes(cfg, Moved(cfg, st, n), Extended(m, Unmasked(cfg, st, s)), s[n..]);
      }
    }
  }

  // ----- A stream of whole frames -----

  /** What the reader should do with a sequence of frames, read from the first byte of each. */
  function FrameOutlook(cfg: Setting, open: Option<Message>, length: int, fs: seq<Frame>): Outlook
    decreases |fs|
  {
    if fs == [] then Outlook([], FullReadError(cfg.fault))
    else
      var f, more := fs[0], fs[1..];
      var total := Int64(length + |f.payload|);
      var violation := FrameViolation(f, cfg.isServer, open.None?);
      if violation.Some? then Outlook([], Protocol(violation.value), [CloseFrame(PROTOCOL_ERROR)])
      else if f.opcode == CLOSE_MESSAGE then Outlook([], CloseError(f.payload), [CloseFrame(NO_STATUS)])
      else if IsControl(f.opcode) then
        Prepend(Message(f.opcode, f.payload), FrameOutlook(cfg, open, length, more))
      else if cfg.limit > 0 && total > cfg.limit then Outlook([], ReadLimit, [CloseFrame(MESSAGE_TOO_BIG)])
      else
        var m := WithFrame(open, f);
        if AtOnce(cfg, f) && more == [] then Ended(cfg, m)
        else if f.fin then Prepend(m, FrameOutlook(cfg, None, 0, more))
        else FrameOutlook(cfg, Some(m), total, more)
  }

  /** The fragment of a message that one data frame adds. */
  function WithFrame(open: Option<Message>, f: Frame): Message {
    if open.None? then Message(f.opcode, f.payload) else Extended(open.value, f.payload)
  }

  /** An eager transport reports its end with the payload of such a frame, if that comes last. */
  predicate AtOnce(cfg: Setting, f: Frame) {
    cfg.eager && !IsControl(f.opcode) && f.payload != []
  }

  function HeaderOf(f: Frame): Header
    requires f.Encodable()
  {
    Header(f.fin, f.opcode, f.key, |f.payload|, |HeaderBytes(f)|)
  }

  lemma AdvanceOnFrame(cfg: Setting, st: ReadState, f: Frame, t: seq<byte>)
    requires f.Encodable() && st.remaining <= 0
    ensures Advance(cfg, st, Encode(f) + t)
         == match FrameViolation(f, cfg.isServer, st.final)
            case Some(v) => Stop(Protocol(v), [CloseFrame(PROTOCOL_ERROR)])
            case None =>
              var after := AfterHeader(st, HeaderOf(f));
              if IsControl(f.opcode) then ControlStep(cfg, after, f.opcode, WirePayload(f) + t)
              else DataStep(cfg, after, f.opcode, WirePayload(f) + t)
  {
    HeaderRoundTrip(f, t, cfg.isServer, st.final, cfg.fault);
    FrameLayout(f, t);
    hide ParseHeader, FrameViolation, Encode, HeaderBytes, WirePayload, DataStep, ControlStep;
  }

  lemma AdvanceOnData(cfg: Setting, st: ReadState, f: Frame, t: seq<byte>)
    requires f.Encodable() && st.remaining <= 0 && !IsControl(f.opcode)
    requires FrameViolation(f, cfg.isServer, st.final).None?
    ensures Advance(cfg, st, Encode(f) + t) == DataStep(cfg, AfterHeader(st, HeaderOf(f)), f.opcode, WirePayload(f) + t)
    ensures f.key.Some? == cfg.isServer && (if st.final then IsData(f.opcode) else f.opcode == CONTINUATION_FRAME)
  {
    AdvanceOnFrame(cfg, st, f, t);
    hide Advance, Encode, WirePayload, HeaderBytes, DataStep, Frame.Encodable;
  }

  lemma NoViolation(f: Frame, isServer: bool, final: bool)
    requires FrameViolation(f, isServer, final).None?
    ensures f.key.Some? == isServer
  {
  }

  lemma UnmaskedFrame(cfg: Setting, st: ReadState, f: Frame)
    requires f.Encodable() && f.key.Some? == cfg.isServer
    ensures Unmasked(cfg, AfterHeader(st, HeaderOf(f)), WirePayload(f)) == f.payload
  {
    if f.key.Some? {
      MaskedTwice(f.key.value, 0, f.payload);
    }
  }

  /** The current frame is finished: the reader is at a header, inside the open message or between two. */
  ghost predicate AtHeader(st: ReadState, open: Option<Message>) {
    st.remaining == 0 && st.final == open.None?
  }

  /** And between two messages no bytes are counted. */
  ghost predicate AtFrameStart(st: ReadState, open: Option<Message>) {
    AtHeader(st, open) && (open.None? ==> st.length == 0)
  }

  /** A control frame leaves the fields as they were, but for the mask. */
  ghost predicate Passed(st: ReadState, st': ReadState) {
    st'.remaining == 0 && st'.final == st.final && st'.length == st.length
  }

  lemma ViewOfControl(cfg: Setting, st: ReadState, open: Option<Message>, f: Frame, t: seq<byte>)
    requires f.Encodable() && IsControl(f.opcode) && st.remaining == 0 && (open.Some? ==> !st.final)
    requires FrameViolation(f, cfg.isServer, st.final).None?
    ensures f.opcode == CLOSE_MESSAGE ==> 
      View(cfg, st, open, Encode(f) + t) == Outlook([], CloseError(f.payload), [CloseFrame(NO_STATUS)])
    ensures f.opcode != CLOSE_MESSAGE ==>
      exists st' :: Passed(st, st') && View(cfg, st, open, Encode(f) + t) == Prepend(Message(f.opcode, f.payload), View(cfg, st', open, t))
  {
    hide View, Advance, Encode, WirePayload, Masked, FrameViolation, Frame.Encodable;
    var s, after, body := Encode(f) + t, AfterHeader(st, HeaderOf(f)), WirePayload(f) + t;
    ViewUnfolds(cfg, st, open, s);
    AdvanceOnFrame(cfg, st, f, t);
    NoViolation(f, cfg.isServer, st.final);
    UnmaskedFrame(cfg, st, f);
    assert body[..|f.payload|] == WirePayload(f) && body[|f.payload|..] == t;
    if f.opcode != CLOSE_MESSAGE {
      var st' := after.(remaining := 0);
      assert Passed(st, st');
    }
  }

  lemma ViewOfBody(cfg: Setting, st: ReadState, m: Message, p: seq<byte>, wire: seq<byte>, t: seq<byte>)
    requires st.remaining == |p| == |wire| && Unmasked(cfg, st, wire) == p
    requires (cfg.isServer ==> st.maskPos == 0) && (cfg.eager && p != [] ==> t != [])
    ensures View(cfg, st, Some(m), wire + t) == View(cfg, Moved(cfg, st, |p|), Some(Extended(m, p)), t)
  {
    hide Advance, Masked;
    var s := wire + t;
    assert s[..|p|] == wire && s[|p|..] == t;
    if |p| > 0 {
      ViewAfterBytes(cfg, st, m, s, |p|);
    } else {
      assert Moved(cfg, st, 0) == st && Extended(m, p) == m && s == t;
    }
  }

  /** The last frame of a stream, from an eager transport. */
  lemma ViewOfLast(cfg: Setting, st: ReadState, open: Option<Message>, f: Frame)
    requires f.Encodable() && st.remaining <= 0 && st.final == open.None? && AtOnce(cfg, f)
    requires FrameViolation(f, cfg.isServer, st.final).None?
    ensures View(cfg, st, open, Encode(f))
         == if cfg.limit > 0 && Int64(st.length + |f.payload|) > cfg.limit then Outlook([], ReadLimit, [CloseFrame(MESSAGE_TOO_BIG)])
            else Ended(cfg, WithFrame(open, f))
  {
    var after, total := AfterHeader(st, HeaderOf(f)), Int64(st.length + |f.payload|);
    assert Encode(f) + [] == Encode(f) && WirePayload(f) + [] == WirePayload(f);
    AdvanceOnData(cfg, st, f, []);
    NoViolation(f, cfg.isServer, st.final);
    UnmaskedFrame(cfg, st, f);
    hide Advance, Encode, WirePayload, HeaderBytes, Masked, Int64, FrameViolation, Unmasked, Frame.Encodable;
    ViewUnfolds(cfg, st, open, Encode(f));
    if !(cfg.limit > 0 && total > cfg.limit) {
      var ready := after.(length := total);
      var begun := if open.None? then Message(f.opcode, []) else open.value;
      assert Extended(begun, f.payload) == WithFrame(open, f);
      UnmaskedIgnoresLength(cfg, after, ready, WirePayload(f));
    }
  }

  lemma UnmaskedIgnoresLength(cfg: Setting, st: ReadState, st': ReadState, s: seq<byte>)
    requires st' == st.(length := st'.length)
    ensures Unmasked(cfg, st', s) == Unmasked(cfg, st, s)
  {
  }

  lemma ViewOfData(cfg: Setting, st: ReadState, open: Option<Message>, f: Frame, t: seq<byte>)
    requires f.Encodable() && st.remaining <= 0 && st.final == open.None? && !IsControl(f.opcode)
    requires FrameViolation(f, cfg.isServer, st.final).None? && (AtOnce(cfg, f) ==> t != [])
    ensures var total := Int64(st.length + |f.payload|);
      var v := View(cfg, st, open, Encode(f) + t);
      if cfg.limit > 0 && total > cfg.limit then v == Outlook([], ReadLimit, [CloseFrame(MESSAGE_TOO_BIG)])
      else if f.fin then exists st' :: AtFrameStart(st', None) && v == Prepend(WithFrame(open, f), View(cfg, st', None, t))
      else exists st' :: AtFrameStart(st', Some(WithFrame(open, f))) && st'.length == total
                         && v == View(cfg, st', Some(WithFrame(open, f)), t)
  {
    hide View, Advance, Encode, WirePayload, HeaderBytes, Masked, Int64, FrameViolation, Unmasked, Frame.Encodable;
    var after, body := AfterHeader(st, HeaderOf(f)), WirePayload(f) + t;
    var total := Int64(st.length + |f.payload|);
    AdvanceOnData(cfg, st, f, t);
    UnmaskedFrame(cfg, st, f);
    ViewUnfolds(cfg, st, open, Encode(f) + t);
    if !(cfg.limit > 0 && total > cfg.limit) {
      var ready := after.(length := total);
      var begun := if open.None? then Message(f.opcode, []) else open.value;
      var st', m' := Moved(cfg, ready, |f.payload|), Extended(begun, f.payload);
      UnmaskedIgnoresLength(cfg, after, ready, WirePayload(f));
      ViewOfBody(cfg, ready, begun, f.payload, WirePayload(f), t);
      assert m' == WithFrame(open, f);
      if f.fin {
        ViewCompletes(cfg, st', m', t);
        assert AtFrameStart(st'.(length := 0), None);
      } else {
        assert AtFrameStart(st', Some(m'));
      }
    }
  }

  /**
    * The reader of a stream of frames delivers exactly what the frames say, frame by
    * frame: whatever the frames are, and whichever rule they may break.
    */
  lemma {:induction false} ViewOfFrames(cfg: Setting, st: ReadState, open: Option<Message>, fs: seq<Frame>)
    requires AllEncodable(fs) && AtHeader(st, open)
    ensures View(cfg, st, open, EncodeAll(fs)) == FrameOutlook(cfg, open, st.length, fs)
    decreases |fs|
  {
    hide Advance, Encode, Masked, Int64, Frame.Encodable;
    if fs == [] {
      ViewAtEnd(cfg, st, open);
    } else {
      var f, more := fs[0], fs[1..];
      var s := Encode(f) + EncodeAll(more);
      assert f.Encodable() && AllEncodable(more);
      if FrameViolation(f, cfg.isServer, st.final).Some? {
        AdvanceOnFrame(cfg, st, f, EncodeAll(more));
      } else if IsControl(f.opcode) {
        ViewOfControl(cfg, st, open, f, EncodeAll(more));
        if f.opcode != CLOSE_MESSAGE {
          var st' :| Passed(st, st') && View(cfg, st, open, s) == Prepend(Message(f.opcode, f.payload), View(cfg, st', open, EncodeAll(more)));
          ViewOfFrames(cfg, st', open, more);
        }
      } else if AtOnce(cfg, f) && more == [] {
        assert s == Encode(f);
        ViewOfLast(cfg, st, open, f);
      } else {
        NotEmptyBytes(more);
        ViewOfData(cfg, st, open, f, EncodeAll(more));
        var total, m := Int64(st.length + |f.payload|), WithFrame(open, f);
        if !(cfg.limit > 0 && total > cfg.limit) {
          if f.fin {
            var st' :| AtFrameStart(st', None) && View(cfg, st, open, s) == Prepend(m, View(cfg, st', None, EncodeAll(more)));
            ViewOfFrames(cfg, st', None, more);
          } else {
            var st' :| AtFrameStart(st', Some(m)) && st'.length == total
              && View(cfg, st, open, s) == View(cfg, st', Some(m), EncodeAll(more));
            ViewOfFrames(cfg, st', Some(m), more);
          }
        }
      }
    }
  }

  lemma NotEmptyBytes(fs: seq<Frame>)
    requires AllEncodable(fs)
    ensures EncodeAll(fs) == [] <==> fs == []
  {
    if fs != [] {
      assert |Encode(fs[0])| >= 2;
    }
  }

  lemma ViewAtEnd(cfg: Setting, st: ReadState, open: Option<Message>)
    requires AtHeader(st, open)
    ensures View(cfg, st, open, []) == Outlook([], FullReadError(cfg.fault))
  {
  }

  // ----- Abandoning a message -----

  /** The list without its first data message. */
  function DropFirstData(ms: seq<Message>): seq<Message> {
    if ms == [] then []
    else if IsControl(ms[0].opcode) then [ms[0]] + DropFirstData(ms[1..])
    else ms[1..]
  }

  function Dropped(o: Outlook): Outlook {
    o.(messages := DropFirstData(o.messages))
  }

  lemma DroppedPrepend(m: Message, o: Outlook)
    ensures Dropped(Prepend(m, o)) == if IsControl(m.opcode) then Prepend(m, Dropped(o)) else o
  {
    assert ([m] + o.messages)[1..] == o.messages;
    assert IsControl(m.opcode) || [] + o.answers == o.answers;
  }

  /** Without a read limit, the bytes counted so far have no effect. */
  lemma {:induction false} ViewIgnoresLength(cfg: Setting, st: ReadState, n: int, reading: Option<Message>, s: seq<byte>)
    requires cfg.limit <= 0
    ensures View(cfg, st, reading, s) == View(cfg, st.(length := n), reading, s)
    decreases |s|, if reading.None? then 0 else if st.remaining > 0 then 2 else 1
  {
    hide ParseHeader, Masked, Int64;
    if reading.Some? && st.remaining > 0 {
      if !EndsHere(cfg, st, s) {
        var k := st.remaining;
        ViewIgnoresLength(cfg, Moved(cfg, st, k), n, Some(Extended(reading.value, Unmasked(cfg, st, s[..k]))), s[k..]);
      }
    } else if reading.Some? && st.final {
    } else {
      AdvanceProgress(cfg, st, s);
      AdvanceIgnoresLength(cfg, st, n, s);
      var r, r' := Advance(cfg, st, s), Advance(cfg, st.(length := n), s);
      match r
      case Stop(_, _) =>
      case Control(_, st', rest, _) => ViewIgnoresLength(cfg, st', n, reading, rest);
      case DataFrame(t, st', rest) =>
        ViewIgnoresLength(cfg, st', r'.state.length, if IsData(t) then Some(Message(t, [])) else reading, rest);
    }
  }

  ghost predicate SameButLength(n: int, r: Step, r': Step) {
    match r
    case Stop(_, _) => r' == r
    case Control(m, st, rest, replies) => r' == Control(m, st.(length := n), rest, replies)
    case DataFrame(t, st, rest) => r'.DataFrame? && r' == DataFrame(t, st.(length := r'.state.length), rest)
  }

  lemma FrameStepIgnoresLength(cfg: Setting, st: ReadState, n: int, s: seq<byte>)
    requires cfg.limit <= 0
    ensures SameButLength(n, FrameStep(cfg, st, s), FrameStep(cfg, st.(length := n), s))
  {
    hide ParseHeader, Masked, Int64, IsControl, CloseError;
  }

  lemma AdvanceIgnoresLength(cfg: Setting, st: ReadState, n: int, s: seq<byte>)
    requires cfg.limit <= 0
    ensures SameButLength(n, Advance(cfg, st, s), Advance(cfg, st.(length := n), s))
  {
    if st.remaining <= 0 {
      FrameStepIgnoresLength(cfg, st, n, s);
    } else if |s| >= st.remaining {
      FrameStepIgnoresLength(cfg, st, n, s[st.remaining..]);
    }
  }

  /** With no reader open, the rest of the current frame is skipped without a trace. */
  lemma ViewSkips(cfg: Setting, st: ReadState, s: seq<byte>)
    requires 0 < st.remaining <= |s|
    ensures View(cfg, st, None, s) == View(cfg, Moved(cfg, st, st.remaining), None, s[st.remaining..])
  {
    hide ParseHeader, Masked;
    var st', s' := Moved(cfg, st, st.remaining), s[st.remaining..];
    assert FrameStep(cfg, st, s') == FrameStep(cfg, st', s') by {
      HeaderKeyByRole(s', cfg.isServer, st.final, cfg.fault);
    }
  }

  lemma HeaderKeyByRole(s: seq<byte>, isServer: bool, final: bool, fault: Fault)
    ensures var r := ParseHeader(s, isServer, final, fault);
      r.GoodHeader? ==> r.header.key.Some? == isServer
  {
  }

  /**
    * Calling NextReader in the middle of a message loses that message and nothing else:
    * every other message comes out whole, from its first byte, and the stream ends the same.
    * (Where an eager transport reports a clean end together with the last byte of that
    * message, only the application that reads it sees the clean end.)
    */
  lemma {:induction false} AbandonDropsOneMessage(cfg: Setting, st: ReadState, m: Message, s: seq<byte>)
    requires cfg.limit <= 0 && !IsControl(m.opcode)
    ensures var o, dropped := View(cfg, st, None, s), Dropped(View(cfg, st, Some(m), s));
      && o.messages == dropped.messages && o.answers == dropped.answers
      && (o.error == dropped.error || (cfg.eager && o.error == UnexpectedEOF && dropped.error == EOF))
    decreases |s|, if st.remaining > 0 then 1 else 0
  {
    hide ParseHeader, Masked, Int64;
    if st.remaining > 0 {
      if EndsHere(cfg, st, s) {
        SkippedToTheEnd(cfg, st, s);
      } else {
        var k := st.remaining;
        var m' := Extended(m, Unmasked(cfg, st, s[..k]));
        ViewSkips(cfg, st, s);
        AbandonDropsOneMessage(cfg, Moved(cfg, st, k), m', s[k..]);
      }
    } else if st.final {
      DroppedPrepend(m, View(cfg, st.(length := 0), None, s));
      ViewIgnoresLength(cfg, st, 0, None, s);
    } else {
      AdvanceProgress(cfg, st, s);
      match Advance(cfg, st, s)
      case Stop(_, _) =>
      case Control(c, st', rest, _) =>
        AbandonDropsOneMessage(cfg, st', m, rest);
        DroppedPrepend(c, View(cfg, st', Some(m), rest));
      case DataFrame(t, st', rest) => AbandonDropsOneMessage(cfg, st', m, rest);
    }
  }

  lemma SkippedToTheEnd(cfg: Setting, st: ReadState, s: seq<byte>)
    requires 0 < st.remaining && |s| <= st.remaining
    ensures View(cfg, st, None, s) == Outlook([], if |s| < st.remaining then cfg.fault else FullReadError(cfg.fault))
  {
    if |s| == st.remaining {
      assert s[st.remaining..] == [];
    }
  }

  // ----- What reading one message to the end reports -----

  /** The message as ioutil.ReadAll collects it, and the error; None where Read ended with io.EOF. */
  datatype Collected = Collected(message: Message, error: Option<ReadError>)

  function ReadToEnd(cfg: Setting, st: ReadState, m: Message, s: seq<byte>): Collected
    decreases |s|, if st.remaining > 0 then 1 else 0
  {
    if st.remaining > 0 then
      if EndsHere(cfg, st, s) then
        Collected(Extended(m, Unmasked(cfg, st, s)), if cfg.fault == EOF then None else Some(cfg.fault))
      else
        ReadToEnd(cfg, Moved(cfg, st, st.remaining), Extended(m, Unmasked(cfg, st, s[..st.remaining])), s[st.remaining..])
    else if st.final then Collected(m, None)
    else
      AdvanceProgress(cfg, st, s);
      var r := Advance(cfg, st, s);
      if r.Stop? then Collected(m, Some(FullReadError(r.error))) else ReadToEnd(cfg, r.state, m, r.rest)
  }

  lemma {:induction false} ReadToEndAfterBytes(cfg: Setting, st: ReadState, m: Message, s: seq<byte>, n: nat)
    requires 0 < n <= st.remaining && n <= |s| && (cfg.eager ==> n < |s|)
    ensures ReadToEnd(cfg, st, m, s)
         == ReadToEnd(cfg, Moved(cfg, st, n), Extended(m, Unmasked(cfg, st, s[..n])), s[n..])
  {
    hide Advance, Unmasked, Extended;
    if n < st.remaining {
      var k := if |s| < st.remaining then |s| else st.remaining;
      if n < k {
        PiecesOfFrame(cfg, st, m, s, n, k);
        assert k == |s| ==> s[..k] == s && s[n..][..k - n] == s[n..];
      } else {
        assert s[..n] == s;
        NoMoreBytes(cfg, Moved(cfg, st, n), Extended(m, Unmasked(cfg, st, s)), s[n..]);
      }
    }
  }

  lemma NoMoreBytes(cfg: Setting, st: ReadState, m: Message, s: seq<byte>)
    requires s == []
    ensures Extended(m, Unmasked(cfg, st, s)) == m
  {
    assert m.payload + Unmasked(cfg, st, s) == m.payload;
  }

  lemma ReadToEndUnfolds(cfg: Setting, st: ReadState, m: Message, s: seq<byte>)
    requires st.remaining <= 0 && !st.final
    ensures ReadToEnd(cfg, st, m, s)
         == var r := Advance(cfg, st, s);
            if r.Stop? then Collected(m, Some(FullReadError(r.error))) else ReadToEnd(cfg, r.state, m, r.rest)
  {
    hide Advance;
  }

  /** Reading a message to its end reports no error exactly when the outlook has the message, and then reports that. */
  lemma {:induction false} WholeMessageIsReported(cfg: Setting, st: ReadState, m: Message, s: seq<byte>)
    requires !IsControl(m.opcode)
    ensures var o, c := View(cfg, st, Some(m), s), ReadToEnd(cfg, st, m, s);
      && (c.error.None? <==> DataMessages(o.messages) != [])
      && (c.error.None? ==> DataMessages(o.messages)[0] == c.message)
    decreases |s|, if st.remaining > 0 then 1 else 0
  {
    hide Advance, Masked;
    if st.remaining > 0 {
      if EndsHere(cfg, st, s) {
        var m' := Extended(m, Unmasked(cfg, st, s));
        FirstDataMessage(m', []);
        assert [m'] + [] == [m'] && DataMessages([]) == [];
      } else {
        WholeMessageIsReported(cfg, Moved(cfg, st, st.remaining), Extended(m, Unmasked(cfg, st, s[..st.remaining])), s[st.remaining..]);
      }
    } else if st.final {
      FirstDataMessage(m, View(cfg, st.(length := 0), None, s).messages);
    } else {
      AdvanceProgress(cfg, st, s);
      match Advance(cfg, st, s)
      case Stop(_, _) => assert DataMessages([]) == [];
      case Control(c, st', rest, _) =>
        WholeMessageIsReported(cfg, st', m, rest);
        FirstDataMessage(c, View(cfg, st', Some(m), rest).messages);
      case DataFrame(_, st', rest) =>
        WholeMessageIsReported(cfg, st', m, rest);
    }
  }

  lemma NoDataMessages()
    ensures DataMessages([]) == []
  {
  }

  lemma {:induction false} FirstDataMessage(m: Message, ms: seq<Message>)
    ensures DataMessages([m] + ms) == (if IsControl(m.opcode) then [] else [m]) + DataMessages(ms)
    decreases |ms|
  {
    hide DataMessages;
    NoDataMessages();
    if ms == [] {
      DataMessagesAppend([], m);
      assert [] + [m] == [m] + ms == [m];
    } else {
      var n := |ms| - 1;
      var front := ms[..n];
      FirstDataMessage(m, front);
      assert [m] + ms == [m] + front + [ms[n]] && ms == front + [ms[n]];
      DataMessagesAppend([m] + front, ms[n]);
      DataMessagesAppend(front, ms[n]);
    }
  }
}
