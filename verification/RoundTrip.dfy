/**
  * Main results about reading: a reader gives back exactly what a writer of the other
  * role framed, and it reports a protocol error exactly when the frames break section 5
  * of RFC 6455.
  */
module RoundTrip {
  import opened Wrappers
  import opened Bytes
  import opened Frames
  import opened Masking
  import opened FrameParser
  import opened Receiver

  ghost predicate AllSentBy(fs: seq<Frame>, isServer: bool) {
    forall i :: 0 <= i < |fs| ==> fs[i].SentBy(isServer)
  }

  ghost predicate NoClose(fs: seq<Frame>) {
    forall i :: 0 <= i < |fs| ==> fs[i].opcode != CLOSE_MESSAGE
  }

  predicate Fits(limit: int, m: Message) {
    limit <= 0 || IsControl(m.opcode) || |m.payload| <= limit
  }

  /** No data message, whole or still open, is longer than the read limit. */
  ghost predicate AllFit(limit: int, a: Assembly) {
    && (forall i :: 0 <= i < |a.done| ==> Fits(limit, a.done[i]))
    && (a.open.Some? ==> Fits(limit, a.open.value))
  }

  /** The open message is a data message: an invariant of Assemble. */
  predicate DataOpen(a: Assembly) {
    a.open.Some? ==> IsData(a.open.value.opcode)
  }

  lemma AllFitBefore(limit: int, a: Assembly, f: Frame)
    requires DataOpen(a) && Accept(a, f).Some? && AllFit(limit, Accept(a, f).value)
    ensures AllFit(limit, a) && DataOpen(Accept(a, f).value)
  {
    var b := Accept(a, f).value;
    assert forall i :: 0 <= i < |a.done| ==> b.done[i] == a.done[i];
    assert |b.done| > |a.done| ==> Fits(limit, b.done[|a.done|]);
  }

  lemma {:induction false} AllFitEarlier(limit: int, a: Assembly, fs: seq<Frame>)
    requires DataOpen(a) && Assemble(a, fs).Some? && AllFit(limit, Assemble(a, fs).value)
    ensures AllFit(limit, a) && DataOpen(Assemble(a, fs).value)
    decreases |fs|
  {
    if fs != [] {
      var b := Accept(a, fs[0]).value;
      assert DataOpen(b);
      AllFitEarlier(limit, b, fs[1..]);
      AllFitBefore(limit, a, fs[0]);
    }
  }

  function PrependAll(ms: seq<Message>, o: Outlook): Outlook {
    o.(messages := ms + o.messages, answers := AllAnswers(ms) + o.answers)
  }

  lemma PrependNone(o: Outlook)
    ensures PrependAll([], o) == o
  {
    assert [] + o.messages == o.messages && [] + o.answers == o.answers;
  }

  lemma PrependOne(m: Message, o: Outlook)
    ensures PrependAll([m], o) == Prepend(m, o)
  {
    hide AnswersTo;
    assert [m][1..] == [] && AllAnswers([]) == [];
    assert AllAnswers([m]) == AnswersTo(m) + [] == AnswersTo(m);
  }

  lemma PrependTwice(ms: seq<Message>, ns: seq<Message>, o: Outlook)
    ensures PrependAll(ms, PrependAll(ns, o)) == PrependAll(ms + ns, o)
  {
    hide AllAnswers;
    AllAnswersConcat(ms, ns);
    Associates(ms, ns, o.messages);
    Associates(AllAnswers(ms), AllAnswers(ns), o.answers);
  }

  lemma Associates<T>(a: seq<T>, b: seq<T>, c: seq<T>)
    ensures a + (b + c) == a + b + c
  {
  }

  /** The reader between two frames, having counted exactly the bytes of the open message. */
  ghost predicate Counted(cfg: Setting, st: ReadState, open: Option<Message>) {
    && AtFrameStart(st, open)
    && (cfg.limit > 0 && open.Some? ==> st.length == |open.value.payload|)
  }

  lemma {:induction false} DoneGrows(a: Assembly, fs: seq<Frame>)
    requires Assemble(a, fs).Some?
    ensures a.done <= Assemble(a, fs).value.done
    decreases |fs|
  {
    if fs != [] {
      DoneGrows(Accept(a, fs[0]).value, fs[1..]);
    }
  }

  /** A frame from a writer of the other role that section 5.4 allows breaks no rule. */
  lemma SentFrameIsFine(cfg: Setting, a: Assembly, f: Frame)
    requires f.SentBy(!cfg.isServer) && Accept(a, f).Some?
    ensures FrameViolation(f, cfg.isServer, a.open.None?).None? && f.Encodable()
  {
  }

  /** The frames fs are not the end of what an eager transport has, or it ends with no payload of theirs. */
  predicate Calm(cfg: Setting, fs: seq<Frame>, t: seq<byte>) {
    fs == [] || t != [] || !AtOnce(cfg, fs[|fs| - 1])
  }

  /**
    * After any frames that a writer of the other role may send, without a Close, the
    * reader has delivered exactly the messages those frames complete, and stands at the
    * first byte after them; what follows, t, may be anything.
    */
  lemma {:induction false} ReaderFollowsWriter(cfg: Setting, st: ReadState, a: Assembly, fs: seq<Frame>, t: seq<byte>)
    returns (after: ReadState)
    requires AllSentBy(fs, !cfg.isServer) && NoClose(fs) && cfg.limit < 0x8000_0000_0000_0000
    requires DataOpen(a) && Assemble(a, fs).Some? && AllFit(cfg.limit, Assemble(a, fs).value)
    requires Counted(cfg, st, a.open) && AllEncodable(fs) && Calm(cfg, fs, t)
    ensures var b := Assemble(a, fs).value;
      && a.done <= b.done
      && Counted(cfg, after, b.open)
      && View(cfg, st, a.open, EncodeAll(fs) + t)
         == PrependAll(b.done[|a.done|..], View(cfg, after, b.open, t))
    decreases |fs|
  {
    hide Encode, View, Frame.SentBy, Frame.Encodable, FrameViolation, PrependAll, Accept;
    DoneGrows(a, fs);
    if fs == [] {
      after := st;
      assert EncodeAll(fs) + t == t && a.done[|a.done|..] == [];
      PrependNone(View(cfg, st, a.open, t));
    } else {
      var f, more := fs[0], fs[1..];
      var mid, u := Accept(a, f).value, EncodeAll(more) + t;
      assert EncodeAll(fs) + t == Encode(f) + u;
      assert f.SentBy(!cfg.isServer) && f.Encodable() && AllSentBy(more, !cfg.isServer) && AllEncodable(more) && NoClose(more);
      AllFitStep(cfg.limit, a, fs);
      NotEmptyBytes(more);
      assert more != [] ==> more[|more| - 1] == fs[|fs| - 1];
      var st' := OneFrame(cfg, st, a, f, u);
      after := ReaderFollowsWriter(cfg, st', mid, more, t);
      DoneGrows(mid, more);
      var b := Assemble(a, fs).value;
      assert mid.done[|a.done|..] + b.done[|mid.done|..] == b.done[|a.done|..];
      PrependTwice(mid.done[|a.done|..], b.done[|mid.done|..], View(cfg, after, b.open, t));
    }
  }

  lemma AllFitStep(limit: int, a: Assembly, fs: seq<Frame>)
    requires fs != [] && DataOpen(a) && Assemble(a, fs).Some? && AllFit(limit, Assemble(a, fs).value)
    ensures var b := Accept(a, fs[0]).value; AllFit(limit, b) && DataOpen(b)
  {
    AllFitEarlier(limit, Accept(a, fs[0]).value, fs[1..]);
  }

  /** What one frame does to the reader: it moves from a to Accept(a, f). */
  ghost predicate Follows(cfg: Setting, a: Assembly, f: Frame, v: Outlook, after: ReadState, t: seq<byte>)
    requires Accept(a, f).Some?
  {
    var b := Accept(a, f).value;
    a.done <= b.done && Counted(cfg, after, b.open) && v == PrependAll(b.done[|a.done|..], View(cfg, after, b.open, t))
  }

  lemma OneControl(cfg: Setting, st: ReadState, a: Assembly, f: Frame, t: seq<byte>) returns (after: ReadState)
    requires f.SentBy(!cfg.isServer) && f.opcode != CLOSE_MESSAGE && IsControl(f.opcode)
    requires Accept(a, f).Some? && Counted(cfg, st, a.open)
    ensures Follows(cfg, a, f, View(cfg, st, a.open, Encode(f) + t), after, t)
  {
    SentFrameIsFine(cfg, a, f);
    hide Encode, View, FrameViolation, PrependAll, Prepend, Frame.SentBy, Frame.Encodable;
    ViewOfControl(cfg, st, a.open, f, t);
    var m := Message(f.opcode, f.payload);
    after :| Passed(st, after)
      && View(cfg, st, a.open, Encode(f) + t) == Prepend(m, View(cfg, after, a.open, t));
    assert (a.done + [m])[|a.done|..] == [m];
    PrependOne(m, View(cfg, after, a.open, t));
  }

  lemma OneData(cfg: Setting, st: ReadState, a: Assembly, f: Frame, t: seq<byte>) returns (after: ReadState)
    requires f.SentBy(!cfg.isServer) && !IsControl(f.opcode) && cfg.limit < 0x8000_0000_0000_0000
    requires Accept(a, f).Some? && Counted(cfg, st, a.open)
    requires Fits(cfg.limit, WithFrame(a.open, f)) && !IsControl(WithFrame(a.open, f).opcode)
    requires AtOnce(cfg, f) ==> t != []
    ensures Follows(cfg, a, f, View(cfg, st, a.open, Encode(f) + t), after, t)
  {
    hide Encode, View, FrameViolation, Frame.SentBy, Frame.Encodable, Accept, WithFrame, PrependAll, Prepend;
    SentFrameIsFine(cfg, a, f);
    DataAccepted(cfg, st, a, f);
    ViewOfData(cfg, st, a.open, f, t);
    var v, total, m := View(cfg, st, a.open, Encode(f) + t), Int64(st.length + |f.payload|), WithFrame(a.open, f);
    if f.fin {
      after :| AtFrameStart(after, None) && v == Prepend(m, View(cfg, after, None, t));
      assert (a.done + [m])[|a.done|..] == [m];
      PrependOne(m, View(cfg, after, None, t));
    } else {
      after :| AtFrameStart(after, Some(m)) && after.length == total && v == View(cfg, after, Some(m), t);
      assert a.done[|a.done|..] == [];
      PrependNone(v);
    }
  }

  lemma DataAccepted(cfg: Setting, st: ReadState, a: Assembly, f: Frame)
    requires Accept(a, f).Some? && !IsControl(f.opcode) && Counted(cfg, st, a.open)
    ensures Accept(a, f).value == Grow(a, WithFrame(a.open, f), f.fin)
    ensures cfg.limit > 0 ==> st.length + |f.payload| == |WithFrame(a.open, f).payload|
  {
  }

  lemma OneFrame(cfg: Setting, st: ReadState, a: Assembly, f: Frame, t: seq<byte>) returns (after: ReadState)
    requires f.SentBy(!cfg.isServer) && f.opcode != CLOSE_MESSAGE && cfg.limit < 0x8000_0000_0000_0000
    requires DataOpen(a) && Accept(a, f).Some? && AllFit(cfg.limit, Accept(a, f).value)
    requires Counted(cfg, st, a.open) && (AtOnce(cfg, f) ==> t != [])
    ensures Follows(cfg, a, f, View(cfg, st, a.open, Encode(f) + t), after, t)
  {
    if IsControl(f.opcode) {
      after := OneControl(cfg, st, a, f, t);
    } else {
      assert Fits(cfg.limit, WithFrame(a.open, f)) by {
        var b := Accept(a, f).value;
        assert f.fin ==> b.done[|a.done|] == WithFrame(a.open, f);
      }
      after := OneData(cfg, st, a, f, t);
    }
  }

  /** newConn leaves the read fields like this. */
  ghost predicate Fresh(st: ReadState) {
    st.remaining == 0 && st.final && st.length == 0
  }

  /**
    * What the whole frames of a stream, b put together, tell the application: the messages
    * that are complete. From an eager transport, whose end comes with the last payload, a
    * message that is still open counts as complete if the end is clean, and a complete one
    * as failed if it is not.
    */
  function Told(cfg: Setting, fs: seq<Frame>, b: Assembly): Outlook {
    var answers := AllAnswers(b.done);
    if Calm(cfg, fs, []) then Outlook(b.done, FullReadError(cfg.fault), answers)
    else if cfg.fault == EOF then Outlook(b.done + if b.open.Some? then [b.open.value] else [], EOF, answers)
    else Outlook(if b.open.None? && b.done != [] then b.done[..|b.done| - 1] else b.done, cfg.fault, answers)
  }

  /**
    * Message round trip: from the bytes of all the frames, the reader of the other role
    * delivers exactly the messages, data and control, that the frames complete.
    */
  lemma MessageRoundTrip(cfg: Setting, st: ReadState, fs: seq<Frame>)
    requires AllSentBy(fs, !cfg.isServer) && NoClose(fs) && cfg.limit < 0x8000_0000_0000_0000
    requires AllEncodable(fs) && Assemble(EMPTY_ASSEMBLY, fs).Some?
    requires AllFit(cfg.limit, Assemble(EMPTY_ASSEMBLY, fs).value) && Fresh(st)
    ensures View(cfg, st, None, EncodeAll(fs)) == Told(cfg, fs, Assemble(EMPTY_ASSEMBLY, fs).value)
    ensures !cfg.eager ==>
      var done := Assemble(EMPTY_ASSEMBLY, fs).value.done;
      View(cfg, st, None, EncodeAll(fs)) == Outlook(done, FullReadError(cfg.fault), AllAnswers(done))
  {
    hide View, AtOnce;
    if Calm(cfg, fs, []) {
      var after := ReaderFollowsWriter(cfg, st, EMPTY_ASSEMBLY, fs, []);
      assert EncodeAll(fs) + [] == EncodeAll(fs);
      ViewAtEnd(cfg, after, Assemble(EMPTY_ASSEMBLY, fs).value.open);
    } else {
      EndsAtOnce(cfg, st, fs);
    }
    NotEager(cfg, fs);
  }

  lemma NotEager(cfg: Setting, fs: seq<Frame>)
    ensures !cfg.eager ==> Calm(cfg, fs, [])
  {
  }

  lemma EndsAtOnce(cfg: Setting, st: ReadState, fs: seq<Frame>)
    requires AllSentBy(fs, !cfg.isServer) && NoClose(fs) && cfg.limit < 0x8000_0000_0000_0000
    requires AllEncodable(fs) && Assemble(EMPTY_ASSEMBLY, fs).Some?
    requires AllFit(cfg.limit, Assemble(EMPTY_ASSEMBLY, fs).value) && Fresh(st) && !Calm(cfg, fs, [])
    ensures View(cfg, st, None, EncodeAll(fs)) == Told(cfg, fs, Assemble(EMPTY_ASSEMBLY, fs).value)
  {
    hide View, Encode, FrameViolation, Frame.SentBy, Frame.Encodable, AllSentBy, NoClose, AllEncodable;
    var n := |fs| - 1;
    var front, f := fs[..n], fs[n];
    FrontAndLast(fs, !cfg.isServer);
    AssembleAppend(EMPTY_ASSEMBLY, front, f);
    EncodeAllAppend(front, f);
    var a := Assemble(EMPTY_ASSEMBLY, front).value;
    AllFitEarlier(0, EMPTY_ASSEMBLY, front);
    LastFits(cfg.limit, a, f);
    SomeBytes(f);
    var after := ReaderFollowsWriter(cfg, st, EMPTY_ASSEMBLY, front, Encode(f));
    SentFrameIsFine(cfg, a, f);
    DataAccepted(cfg, after, a, f);
    ViewOfLast(cfg, after, a.open, f);
    assert a.done[|EMPTY_ASSEMBLY.done|..] == a.done;
    NoAnswerToData(a, f);
  }

  lemma NoAnswerToData(a: Assembly, f: Frame)
    requires DataOpen(a) && Accept(a, f).Some? && !IsControl(f.opcode)
    ensures AllAnswers(Accept(a, f).value.done) == AllAnswers(a.done) && AllAnswers(a.done) + [] == AllAnswers(a.done)
  {
    if f.fin {
      var m := WithFrame(a.open, f);
      AllAnswersConcat(a.done, [m]);
      assert [m][1..] == [] && AllAnswers([m]) == AnswersTo(m) + AllAnswers([]);
    }
  }

  lemma FrontAndLast(fs: seq<Frame>, isServer: bool)
    requires fs != [] && AllSentBy(fs, isServer) && AllEncodable(fs) && NoClose(fs)
    ensures var front, f := fs[..|fs| - 1], fs[|fs| - 1];
      && fs == front + [f] && f.SentBy(isServer) && f.Encodable()
      && AllSentBy(front, isServer) && AllEncodable(front) && NoClose(front)
  {
  }

  lemma SomeBytes(f: Frame)
    requires f.Encodable()
    ensures Encode(f) != []
  {
  }

  /** The frame before which a is assembled fits, and so does all before it. */
  lemma LastFits(limit: int, a: Assembly, f: Frame)
    requires DataOpen(a) && Accept(a, f).Some? && AllFit(limit, Accept(a, f).value) && !IsControl(f.opcode)
    ensures AllFit(limit, a) && Fits(limit, WithFrame(a.open, f)) && !IsControl(WithFrame(a.open, f).opcode)
  {
    AllFitBefore(limit, a, f);
    var b := Accept(a, f).value;
    assert f.fin ==> b.done[|a.done|] == WithFrame(a.open, f);
  }

  /** The same when a Close frame ends the stream: the reader stops there with the peer's status. */
  lemma MessageRoundTripToClose(cfg: Setting, st: ReadState, fs: seq<Frame>, close: Frame, t: seq<byte>)
    requires AllSentBy(fs, !cfg.isServer) && NoClose(fs) && cfg.limit < 0x8000_0000_0000_0000
    requires AllEncodable(fs) && Assemble(EMPTY_ASSEMBLY, fs).Some?
    requires AllFit(cfg.limit, Assemble(EMPTY_ASSEMBLY, fs).value) && Fresh(st)
    requires close.SentBy(!cfg.isServer) && close.opcode == CLOSE_MESSAGE && GoodControl(close)
    ensures var done := Assemble(EMPTY_ASSEMBLY, fs).value.done;
      View(cfg, st, None, EncodeAll(fs) + (Encode(close) + t))
      == Outlook(done, CloseError(close.payload), AllAnswers(done) + [CloseFrame(NO_STATUS)])
  {
    hide View, Encode;
    SomeBytes(close);
    var after := ReaderFollowsWriter(cfg, st, EMPTY_ASSEMBLY, fs, Encode(close) + t);
    ViewOfControl(cfg, after, Assemble(EMPTY_ASSEMBLY, fs).value.open, close, t);
  }

  // ----- More bytes never change what was delivered -----

  lemma HeaderOfLonger(s: seq<byte>, t: seq<byte>, isServer: bool, final: bool, fault: Fault)
    requires ParseHeader(s, isServer, final, fault).GoodHeader?
    ensures ParseHeader(s + t, isServer, final, fault) == ParseHeader(s, isServer, final, fault)
  {
    hide CheckStart, PayloadLength;
    var lengthEnd := 2 + ExtraLengthBytes(LengthCodeOf(s[1]));
    assert (s + t)[2..lengthEnd] == s[2..lengthEnd];
    if MaskedOf(s[1]) {
      assert (s + t)[lengthEnd..lengthEnd + 4] == s[lengthEnd..lengthEnd + 4];
    }
  }

  function Followed(r: Step, t: seq<byte>): Step {
    match r
    case Stop(_, _) => r
    case Control(m, st, rest, replies) => Control(m, st, rest + t, replies)
    case DataFrame(ft, st, rest) => DataFrame(ft, st, rest + t)
  }

  lemma ControlStepOfLonger(cfg: Setting, st: ReadState, frameType: int, s: seq<byte>, t: seq<byte>)
    requires 0 <= st.remaining <= |s|
    ensures ControlStep(cfg, st, frameType, s + t) == Followed(ControlStep(cfg, st, frameType, s), t)
  {
    hide CloseError, Masked;
    var k := st.remaining;
    assert (s + t)[..k] == s[..k] && (s + t)[k..] == s[k..] + t;
  }

  lemma FrameStepOfLonger(cfg: Setting, st: ReadState, s: seq<byte>, t: seq<byte>)
    requires !FrameStep(cfg, st, s).Stop?
    ensures FrameStep(cfg, st, s + t) == Followed(FrameStep(cfg, st, s), t)
  {
    HeaderOfLonger(s, t, cfg.isServer, st.final, cfg.fault);
    hide ParseHeader;
    var h := ParseHeader(s, cfg.isServer, st.final, cfg.fault).header;
    assert (s + t)[h.size..] == s[h.size..] + t;
    if IsControl(h.frameType) {
      assert |s[h.size..]| >= h.length;
      hide ControlStep;
      ControlStepOfLonger(cfg, AfterHeader(st, h), h.frameType, s[h.size..], t);
    }
  }

  lemma AdvanceOfLonger(cfg: Setting, st: ReadState, s: seq<byte>, t: seq<byte>)
    requires !Advance(cfg, st, s).Stop?
    ensures Advance(cfg, st, s + t) == Followed(Advance(cfg, st, s), t)
  {
    hide FrameStep;
    if st.remaining <= 0 {
      FrameStepOfLonger(cfg, st, s, t);
    } else {
      var k := st.remaining;
      FrameStepOfLonger(cfg, st, s[k..], t);
      assert (s + t)[k..] == s[k..] + t;
    }
  }

  /**
    * The messages ms of a truncated stream, against those of the whole stream: the same as
    * far as they go, but that the last may be the beginning of the whole stream's message.
    */
  ghost predicate TruncatedFrom(ms: seq<Message>, whole: seq<Message>) {
    ms <= whole || (ms != [] && ms[..|ms| - 1] <= whole && BeginningOfNext(ms[|ms| - 1], whole[|ms| - 1..]))
  }

  predicate BeginningOfNext(m: Message, later: seq<Message>) {
    var data := DataMessages(later);
    !IsControl(m.opcode) && (data != [] ==> m.opcode == data[0].opcode && m.payload <= data[0].payload)
  }

  lemma TruncatedBehind(m: Message, ms: seq<Message>, whole: seq<Message>)
    requires TruncatedFrom(ms, whole)
    ensures TruncatedFrom([m] + ms, [m] + whole)
  {
    hide BeginningOfNext;
    if !(ms <= whole) {
      var longer := [m] + ms;
      assert longer[..|longer| - 1] == [m] + ms[..|ms| - 1];
      assert ([m] + whole)[|longer| - 1..] == whole[|ms| - 1..];
    }
  }

  /** What reading a message to its end reports continues what was read of it. */
  lemma {:induction false} ReadToEndExtends(cfg: Setting, st: ReadState, m: Message, s: seq<byte>)
    ensures var c := ReadToEnd(cfg, st, m, s); c.message.opcode == m.opcode && m.payload <= c.message.payload
    decreases |s|, if st.remaining > 0 then 1 else 0
  {
    hide Advance, Masked;
    if st.remaining > 0 {
      if !EndsHere(cfg, st, s) {
        ReadToEndExtends(cfg, Moved(cfg, st, st.remaining), Extended(m, Unmasked(cfg, st, s[..st.remaining])), s[st.remaining..]);
      }
    } else if !st.final && !Advance(cfg, st, s).Stop? {
      AdvanceProgress(cfg, st, s);
      ReadToEndExtends(cfg, Advance(cfg, st, s).state, m, Advance(cfg, st, s).rest);
    }
  }

  /** Of a message that the truncated stream cuts, what was read is the beginning. */
  lemma CutIsBeginning(cfg: Setting, st: ReadState, m: Message, s: seq<byte>, t: seq<byte>)
    requires st.remaining > 0 && EndsHere(cfg, st, s) && !IsControl(m.opcode)
    ensures TruncatedFrom(View(cfg, st, Some(m), s).messages, View(cfg, st, Some(m), s + t).messages)
  {
    hide Advance, Masked, Unmasked, Extended;
    var m', whole := Extended(m, Unmasked(cfg, st, s)), View(cfg, st, Some(m), s + t).messages;
    WholeMessageIsReported(cfg, st, m, s + t);
    if t == [] {
      assert s + t == s;
    } else if s == [] {
      assert s + t == t;
      NoMoreBytes(cfg, st, m, s);
      ReadToEndExtends(cfg, st, m, t);
      CutAlone(m, whole);
    } else {
      assert (s + t)[..|s|] == s && (s + t)[|s|..] == t;
      ReadToEndAfterBytes(cfg, st, m, s + t, |s|);
      ReadToEndExtends(cfg, Moved(cfg, st, |s|), m', t);
      assert m'.opcode == m.opcode by {
        SameOpcode(m, Unmasked(cfg, st, s));
      }
      CutAlone(m', whole);
    }
  }

  lemma SameOpcode(m: Message, p: seq<byte>)
    ensures Extended(m, p).opcode == m.opcode
  {
  }

  lemma CutAlone(m: Message, whole: seq<Message>)
    requires BeginningOfNext(m, whole)
    ensures TruncatedFrom([m], whole) && TruncatedFrom([], whole)
  {
    hide BeginningOfNext;
    assert [m][..0] == [] && whole[0..] == whole;
  }

  /**
    * The application gets from a truncated stream what it would get from the whole one, as
    * far as that goes; the last message it gets may be the beginning of one.
    */
  lemma {:induction false} TruncationOnlyLosesTheEnd(cfg: Setting, st: ReadState, reading: Option<Message>, s: seq<byte>, t: seq<byte>)
    requires reading.Some? ==> !IsControl(reading.value.opcode)
    ensures TruncatedFrom(View(cfg, st, reading, s).messages, View(cfg, st, reading, s + t).messages)
    decreases |s|, if reading.None? then 0 else if st.remaining > 0 then 2 else 1
  {
    hide Advance, Masked, TruncatedFrom;
    if reading.Some? && st.remaining > 0 {
      if EndsHere(cfg, st, s) {
        CutIsBeginning(cfg, st, reading.value, s, t);
      } else {
        var k := st.remaining;
        assert (s + t)[..k] == s[..k] && (s + t)[k..] == s[k..] + t;
        TruncationOnlyLosesTheEnd(cfg, Moved(cfg, st, k), Some(Extended(reading.value, Unmasked(cfg, st, s[..k]))), s[k..], t);
      }
    } else if reading.Some? && st.final {
      TruncationOnlyLosesTheEnd(cfg, st.(length := 0), None, s, t);
      TruncatedBehind(reading.value, View(cfg, st.(length := 0), None, s).messages, View(cfg, st.(length := 0), None, s + t).messages);
    } else if Advance(cfg, st, s).Stop? {
      NothingIsTruncated(View(cfg, st, reading, s + t).messages);
    } else {
      AdvanceProgress(cfg, st, s);
      AdvanceOfLonger(cfg, st, s, t);
      match Advance(cfg, st, s)
      case Control(m, st', rest, _) =>
        TruncationOnlyLosesTheEnd(cfg, st', reading, rest, t);
        TruncatedBehind(m, View(cfg, st', reading, rest).messages, View(cfg, st', reading, rest + t).messages);
      case DataFrame(ft, st', rest) =>
        TruncationOnlyLosesTheEnd(cfg, st', if IsData(ft) then Some(Message(ft, [])) else reading, rest, t);
    }
  }

  lemma NothingIsTruncated(whole: seq<Message>)
    ensures TruncatedFrom([], whole)
  {
  }

  // ----- Protocol errors -----

  /**
    * The frames that a reader looks at, length bytes of a message counted: up to and including
    * the first Close, or the first one that makes its message longer than the limit.
    */
  function ThroughStop(limit: int, length: int, fs: seq<Frame>): (r: seq<Frame>)
    ensures AllEncodable(fs) ==> AllEncodable(r)
    decreases |fs|
  {
    if fs == [] then []
    else
      var f, more := fs[0], fs[1..];
      var total := Int64(length + |f.payload|);
      if f.opcode == CLOSE_MESSAGE then [f]
      else if IsControl(f.opcode) then [f] + ThroughStop(limit, length, more)
      else if limit > 0 && total > limit then [f]
      else [f] + ThroughStop(limit, if f.fin then 0 else total, more)
  }

  /** The frames before the first Close. */
  function BeforeClose(fs: seq<Frame>): (r: seq<Frame>)
    ensures |r| <= |fs|
    ensures |r| < |fs| ==> fs[|r|].opcode == CLOSE_MESSAGE
    ensures |r| == |fs| ==> r == fs
  {
    if fs == [] || fs[0].opcode == CLOSE_MESSAGE then [] else [fs[0]] + BeforeClose(fs[1..])
  }

  lemma {:induction false} BeforeCloseFits(a: Assembly, fs: seq<Frame>)
    ensures Assemble(a, fs).Some? ==> Assemble(a, BeforeClose(fs)).Some?
    ensures NoClose(BeforeClose(fs)) && BeforeClose(fs) <= fs
    decreases |fs|
  {
    if fs != [] && fs[0].opcode != CLOSE_MESSAGE {
      var r := BeforeClose(fs[1..]);
      assert ([fs[0]] + r)[1..] == r;
      if Accept(a, fs[0]).Some? {
        BeforeCloseFits(Accept(a, fs[0]).value, fs[1..]);
      } else {
        BeforeCloseFits(a, fs[1..]);
      }
    }
  }

  /** Sections 5.2 and 5.1 of RFC 6455, for a frame that a reader of this role gets. */
  predicate RoleFits(f: Frame, isServer: bool) {
    f.reserved == 0 && f.key.Some? == isServer
  }

  ghost predicate AllRolesFit(fs: seq<Frame>, isServer: bool) {
    forall i :: 0 <= i < |fs| ==> RoleFits(fs[i], isServer)
  }

  lemma ViolationIsRejection(f: Frame, isServer: bool, a: Assembly)
    requires f.Encodable()
    ensures FrameViolation(f, isServer, a.open.None?).None? <==> Accept(a, f).Some? && RoleFits(f, isServer)
  {
  }

  lemma AllRolesFitFront(fs: seq<Frame>, isServer: bool)
    requires fs != []
    ensures AllRolesFit(fs, isServer) <==> RoleFits(fs[0], isServer) && AllRolesFit(fs[1..], isServer)
  {
    assert forall i :: 0 < i < |fs| ==> fs[i] == fs[1..][i - 1];
    assert forall i :: 0 <= i < |fs[1..]| ==> fs[1..][i] == fs[i + 1];
  }

  lemma {:induction false} RejectionByFrames(cfg: Setting, a: Assembly, length: int, fs: seq<Frame>)
    requires AllEncodable(fs)
    ensures var g := ThroughStop(cfg.limit, length, fs);
      FrameOutlook(cfg, a.open, length, fs).error.Protocol? <==> !(Assemble(a, g).Some? && AllRolesFit(g, cfg.isServer))
    decreases |fs|
  {
    hide FrameViolation, Frame.Encodable, Int64, RoleFits;
    if fs != [] {
      var f, more, g := fs[0], fs[1..], ThroughStop(cfg.limit, length, fs);
      assert f.Encodable() && AllEncodable(more);
      assert g[0] == f;
      assert Assemble(a, g) == match Accept(a, f) case None => None case Some(b) => Assemble(b, g[1..]);
      ViolationIsRejection(f, cfg.isServer, a);
      AllRolesFitFront(g, cfg.isServer);
      hide AllRolesFit;
      var total := Int64(length + |f.payload|);
      if FrameViolation(f, cfg.isServer, a.open.None?).Some? {
      } else if f.opcode == CLOSE_MESSAGE || (!IsControl(f.opcode) && cfg.limit > 0 && total > cfg.limit) {
        assert g[1..] == [] && AllRolesFit([], cfg.isServer) by { NoRoles(cfg.isServer); }
      } else {
        var b, next := Accept(a, f).value, if IsControl(f.opcode) then length else if f.fin then 0 else total;
        assert g[1..] == ThroughStop(cfg.limit, next, more);
        RejectionByFrames(cfg, b, next, more);
      }
    } else {
      assert AllRolesFit(fs, cfg.isServer);
    }
  }

  lemma NoRoles(isServer: bool)
    ensures AllRolesFit([], isServer)
  {
  }

  /**
    * The reader reports a protocol error exactly when the frames it gets, up to the first
    * Close or the first that passes the read limit, break a rule: reserved bits, the mask flag
    * of the role, the shape of a control frame, an unknown opcode, or the fragmentation grammar
    * of section 5.4. Length forms that are longer than needed are no error on data frames.
    */
  lemma ProtocolErrorsExactly(cfg: Setting, st: ReadState, fs: seq<Frame>)
    requires AllEncodable(fs) && Fresh(st)
    ensures var g := ThroughStop(cfg.limit, 0, fs);
      View(cfg, st, None, EncodeAll(fs)).error.Protocol? <==> !(Legal(g) && AllRolesFit(g, cfg.isServer))
  {
    ViewOfFrames(cfg, st, None, fs);
    RejectionByFrames(cfg, EMPTY_ASSEMBLY, 0, fs);
    AssemblyIsTheGrammar(ThroughStop(cfg.limit, 0, fs));
  }
}
