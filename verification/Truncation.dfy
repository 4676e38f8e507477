/**
  * What a reader reports when the stream ends early. doc.go says that an application reads
  * a message until io.EOF; but messageReader.Read also returns io.EOF when the stream ends
  * inside the payload of a frame.
  */
module Truncation {
  import opened Wrappers
  import opened Bytes
  import opened Masking
  import opened Frames
  import opened FrameParser
  import opened Receiver
  import opened RoundTrip

  /** A stream that ends inside the header of a frame gives no header. */
  lemma CutHeader(f: Frame, s: seq<byte>, isServer: bool, final: bool, fault: Fault)
    requires f.Encodable() && FrameViolation(f, isServer, final).None?
    requires s < Encode(f) && |s| < |HeaderBytes(f)|
    ensures ParseHeader(s, isServer, final, fault) == BadHeader(FullReadError(fault))
  {
    hide FirstByte, SecondByte, CheckStart, FrameViolation, LengthBytes, LengthCodeOf, MaskedOf, PayloadLength, Masked, Frame.Encodable;
    if |s| >= 2 {
      FrameLayout(f, []);
      assert Encode(f) + [] == Encode(f);
      assert s[0] == FirstByte(f) && s[1] == SecondByte(f);
      CheckStartOfFrame(f, isServer, final);
      SecondByteFields(f);
      LengthFieldRoundTrip(f);
      NoViolation(f, isServer, final);
    }
  }

  /** A stream that ends after the header of a frame gives the whole header. */
  lemma CutPayload(f: Frame, s: seq<byte>, isServer: bool, final: bool, fault: Fault)
    requires f.Encodable() && FrameViolation(f, isServer, final).None?
    requires s <= Encode(f) && |s| >= |HeaderBytes(f)|
    ensures ParseHeader(s, isServer, final, fault) == GoodHeader(HeaderOf(f))
    ensures s[|HeaderBytes(f)|..] == WirePayload(f)[..|s| - |HeaderBytes(f)|]
  {
    hide FirstByte, SecondByte, CheckStart, FrameViolation, LengthBytes, LengthCodeOf, MaskedOf, FinalOf, OpcodeOf,
         PayloadLength, Masked, Frame.Encodable, ParseHeader, KeyBytes, WirePayload;
    var head := HeaderBytes(f);
    FrameLayout(f, []);
    assert Encode(f) + [] == Encode(f) == head + WirePayload(f);
    assert s == Encode(f)[..|s|];
    assert s[|head|..] == WirePayload(f)[..|s| - |head|];
    var e := 2 + |LengthBytes(f)|;
    assert s[2..e] == Encode(f)[2..e] && s[e..e + |KeyBytes(f)|] == Encode(f)[e..e + |KeyBytes(f)|];
    CheckStartOfFrame(f, isServer, final);
    FirstByteFields(f);
    SecondByteFields(f);
    LengthFieldRoundTrip(f);
    KeyBytesOf(f);
    NoViolation(f, isServer, final);
    ParseParts(s, isServer, final, fault, f.fin, f.opcode, f.key, LengthBytes(f), KeyBytes(f));
  }

  lemma KeyBytesOf(f: Frame)
    ensures KeyBytes(f) == if f.key.Some? then f.key.value else []
  {
  }

  lemma UnmaskedPrefix(cfg: Setting, st: ReadState, f: Frame, j: nat)
    requires f.Encodable() && f.key.Some? == cfg.isServer && j <= |f.payload|
    ensures Unmasked(cfg, AfterHeader(st, HeaderOf(f)), WirePayload(f)[..j]) == f.payload[..j]
  {
    UnmaskedFrame(cfg, st, f);
    var after := AfterHeader(st, HeaderOf(f));
    if cfg.isServer {
      assert Masked(after.key, 0, WirePayload(f)[..j]) == Masked(after.key, 0, WirePayload(f))[..j];
    }
  }

  // ----- One frame -----

  /** Frame f after the message that is open, with the first j bytes of its payload. */
  function PartOf(open: Option<Message>, f: Frame, j: nat): Message
    requires j <= |f.payload|
  {
    WithFrame(open, f.(payload := f.payload[..j]))
  }

  /** The payload of f has begun, and s ends in it. */
  predicate InPayload(f: Frame, s: seq<byte>)
    requires f.Encodable()
  {
    !IsControl(f.opcode) && |HeaderBytes(f)| <= |s| < |Encode(f)|
  }

  /** The int64 count of the message's bytes is above the limit. */
  predicate TooLong(limit: int, open: Option<Message>, f: Frame) {
    limit > 0 && Int64(|WithFrame(open, f).payload|) > limit
  }

  /**
    * What the beginning s of frame f tells the application. If it has the whole header of a
    * text, binary or continuation frame, a clean end passes for the end of the message.
    */
  function CutOutlook(cfg: Setting, open: Option<Message>, f: Frame, s: seq<byte>): Outlook
    requires f.Encodable()
  {
    if !InPayload(f, s) then Outlook([], FullReadError(cfg.fault))
    else if TooLong(cfg.limit, open, f) then Outlook([], ReadLimit, [CloseFrame(MESSAGE_TOO_BIG)])
    else Ended(cfg, PartOf(open, f, |s| - |HeaderBytes(f)|))
  }

  lemma CutControl(cfg: Setting, st: ReadState, f: Frame, s: seq<byte>)
    requires f.Encodable() && IsControl(f.opcode) && st.remaining <= 0 && s < Encode(f)
    requires FrameViolation(f, cfg.isServer, st.final).None?
    ensures Advance(cfg, st, s) == Stop(FullReadError(cfg.fault), [])
  {
    hide Encode, ParseHeader, FrameViolation, HeaderBytes, Frame.Encodable;
    FrameBytes(f);
    if |s| < |HeaderBytes(f)| {
      CutHeader(f, s, cfg.isServer, st.final, cfg.fault);
    } else {
      CutPayload(f, s, cfg.isServer, st.final, cfg.fault);
    }
  }

  lemma FrameBytes(f: Frame)
    requires f.Encodable()
    ensures |Encode(f)| == |HeaderBytes(f)| + |f.payload|
  {
  }

  lemma CutData(cfg: Setting, st: ReadState, f: Frame, s: seq<byte>)
    requires f.Encodable() && !IsControl(f.opcode) && st.remaining <= 0 && s < Encode(f)
    requires FrameViolation(f, cfg.isServer, st.final).None?
    ensures Advance(cfg, st, s)
         == if |s| < |HeaderBytes(f)| then Stop(FullReadError(cfg.fault), [])
            else DataStep(cfg, AfterHeader(st, HeaderOf(f)), f.opcode, s[|HeaderBytes(f)|..])
  {
    hide Encode, ParseHeader, FrameViolation, HeaderBytes, DataStep, Frame.Encodable;
    if |s| < |HeaderBytes(f)| {
      CutHeader(f, s, cfg.isServer, st.final, cfg.fault);
    } else {
      CutPayload(f, s, cfg.isServer, st.final, cfg.fault);
    }
  }

  /** A frame of any message, first, middle, last or only, that the end of the stream cuts. */
  lemma CutMessageLooksWhole(cfg: Setting, st: ReadState, open: Option<Message>, f: Frame, s: seq<byte>)
    requires f.Encodable() && AtHeader(st, open) && s < Encode(f) && FrameViolation(f, cfg.isServer, st.final).None?
    requires cfg.limit > 0 ==> st.length == if open.Some? then |open.value.payload| else 0
    ensures View(cfg, st, open, s) == CutOutlook(cfg, open, f, s)
  {
    hide View, Advance, Encode, FrameViolation, HeaderBytes, Frame.Encodable, Masked, WirePayload;
    FrameBytes(f);
    ViewUnfolds(cfg, st, open, s);
    if IsControl(f.opcode) {
      CutControl(cfg, st, f, s);
    } else {
      CutData(cfg, st, f, s);
      if |s| >= |HeaderBytes(f)| {
        CutBody(cfg, st, open, f, s);
      }
    }
  }

  lemma CutBody(cfg: Setting, st: ReadState, open: Option<Message>, f: Frame, s: seq<byte>)
    requires f.Encodable() && AtHeader(st, open) && !IsControl(f.opcode) && FrameViolation(f, cfg.isServer, st.final).None?
    requires cfg.limit > 0 ==> st.length == if open.Some? then |open.value.payload| else 0
    requires s < Encode(f) && |HeaderBytes(f)| <= |s| < |Encode(f)|
    requires Advance(cfg, st, s) == DataStep(cfg, AfterHeader(st, HeaderOf(f)), f.opcode, s[|HeaderBytes(f)|..])
    ensures View(cfg, st, open, s) == CutOutlook(cfg, open, f, s)
  {
    hide View, Advance, Encode, HeaderBytes, Frame.Encodable, Masked, WirePayload, Unmasked, FrameViolation, Int64;
    hide AfterHeader, Extended, Ended, TooLong, PartOf;
    var after, body := AfterHeader(st, HeaderOf(f)), s[|HeaderBytes(f)|..];
    var total := Int64(st.length + |f.payload|);
    ViewUnfolds(cfg, st, open, s);
    FrameBytes(f);
    NoViolation(f, cfg.isServer, st.final);
    Begins(f, cfg.isServer, st.final);
    CutPayload(f, s, cfg.isServer, st.final, cfg.fault);
    Counts(cfg, st, open, f);
    BodyRead(cfg, st, f, body, total);
    if !(cfg.limit > 0 && total > cfg.limit) {
      var ready := after.(length := total);
      var begun := if open.None? then Message(f.opcode, []) else open.value;
      CutOff(cfg, ready, begun, body);
      Part(open, f, |body|);
    }
  }

  lemma BodyRead(cfg: Setting, st: ReadState, f: Frame, body: seq<byte>, total: int)
    requires f.Encodable() && f.key.Some? == cfg.isServer && |body| <= |f.payload| && body == WirePayload(f)[..|body|]
    ensures var after := AfterHeader(st, HeaderOf(f));
      && after.remaining == |f.payload| && after.length == st.length
      && Unmasked(cfg, after.(length := total), body) == f.payload[..|body|]
  {
    hide Unmasked, WirePayload;
    UnmaskedPrefix(cfg, st, f, |body|);
    var after := AfterHeader(st, HeaderOf(f));
    UnmaskedIgnoresLength(cfg, after, after.(length := total), body);
  }

  lemma CutOff(cfg: Setting, st: ReadState, m: Message, s: seq<byte>)
    requires st.remaining > |s|
    ensures View(cfg, st, Some(m), s) == Ended(cfg, Extended(m, Unmasked(cfg, st, s)))
  {
    hide Advance, Unmasked;
  }

  lemma Begins(f: Frame, isServer: bool, final: bool)
    requires FrameViolation(f, isServer, final).None? && !IsControl(f.opcode)
    ensures if final then IsData(f.opcode) else f.opcode == CONTINUATION_FRAME
  {
  }

  lemma Counts(cfg: Setting, st: ReadState, open: Option<Message>, f: Frame)
    requires cfg.limit > 0 ==> st.length == if open.Some? then |open.value.payload| else 0
    ensures (cfg.limit > 0 && Int64(st.length + |f.payload|) > cfg.limit) <==> TooLong(cfg.limit, open, f)
  {
  }

  lemma Part(open: Option<Message>, f: Frame, j: nat)
    requires j <= |f.payload|
    ensures Extended(if open.None? then Message(f.opcode, []) else open.value, f.payload[..j]) == PartOf(open, f, j)
  {
    assert [] + f.payload[..j] == f.payload[..j];
  }

  /**
    * Exactly when reading on reports an error although a message m needs more frames: the
    * stream ends before the header of the next frame is complete, or right after a frame
    * that is not the last, and not together with its payload; or the header says that the
    * message is longer than the read limit. Anywhere else in a frame, the end goes unnoticed.
    */
  lemma CutIsNoticedExactly(cfg: Setting, st: ReadState, m: Message, f: Frame, s: seq<byte>)
    requires f.SentBy(!cfg.isServer) && f.opcode == CONTINUATION_FRAME && cfg.fault == EOF
    requires AtFrameStart(st, Some(m)) && !IsControl(m.opcode) && f.Encodable() && s <= Encode(f)
    requires cfg.limit > 0 ==> st.length == |m.payload|
    ensures ReadToEnd(cfg, st, m, s).error.Some?
       <==> |s| < |HeaderBytes(f)| || TooLong(cfg.limit, Some(m), f) || (|s| == |Encode(f)| && !f.fin && !AtOnce(cfg, f))
  {
    hide View, ReadToEnd, Encode, FrameViolation, HeaderBytes, DataMessages, Frame.SentBy, Frame.Encodable;
    SentFrameIsFine(cfg, Assembly([], Some(m)), f);
    WholeMessageIsReported(cfg, st, m, s);
    FrameBytes(f);
    NoMessages();
    if s < Encode(f) {
      CutMessageLooksWhole(cfg, st, Some(m), f, s);
      if InPayload(f, s) {
        OneMessage(PartOf(Some(m), f, |s| - |HeaderBytes(f)|));
      }
    } else {
      assert s == Encode(f);
      WholeFrame(cfg, st, m, f);
    }
  }

  lemma OneMessage(m: Message)
    ensures DataMessages([m]) == if IsControl(m.opcode) then [] else [m]
  {
    assert [m][..0] == [];
  }

  lemma WholeFrame(cfg: Setting, st: ReadState, m: Message, f: Frame)
    requires f.Encodable() && f.opcode == CONTINUATION_FRAME && cfg.fault == EOF
    requires AtFrameStart(st, Some(m)) && !IsControl(m.opcode) && FrameViolation(f, cfg.isServer, false).None?
    requires cfg.limit > 0 ==> st.length == |m.payload|
    ensures DataMessages(View(cfg, st, Some(m), Encode(f)).messages) != []
       <==> !TooLong(cfg.limit, Some(m), f) && (f.fin || AtOnce(cfg, f))
  {
    hide View, Encode, FrameViolation, HeaderBytes, DataMessages, Int64;
    Counts(cfg, st, Some(m), f);
    assert Encode(f) + [] == Encode(f);
    var m' := WithFrame(Some(m), f);
    OneMessage(m');
    OneMessage(m);
    assert DataMessages([]) == [] by { NoMessages(); }
    if AtOnce(cfg, f) {
      ViewOfLast(cfg, st, Some(m), f);
    } else {
      ViewOfData(cfg, st, Some(m), f, []);
      if TooLong(cfg.limit, Some(m), f) {
      } else if f.fin {
        var st' :| AtFrameStart(st', None) && View(cfg, st, Some(m), Encode(f)) == Prepend(m', View(cfg, st', None, []));
        ViewAtEnd(cfg, st', None);
        assert [m'] + [] == [m'];
      } else {
        var st' :| AtFrameStart(st', Some(m')) && st'.length == Int64(st.length + |f.payload|)
          && View(cfg, st, Some(m), Encode(f)) == View(cfg, st', Some(m'), []);
        ViewAtEnd(cfg, st', Some(m'));
      }
    }
  }

  lemma NoMessages()
    ensures DataMessages([]) == []
  {
  }

  // ----- A stream of frames -----

  /** Whole frames fs and then the beginning s of frame f. */
  lemma CutStream(cfg: Setting, st: ReadState, fs: seq<Frame>, f: Frame, s: seq<byte>)
    requires AllSentBy(fs, !cfg.isServer) && NoClose(fs) && AllEncodable(fs) && cfg.limit < 0x8000_0000_0000_0000
    requires Assemble(EMPTY_ASSEMBLY, fs).Some? && AllFit(cfg.limit, Assemble(EMPTY_ASSEMBLY, fs).value) && Fresh(st)
    requires f.SentBy(!cfg.isServer) && f.Encodable() && Accept(Assemble(EMPTY_ASSEMBLY, fs).value, f).Some?
    requires s != [] && s < Encode(f)
    ensures var a := Assemble(EMPTY_ASSEMBLY, fs).value;
      View(cfg, st, None, EncodeAll(fs) + s) == PrependAll(a.done, CutOutlook(cfg, a.open, f, s))
  {
    hide View, Encode, FrameViolation, HeaderBytes, Frame.SentBy, Frame.Encodable, Accept, CutOutlook;
    var a := Assemble(EMPTY_ASSEMBLY, fs).value;
    var after := ReaderFollowsWriter(cfg, st, EMPTY_ASSEMBLY, fs, s);
    assert a.done[|EMPTY_ASSEMBLY.done|..] == a.done;
    SentFrameIsFine(cfg, a, f);
    AllFitEarlier(0, EMPTY_ASSEMBLY, fs);
    CutMessageLooksWhole(cfg, after, a.open, f, s);
  }

  /** Where in a stream of frames its beginning s ends: after k frames, and u of the next. */
  lemma {:induction false} EndsIn(fs: seq<Frame>, s: seq<byte>) returns (k: nat, u: seq<byte>)
    requires AllEncodable(fs) && s <= EncodeAll(fs)
    ensures k <= |fs| && AllEncodable(fs[..k]) && s == EncodeAll(fs[..k]) + u
    ensures if k == |fs| then u == [] else u < Encode(fs[k])
  {
    hide Encode, Frame.Encodable;
    if fs == [] {
      k, u := 0, [];
    } else {
      var head, more := Encode(fs[0]), fs[1..];
      if |s| < |head| {
        k, u := 0, s;
        assert s < head;
      } else {
        assert head == EncodeAll(fs)[..|head|] == s[..|head|];
        var j, v := EndsIn(more, s[|head|..]);
        k, u := j + 1, v;
        assert fs[..k][1..] == more[..j] && fs[..k][0] == fs[0];
        assert s == head + s[|head|..];
        assert s == EncodeAll(fs[..k]) + u;
      }
    }
  }

  /** The beginning s of a stream, k whole frames and u, makes a message look whole that is not. */
  predicate OneTooMany(cfg: Setting, fs: seq<Frame>, a: Assembly, k: nat, u: seq<byte>)
    requires k <= |fs| && (k < |fs| ==> fs[k].Encodable())
  {
    if u == [] then !Calm(cfg, fs[..k], []) && a.open.Some? else k < |fs| && InPayload(fs[k], u)
  }

  lemma {:induction false} EncodeAllConcat(fs: seq<Frame>, gs: seq<Frame>)
    requires AllEncodable(fs) && AllEncodable(gs)
    ensures AllEncodable(fs + gs) && EncodeAll(fs + gs) == EncodeAll(fs) + EncodeAll(gs)
    decreases |fs|
  {
    hide Encode, Frame.Encodable;
    if fs == [] {
      assert fs + gs == gs;
    } else {
      assert (fs + gs)[1..] == fs[1..] + gs;
      EncodeAllConcat(fs[1..], gs);
      assert Encode(fs[0]) + (EncodeAll(fs[1..]) + EncodeAll(gs)) == EncodeAll(fs) + EncodeAll(gs);
    }
  }

  /** Where the reader stands after the beginning s: it goes no further than the first Close. */
  ghost predicate StandsAt(fs: seq<Frame>, s: seq<byte>, k: nat, u: seq<byte>) {
    && k <= |BeforeClose(fs)| && AllEncodable(fs[..k]) && s == EncodeAll(fs[..k]) + u
    && if k == |fs| then u == []
       else fs[k].Encodable() && (u < Encode(fs[k]) || (fs[k].opcode == CLOSE_MESSAGE && Encode(fs[k]) <= u))
  }

  lemma Regrouped(a: seq<byte>, b: seq<byte>, c: seq<byte>, d: seq<byte>)
    ensures a + (b + c) + d == a + (b + (c + d))
  {
  }

  lemma StandsBefore(fs: seq<Frame>, s: seq<byte>) returns (k: nat, u: seq<byte>)
    requires AllEncodable(fs) && s <= EncodeAll(fs)
    ensures StandsAt(fs, s, k, u)
  {
    hide Encode, Frame.Encodable, BeforeClose;
    k, u := EndsIn(fs, s);
    var n := |BeforeClose(fs)|;
    if k > n {
      var front, rest := fs[..n], fs[n + 1..k];
      assert fs[..k] == front + ([fs[n]] + rest);
      assert forall i :: 0 <= i < |rest| ==> rest[i] == fs[n + 1 + i];
      assert ([fs[n]] + rest)[1..] == rest;
      EncodeAllConcat(front, [fs[n]] + rest);
      Regrouped(EncodeAll(front), Encode(fs[n]), EncodeAll(rest), u);
      k, u := n, Encode(fs[n]) + (EncodeAll(rest) + u);
    }
  }

  /**
    * Any beginning s of a stream that a writer of the other role may send, with a clean end:
    * the application gets the messages that are complete in it, before a Close if there is
    * one; and exactly if s ends inside the payload of a text, binary or continuation frame
    * (or, from an eager transport, with the payload of a frame that is not the last of its
    * message) one more, which is cut.
    */
  lemma CutStreamExactly(cfg: Setting, st: ReadState, fs: seq<Frame>, s: seq<byte>) returns (k: nat, u: seq<byte>)
    requires AllSentBy(fs, !cfg.isServer) && AllEncodable(fs) && cfg.limit < 0x8000_0000_0000_0000
    requires Assemble(EMPTY_ASSEMBLY, fs).Some? && Assemble(EMPTY_ASSEMBLY, BeforeClose(fs)).Some?
    requires AllFit(cfg.limit, Assemble(EMPTY_ASSEMBLY, BeforeClose(fs)).value) && Fresh(st)
    requires s <= EncodeAll(fs) && cfg.fault == EOF
    ensures StandsAt(fs, s, k, u) && Assemble(EMPTY_ASSEMBLY, fs[..k]).Some?
    ensures var a := Assemble(EMPTY_ASSEMBLY, fs[..k]).value;
      View(cfg, st, None, s).messages
      == a.done + (if !OneTooMany(cfg, fs, a, k, u) then []
                   else if u == [] then [a.open.value]
                   else [PartOf(a.open, fs[k], |u| - |HeaderBytes(fs[k])|)])
  {
    hide View, Encode, HeaderBytes, Frame.SentBy, Frame.Encodable, Calm, BeforeClose, Accept, Assemble, AllFit, Fresh,
         EncodeAll, AllSentBy, NoClose, InPayload, PartOf, TooLong;
    k, u := StandsLegally(cfg, fs, s);
    if u == [] {
      assert EncodeAll(fs[..k]) + u == EncodeAll(fs[..k]);
      CutBetweenFrames(cfg, st, fs[..k]);
    } else if u < Encode(fs[k]) {
      CutInFrame(cfg, st, fs[..k], fs[k], u);
    } else {
      CutAfterClose(cfg, st, fs[..k], fs[k], u);
      NothingInPayload(fs[k], u);
    }
  }

  /** Frames that another role may send, without a Close and within the limit. */
  ghost predicate Legal(cfg: Setting, fs: seq<Frame>) {
    && AllSentBy(fs, !cfg.isServer) && NoClose(fs) && AllEncodable(fs) && cfg.limit < 0x8000_0000_0000_0000
    && Assemble(EMPTY_ASSEMBLY, fs).Some? && AllFit(cfg.limit, Assemble(EMPTY_ASSEMBLY, fs).value)
  }

  /** And frame f may come next. */
  ghost predicate LegalNext(cfg: Setting, fs: seq<Frame>, f: Frame) {
    && Legal(cfg, fs) && f.SentBy(!cfg.isServer) && f.Encodable()
    && var a := Assemble(EMPTY_ASSEMBLY, fs).value;
       Accept(a, f).Some? && (!IsControl(f.opcode) ==> !TooLong(cfg.limit, a.open, f))
  }

  lemma StandsLegally(cfg: Setting, fs: seq<Frame>, s: seq<byte>) returns (k: nat, u: seq<byte>)
    requires AllSentBy(fs, !cfg.isServer) && AllEncodable(fs) && cfg.limit < 0x8000_0000_0000_0000
    requires Assemble(EMPTY_ASSEMBLY, fs).Some? && Assemble(EMPTY_ASSEMBLY, BeforeClose(fs)).Some?
    requires AllFit(cfg.limit, Assemble(EMPTY_ASSEMBLY, BeforeClose(fs)).value) && s <= EncodeAll(fs)
    ensures StandsAt(fs, s, k, u) && Legal(cfg, fs[..k]) && (k < |fs| ==> LegalNext(cfg, fs[..k], fs[k]))
  {
    hide Encode, EncodeAll, Frame.SentBy, Frame.Encodable, BeforeClose, Accept, Assemble, AllFit, TooLong;
    k, u := StandsBefore(fs, s);
    BeforeCloseFits(EMPTY_ASSEMBLY, fs);
    var g := BeforeClose(fs);
    assert g[..k] == fs[..k];
    PrefixFits(cfg.limit, g, k);
    PrefixSent(g, k, !cfg.isServer);
    if k < |fs| {
      NextAccepted(fs, k);
      NextFits(cfg.limit, g, k);
    }
  }

  lemma NothingInPayload(f: Frame, s: seq<byte>)
    requires f.Encodable() && Encode(f) <= s
    ensures !InPayload(f, s)
  {
    hide Encode, HeaderBytes;
  }

  lemma CutBetweenFrames(cfg: Setting, st: ReadState, fs: seq<Frame>)
    requires Legal(cfg, fs) && Fresh(st) && cfg.fault == EOF
    ensures var a := Assemble(EMPTY_ASSEMBLY, fs).value;
      View(cfg, st, None, EncodeAll(fs)).messages
      == a.done + if !Calm(cfg, fs, []) && a.open.Some? then [a.open.value] else []
  {
    hide View, Assemble, Calm, AllFit, Fresh, EncodeAll, AllEncodable, AllSentBy, NoClose;
    MessageRoundTrip(cfg, st, fs);
  }

  lemma CutInFrame(cfg: Setting, st: ReadState, fs: seq<Frame>, f: Frame, u: seq<byte>)
    requires LegalNext(cfg, fs, f) && Fresh(st) && cfg.fault == EOF && u != [] && u < Encode(f)
    ensures var a := Assemble(EMPTY_ASSEMBLY, fs).value;
      View(cfg, st, None, EncodeAll(fs) + u).messages
      == a.done + if InPayload(f, u) then [PartOf(a.open, f, |u| - |HeaderBytes(f)|)] else []
  {
    hide View, Assemble, AllFit, Fresh, EncodeAll, AllEncodable, AllSentBy, NoClose, Encode, HeaderBytes, Accept, PartOf, TooLong;
    CutStream(cfg, st, fs, f, u);
  }

  lemma CutAfterClose(cfg: Setting, st: ReadState, fs: seq<Frame>, f: Frame, u: seq<byte>)
    requires LegalNext(cfg, fs, f) && Fresh(st) && f.opcode == CLOSE_MESSAGE && Encode(f) <= u
    ensures View(cfg, st, None, EncodeAll(fs) + u).messages == Assemble(EMPTY_ASSEMBLY, fs).value.done
  {
    hide View, Assemble, AllFit, Fresh, EncodeAll, AllEncodable, AllSentBy, NoClose, Encode, Accept, CloseError;
    var t := u[|Encode(f)|..];
    assert u == Encode(f) + t;
    CloseIsControl(Assemble(EMPTY_ASSEMBLY, fs).value, f);
    MessageRoundTripToClose(cfg, st, fs, f, t);
  }

  lemma NextAccepted(fs: seq<Frame>, k: nat)
    requires k < |fs| && Assemble(EMPTY_ASSEMBLY, fs).Some?
    ensures var a := Assemble(EMPTY_ASSEMBLY, fs[..k]); a.Some? && Accept(a.value, fs[k]).Some?
  {
    assert fs == fs[..k] + fs[k..];
    AssembleSplit(EMPTY_ASSEMBLY, fs[..k], fs[k..]);
  }

  lemma CloseIsControl(a: Assembly, f: Frame)
    requires Accept(a, f).Some? && f.opcode == CLOSE_MESSAGE
    ensures GoodControl(f)
  {
  }

  lemma PrefixSent(fs: seq<Frame>, k: nat, isServer: bool)
    requires k <= |fs| && AllSentBy(fs, isServer) && NoClose(fs) && AllEncodable(fs)
    ensures AllSentBy(fs[..k], isServer) && NoClose(fs[..k]) && AllEncodable(fs[..k])
    ensures k < |fs| ==> fs[k].SentBy(isServer) && fs[k].Encodable()
  {
  }

  lemma {:induction false} AssembleSplit(a: Assembly, fs: seq<Frame>, gs: seq<Frame>)
    ensures Assemble(a, fs + gs) == match Assemble(a, fs) case None => None case Some(b) => Assemble(b, gs)
    decreases |fs|
  {
    if fs == [] {
      assert fs + gs == gs;
    } else {
      assert (fs + gs)[1..] == fs[1..] + gs;
      match Accept(a, fs[0])
      case None =>
      case Some(b) => AssembleSplit(b, fs[1..], gs);
    }
  }

  lemma PrefixFits(limit: int, fs: seq<Frame>, k: nat)
    requires k <= |fs| && Assemble(EMPTY_ASSEMBLY, fs).Some? && AllFit(limit, Assemble(EMPTY_ASSEMBLY, fs).value)
    ensures var a := Assemble(EMPTY_ASSEMBLY, fs[..k]);
      a.Some? && AllFit(limit, a.value) && DataOpen(a.value) && Assemble(EMPTY_ASSEMBLY, fs) == Assemble(a.value, fs[k..])
  {
    assert fs == fs[..k] + fs[k..];
    AssembleSplit(EMPTY_ASSEMBLY, fs[..k], fs[k..]);
    AllFitEarlier(0, EMPTY_ASSEMBLY, fs[..k]);
    AllFitEarlier(limit, Assemble(EMPTY_ASSEMBLY, fs[..k]).value, fs[k..]);
  }

  lemma NextFits(limit: int, fs: seq<Frame>, k: nat)
    requires k <= |fs| && Assemble(EMPTY_ASSEMBLY, fs).Some? && AllFit(limit, Assemble(EMPTY_ASSEMBLY, fs).value)
    requires limit < 0x8000_0000_0000_0000
    ensures k < |fs| ==> var a := Assemble(EMPTY_ASSEMBLY, fs[..k]);
      a.Some? && Accept(a.value, fs[k]).Some? && (!IsControl(fs[k].opcode) ==> !TooLong(limit, a.value.open, fs[k]))
  {
    if k < |fs| {
      PrefixFits(limit, fs, k);
      var a := Assemble(EMPTY_ASSEMBLY, fs[..k]).value;
      AllFitEarlier(limit, Accept(a, fs[k]).value, fs[k..][1..]);
      if !IsControl(fs[k].opcode) {
        LastFits(limit, a, fs[k]);
      }
    }
  }
}
