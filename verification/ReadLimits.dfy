/** SetReadLimit: which messages it stops, and what an abandoned message does to it. */
module ReadLimits {
  import opened Wrappers
  import opened Bytes
  import opened Masking
  import opened Frames
  import opened FrameParser
  import opened Receiver
  import opened RoundTrip

  /** The int64 sum of message sizes in advanceFrame cannot wrap. */
  ghost predicate NoOverflow(limit: int, fs: seq<Frame>) {
    forall i :: 0 <= i < |fs| ==> limit + |fs[i].payload| < 0x8000_0000_0000_0000
  }

  // ----- After NextReader abandoned a message -----

  /** What the reader does with frames, while the ones of an abandoned message are skipped. */
  function SkipOutlook(cfg: Setting, length: int, fs: seq<Frame>): Outlook
    decreases |fs|
  {
    if fs == [] then Outlook([], FullReadError(cfg.fault))
    else
      var f, more := fs[0], fs[1..];
      var total := Int64(length + |f.payload|);
      var violation := FrameViolation(f, cfg.isServer, false);
      if violation.Some? then Outlook([], Protocol(violation.value), [CloseFrame(PROTOCOL_ERROR)])
      else if f.opcode == CLOSE_MESSAGE then Outlook([], CloseError(f.payload), [CloseFrame(NO_STATUS)])
      else if IsControl(f.opcode) then Prepend(Message(f.opcode, f.payload), SkipOutlook(cfg, length, more))
      else if cfg.limit > 0 && total > cfg.limit then Outlook([], ReadLimit, [CloseFrame(MESSAGE_TOO_BIG)])
      else if f.fin then FrameOutlook(cfg, None, total, more)
      else SkipOutlook(cfg, total, more)
  }

  lemma ViewOfSkippedHeader(cfg: Setting, st: ReadState, f: Frame, t: seq<byte>)
    requires f.Encodable() && !IsControl(f.opcode) && st.remaining == 0 && !st.final
    requires FrameViolation(f, cfg.isServer, false).None?
    ensures var total := Int64(st.length + |f.payload|);
      View(cfg, st, None, Encode(f) + t)
      == if cfg.limit > 0 && total > cfg.limit then Outlook([], ReadLimit, [CloseFrame(MESSAGE_TOO_BIG)])
         else View(cfg, AfterHeader(st, HeaderOf(f)).(length := total), None, WirePayload(f) + t)
  {
    hide View, Advance, Encode, WirePayload, HeaderBytes, FrameViolation, Int64, Frame.Encodable, AfterHeader;
    AdvanceOnData(cfg, st, f, t);
    HeaderFields(st, f);
    ViewUnfolds(cfg, st, None, Encode(f) + t);
  }

  lemma HeaderFields(st: ReadState, f: Frame)
    requires f.Encodable() && !IsControl(f.opcode)
    ensures var after := AfterHeader(st, HeaderOf(f));
      after.remaining == |f.payload| && after.final == f.fin && after.length == st.length
  {
  }

  /** A frame of an abandoned message is counted and leaves no other trace. */
  lemma SkippedFrame(cfg: Setting, st: ReadState, f: Frame, t: seq<byte>) returns (after: ReadState)
    requires f.Encodable() && !IsControl(f.opcode) && st.remaining == 0 && !st.final
    requires FrameViolation(f, cfg.isServer, false).None?
    ensures after.remaining == 0 && after.final == f.fin && after.length == Int64(st.length + |f.payload|)
    ensures View(cfg, st, None, Encode(f) + t)
         == if cfg.limit > 0 && after.length > cfg.limit then Outlook([], ReadLimit, [CloseFrame(MESSAGE_TOO_BIG)])
            else View(cfg, after, None, t)
  {
    ViewOfSkippedHeader(cfg, st, f, t);
    var mid, body := AfterHeader(st, HeaderOf(f)).(length := Int64(st.length + |f.payload|)), WirePayload(f) + t;
    hide View, Encode, WirePayload, HeaderBytes, Frame.Encodable, FrameViolation, Int64;
    after := Moved(cfg, mid, |f.payload|);
    assert body[|f.payload|..] == t;
    if |f.payload| > 0 {
      ViewSkips(cfg, mid, body);
    } else {
      MovedByNothing(cfg, mid, body, t);
    }
  }

  lemma MovedByNothing(cfg: Setting, mid: ReadState, body: seq<byte>, t: seq<byte>)
    requires body == t && mid.remaining == 0
    ensures View(cfg, mid, None, body) == View(cfg, Moved(cfg, mid, 0), None, t)
  {
    hide ParseHeader, Masked;
    HeaderKeyByRole(body, cfg.isServer, mid.final, cfg.fault);
  }

  lemma {:induction false} ViewOfSkipped(cfg: Setting, st: ReadState, fs: seq<Frame>)
    requires AllEncodable(fs) && st.remaining == 0 && !st.final
    ensures View(cfg, st, None, EncodeAll(fs)) == SkipOutlook(cfg, st.length, fs)
    decreases |fs|
  {
    hide Advance, Encode, Masked, Int64, Frame.Encodable, View;
    if fs == [] {
      NothingToSkip(cfg, st);
    } else {
      var f, more := fs[0], fs[1..];
      var s := Encode(f) + EncodeAll(more);
      assert f.Encodable() && AllEncodable(more);
      if FrameViolation(f, cfg.isServer, false).Some? {
        AdvanceOnFrame(cfg, st, f, EncodeAll(more));
        ViewUnfolds(cfg, st, None, s);
      } else if IsControl(f.opcode) {
        ViewOfControl(cfg, st, None, f, EncodeAll(more));
        if f.opcode != CLOSE_MESSAGE {
          var st' :| Passed(st, st')
            && View(cfg, st, None, s) == Prepend(Message(f.opcode, f.payload), View(cfg, st', None, EncodeAll(more)));
          ViewOfSkipped(cfg, st', more);
        }
      } else {
        var st' := SkippedFrame(cfg, st, f, EncodeAll(more));
        if f.fin {
          ViewOfFrames(cfg, st', None, more);
        } else {
          ViewOfSkipped(cfg, st', more);
        }
      }
    }
  }

  lemma NothingToSkip(cfg: Setting, st: ReadState)
    requires st.remaining == 0
    ensures View(cfg, st, None, []) == Outlook([], FullReadError(cfg.fault))
  {
  }

  // ----- Which messages are charged for it -----

  /** The data messages of an assembly in order, the open one last. */
  function AllData(b: Assembly): seq<Message> {
    DataMessages(b.done) + if b.open.Some? then [b.open.value] else []
  }

  /** Every message is within the limit, although other bytes are charged to the first. */
  ghost predicate Charged(limit: int, charge: int, ms: seq<Message>) {
    forall i :: 0 <= i < |ms| ==> |ms[i].payload| + (if i == 0 then charge else 0) <= limit
  }

  /** The first message is what is left of an abandoned one, and is charged to the second. */
  ghost predicate ChargedToNext(limit: int, ms: seq<Message>) {
    forall i :: 0 <= i < |ms| ==> |ms[i].payload| + (if i == 1 then |ms[0].payload| else 0) <= limit
  }

  lemma ChargedFront(limit: int, charge: int, m: Message, ms: seq<Message>)
    ensures Charged(limit, charge, [m] + ms) <==> |m.payload| + charge <= limit && Charged(limit, 0, ms)
    ensures ChargedToNext(limit, [m] + ms) <==> |m.payload| <= limit && Charged(limit, |m.payload|, ms)
  {
    var all := [m] + ms;
    if Charged(limit, charge, all) {
      assert forall i :: 0 <= i < |ms| ==> ms[i] == all[i + 1];
    }
    if ChargedToNext(limit, all) {
      assert forall i :: 0 <= i < |ms| ==> ms[i] == all[i + 1];
    }
  }

  /** Frames add to what is already assembled. */
  lemma {:induction false} AssembleOnto(done: seq<Message>, open: Option<Message>, fs: seq<Frame>)
    ensures Assemble(Assembly(done, open), fs)
         == match Assemble(Assembly([], open), fs)
            case None => None
            case Some(b) => Some(Assembly(done + b.done, b.open))
    decreases |fs|
  {
    if fs == [] {
      assert done + [] == done;
    } else {
      var x, y := Accept(Assembly(done, open), fs[0]), Accept(Assembly([], open), fs[0]);
      if y.Some? {
        assert x.Some? && x.value.open == y.value.open && x.value.done == done + y.value.done;
        AssembleOnto(x.value.done, x.value.open, fs[1..]);
        AssembleOnto(y.value.done, y.value.open, fs[1..]);
        var rest := Assemble(Assembly([], y.value.open), fs[1..]);
        if rest.Some? {
          assert done + y.value.done + rest.value.done == done + (y.value.done + rest.value.done);
        }
      }
    }
  }

  /** The data messages that frames after f complete or leave open, where f comes first. */
  lemma DataOfFirst(open: Option<Message>, fs: seq<Frame>)
    requires fs != [] && Assemble(Assembly([], open), fs).Some? && DataOpen(Assembly([], open))
    ensures var f, more := fs[0], fs[1..];
      var b, m := Assemble(Assembly([], open), fs).value, WithFrame(open, f);
      && Accept(Assembly([], open), f).Some?
      && (IsControl(f.opcode) ==>
        var c := Assemble(Assembly([], open), more);
        c.Some? && b == Assembly([Message(f.opcode, f.payload)] + c.value.done, c.value.open) && AllData(b) == AllData(c.value))
      && (!IsControl(f.opcode) ==> IsData(m.opcode))
      && (!IsControl(f.opcode) && f.fin ==>
        var c := Assemble(Assembly([], None), more);
        c.Some? && b == Assembly([m] + c.value.done, c.value.open) && AllData(b) == [m] + AllData(c.value))
      && (!IsControl(f.opcode) && !f.fin ==> Assemble(Assembly([], Some(m)), more) == Some(b))
  {
    hide Assemble, WithFrame, DataMessages, Frame.Encodable, AllData;
    var f, more := fs[0], fs[1..];
    FirstAccepted(open, fs);
    var mid := Accept(Assembly([], open), f).value;
    AssembleOnto(mid.done, mid.open, more);
    if mid.done != [] {
      DataFront(mid.done[0], Assemble(Assembly([], mid.open), more).value);
    }
  }

  lemma FirstAccepted(open: Option<Message>, fs: seq<Frame>)
    requires fs != [] && Assemble(Assembly([], open), fs).Some? && DataOpen(Assembly([], open))
    ensures var f, m := fs[0], WithFrame(open, fs[0]);
      var mid := Accept(Assembly([], open), f);
      && mid.Some? && Assemble(Assembly([], open), fs) == Assemble(mid.value, fs[1..])
      && (if IsControl(f.opcode) then mid.value == Assembly([Message(f.opcode, f.payload)], open)
          else IsData(m.opcode) && mid.value == if f.fin then Assembly([m], None) else Assembly([], Some(m)))
  {
  }

  lemma DataFront(m: Message, c: Assembly)
    ensures AllData(Assembly([m] + c.done, c.open)) == (if IsControl(m.opcode) then [] else [m]) + AllData(c)
  {
    FirstDataMessage(m, c.done);
  }

  lemma {:induction false} OpenOnlyGrows(limit: int, charge: int, m: Message, fs: seq<Frame>)
    requires IsData(m.opcode) && Assemble(Assembly([], Some(m)), fs).Some?
    requires |m.payload| + charge > limit
    ensures !Charged(limit, charge, AllData(Assemble(Assembly([], Some(m)), fs).value))
    decreases |fs|
  {
    var b := Assemble(Assembly([], Some(m)), fs).value;
    if fs == [] {
      assert AllData(b)[0] == m;
    } else {
      DataOfFirst(Some(m), fs);
      var f, more, x := fs[0], fs[1..], WithFrame(Some(m), fs[0]);
      if IsControl(f.opcode) {
        OpenOnlyGrows(limit, charge, m, more);
      } else if f.fin {
        ChargedFront(limit, charge, x, AllData(Assemble(Assembly([], None), more).value));
      } else {
        OpenOnlyGrows(limit, charge, x, more);
      }
    }
  }

  /** Frames that a writer may send, from the middle of a message on if one is open; a Close may be among them. */
  ghost predicate Continue(limit: int, isServer: bool, open: Option<Message>, fs: seq<Frame>) {
    && 0 < limit < 0x8000_0000_0000_0000 && NoOverflow(limit, fs)
    && AllSentBy(fs, isServer)
    && DataOpen(Assembly([], open)) && Assemble(Assembly([], open), fs).Some?
  }

  lemma ContinueAfter(limit: int, isServer: bool, open: Option<Message>, fs: seq<Frame>)
    requires Continue(limit, isServer, open, fs) && fs != []
    ensures limit > 0 && Assemble(Assembly([], open), fs).Some? && DataOpen(Assembly([], open))
    ensures var f, more := fs[0], fs[1..];
      && f.SentBy(isServer) && limit + |f.payload| < 0x8000_0000_0000_0000
      && FrameViolation(f, !isServer, open.None?).None?
      && Continue(limit, isServer, if IsControl(f.opcode) then open else if f.fin then None else Some(WithFrame(open, f)), more)
  {
    hide Frame.SentBy;
    DataOfFirst(open, fs);
    var f, more := fs[0], fs[1..];
    SentFrameIsFine(Setting(!isServer, 0, EOF, false), Assembly([], open), f);
    assert forall i :: 0 <= i < |more| ==> more[i] == fs[i + 1];
  }

  function Size(open: Option<Message>): nat {
    if open.Some? then |open.value.payload| else 0
  }

  /** What the frames tell, b those before the first Close put together: after a Close nothing counts. */
  function ToldToClose(cfg: Setting, fs: seq<Frame>, b: Assembly): Outlook {
    var n := |BeforeClose(fs)|;
    if n < |fs| then Outlook(b.done, CloseError(fs[n].payload), AllAnswers(b.done) + [CloseFrame(NO_STATUS)])
    else Told(cfg, fs, b)
  }

  /** No frame, or a Close, comes next. */
  lemma NothingTold(cfg: Setting, fs: seq<Frame>, open: Option<Message>)
    requires fs == [] || fs[0].opcode == CLOSE_MESSAGE
    ensures BeforeClose(fs) == [] && Assemble(Assembly([], open), []) == Some(Assembly([], open))
    ensures ToldToClose(cfg, fs, Assembly([], open))
         == if fs == [] then Outlook([], FullReadError(cfg.fault))
            else Outlook([], CloseError(fs[0].payload), [CloseFrame(NO_STATUS)])
  {
    hide CloseError;
  }

  lemma TellsNoLimit(cfg: Setting, fs: seq<Frame>, b: Assembly)
    ensures ToldToClose(cfg, fs, b).error != ReadLimit
  {
  }

  lemma CloseComes(f: Frame, more: seq<Frame>)
    ensures f.opcode == CLOSE_MESSAGE ==> BeforeClose([f] + more) == []
    ensures f.opcode != CLOSE_MESSAGE ==> BeforeClose([f] + more) == [f] + BeforeClose(more)
  {
    assert ([f] + more)[1..] == more;
  }

  /** The frames end with a text, binary or continuation frame. */
  predicate EndsInData(fs: seq<Frame>) {
    fs != [] && !IsControl(fs[|fs| - 1].opcode)
  }

  /** What is told of a message that frame f completes, and then of the frames after it. */
  lemma ToldBehind(cfg: Setting, f: Frame, more: seq<Frame>, m: Message, done: seq<Message>, open: Option<Message>)
    requires more == [] ==> !AtOnce(cfg, f)
    requires EndsInData(more) ==> done != [] || open.Some?
    ensures Told(cfg, [f] + more, Assembly([m] + done, open)) == Prepend(m, Told(cfg, more, Assembly(done, open)))
  {
    LastOfMore(cfg, f, more);
    if !Calm(cfg, more, []) && cfg.fault == EOF && open.Some? {
      assert [m] + done + [open.value] == [m] + (done + [open.value]);
    } else if done != [] {
      assert ([m] + done)[..|done|] == [m] + done[..|done| - 1];
    }
  }

  lemma LastOfMore(cfg: Setting, f: Frame, more: seq<Frame>)
    requires more == [] ==> !AtOnce(cfg, f)
    ensures Calm(cfg, [f] + more, []) <==> Calm(cfg, more, [])
    ensures !Calm(cfg, more, []) ==> EndsInData(more)
  {
  }

  /** A frame that does not complete a message changes nothing of what is told. */
  lemma ToldThrough(cfg: Setting, f: Frame, more: seq<Frame>, b: Assembly)
    requires (more == [] ==> !AtOnce(cfg, f)) && f.opcode != CLOSE_MESSAGE
    ensures Told(cfg, [f] + more, b) == Told(cfg, more, b)
    ensures ToldToClose(cfg, [f] + more, b) == ToldToClose(cfg, more, b)
  {
    LastOfMore(cfg, f, more);
    CloseComes(f, more);
    hide Told;
    if |BeforeClose(more)| < |more| {
      assert ([f] + more)[1 + |BeforeClose(more)|] == more[|BeforeClose(more)|];
    }
  }

  /** The last frame, from an eager transport. */
  lemma ToldAtOnce(cfg: Setting, f: Frame, m: Message)
    requires AtOnce(cfg, f) && !IsControl(m.opcode)
    ensures ToldToClose(cfg, [f], if f.fin then Assembly([m], None) else Assembly([], Some(m))) == Ended(cfg, m)
  {
    assert BeforeClose([f]) == [f] + BeforeClose([]);
    assert [m][1..] == [] && AllAnswers([m]) == AnswersTo(m) + AllAnswers([]) == [];
  }

  /** A stream that ends with a data frame has a data message at its end, whole or open. */
  lemma EndsWithMessage(open: Option<Message>, fs: seq<Frame>)
    requires DataOpen(Assembly([], open)) && Assemble(Assembly([], open), fs).Some? && EndsInData(fs)
    ensures var b := Assemble(Assembly([], open), fs).value; AllData(b) != [] && (b.done != [] || b.open.Some?)
  {
    var n := |fs| - 1;
    assert fs == fs[..n] + [fs[n]];
    AssembleAppend(Assembly([], open), fs[..n], fs[n]);
    var a := Assemble(Assembly([], open), fs[..n]).value;
    StaysData(Assembly([], open), fs[..n]);
    if fs[n].fin {
      DataMessagesAppend(a.done, WithFrame(a.open, fs[n]));
    }
  }

  lemma {:induction false} StaysData(a: Assembly, fs: seq<Frame>)
    requires DataOpen(a) && Assemble(a, fs).Some?
    ensures DataOpen(Assemble(a, fs).value)
    decreases |fs|
  {
    if fs != [] {
      StaysData(Accept(a, fs[0]).value, fs[1..]);
    }
  }

  lemma CountsUp(limit: int, n: nat, k: nat)
    requires n <= limit && limit + k < 0x8000_0000_0000_0000
    ensures Int64(n + k) == n + k
  {
  }

  /**
    * Reading on is stopped exactly when some message before a Close, with what is charged to
    * the first, is too long; otherwise the application is told what the frames tell.
    */
  ghost predicate AsCharged(cfg: Setting, charge: nat, open: Option<Message>, fs: seq<Frame>) {
    && Assemble(Assembly([], open), BeforeClose(fs)).Some?
    && var b, o := Assemble(Assembly([], open), BeforeClose(fs)).value, FrameOutlook(cfg, open, charge + Size(open), fs);
      && (o.error == ReadLimit <==> !Charged(cfg.limit, charge, AllData(b)))
      && (Charged(cfg.limit, charge, AllData(b)) ==> o == ToldToClose(cfg, fs, b))
  }

  lemma ChargedEnd(cfg: Setting, charge: nat, open: Option<Message>, fs: seq<Frame>)
    requires Continue(cfg.limit, !cfg.isServer, open, fs) && charge + Size(open) <= cfg.limit
    requires fs == [] || fs[0].opcode == CLOSE_MESSAGE
    ensures AsCharged(cfg, charge, open, fs)
  {
    hide Charged, Continue, FrameViolation, Int64, Frame.SentBy, AllData, Told, ToldToClose, CloseError, BeforeClose, Assemble, NoClose, Accept;
    NothingTold(cfg, fs, open);
    NothingMore(cfg.limit, charge, open);
    if fs != [] {
      ContinueAfter(cfg.limit, !cfg.isServer, open, fs);
      TellsNoLimit(cfg, fs, Assembly([], open));
    }
  }

  lemma ChargedControl(cfg: Setting, charge: nat, open: Option<Message>, fs: seq<Frame>)
    requires Continue(cfg.limit, !cfg.isServer, open, fs) && charge + Size(open) <= cfg.limit
    requires fs != [] && IsControl(fs[0].opcode) && fs[0].opcode != CLOSE_MESSAGE && AsCharged(cfg, charge, open, fs[1..])
    ensures AsCharged(cfg, charge, open, fs)
  {
    hide Charged, Continue, FrameViolation, Int64, Frame.SentBy, AllData, Told, ToldToClose, CloseError, BeforeClose, Assemble, NoClose, Accept;
    ContinueAfter(cfg.limit, !cfg.isServer, open, fs);
    BeforeCloseFits(Assembly([], open), fs);
    var f, more := fs[0], fs[1..];
    assert fs == [f] + more;
    CloseComes(f, more);
    assert ([f] + BeforeClose(more))[1..] == BeforeClose(more);
    DataOfFirst(open, BeforeClose(fs));
    ControlIsNotLast(cfg, f);
    ToldNext(cfg, f, more, Message(f.opcode, f.payload), open);
  }

  lemma ChargedData(cfg: Setting, charge: nat, open: Option<Message>, fs: seq<Frame>)
    requires Continue(cfg.limit, !cfg.isServer, open, fs) && charge + Size(open) <= cfg.limit
    requires fs != [] && !IsControl(fs[0].opcode)
    requires charge + |WithFrame(open, fs[0]).payload| <= cfg.limit ==>
      if fs[0].fin then AsCharged(cfg, 0, None, fs[1..]) else AsCharged(cfg, charge, Some(WithFrame(open, fs[0])), fs[1..])
    ensures AsCharged(cfg, charge, open, fs)
  {
    hide Charged, Continue, FrameViolation, Int64, Frame.SentBy, AllData, Told, ToldToClose, Ended, AtOnce, CloseError,
         BeforeClose, Assemble, NoClose, Accept;
    ContinueAfter(cfg.limit, !cfg.isServer, open, fs);
    BeforeCloseFits(Assembly([], open), fs);
    TellsNoLimit(cfg, fs, Assemble(Assembly([], open), BeforeClose(fs)).value);
    var f, more, m := fs[0], fs[1..], WithFrame(open, fs[0]);
    var rest := BeforeClose(more);
    assert fs == [f] + more;
    CloseComes(f, more);
    assert ([f] + rest)[1..] == rest;
    DataOfFirst(open, BeforeClose(fs));
    CountsUp(cfg.limit, charge + Size(open), |f.payload|);
    assert charge + Size(open) + |f.payload| == charge + |m.payload|;
    if more == [] {
      NothingTold(cfg, more, if f.fin then None else Some(m));
      if AtOnce(cfg, f) {
        ToldAtOnce(cfg, f, m);
        assert [f] + [] == [f] && [m] + [] == [m];
      }
    }
    if f.fin {
      ChargedFront(cfg.limit, charge, m, AllData(Assemble(Assembly([], None), rest).value));
      if more == [] {
        NothingMore(cfg.limit, 0, None);
      }
      if charge + |m.payload| <= cfg.limit && (more != [] || !AtOnce(cfg, f)) {
        ToldNext(cfg, f, more, m, None);
      }
    } else if charge + |m.payload| > cfg.limit {
      OpenOnlyGrows(cfg.limit, charge, m, rest);
    } else {
      if more == [] {
        NothingMore(cfg.limit, charge, Some(m));
      }
      if more != [] || !AtOnce(cfg, f) {
        ToldThrough(cfg, f, more, Assemble(Assembly([], Some(m)), rest).value);
      }
    }
  }

  lemma {:induction false} ChargedExactly(cfg: Setting, charge: nat, open: Option<Message>, fs: seq<Frame>)
    requires Continue(cfg.limit, !cfg.isServer, open, fs) && charge + Size(open) <= cfg.limit
    ensures Assemble(Assembly([], open), BeforeClose(fs)).Some?
    ensures var b, o := Assemble(Assembly([], open), BeforeClose(fs)).value, FrameOutlook(cfg, open, charge + Size(open), fs);
      && (o.error == ReadLimit <==> !Charged(cfg.limit, charge, AllData(b)))
      && (Charged(cfg.limit, charge, AllData(b)) ==> o == ToldToClose(cfg, fs, b))
    decreases |fs|
  {
    hide Charged, Continue, AllData, ToldToClose, FrameOutlook, BeforeClose, Assemble;
    if fs == [] || fs[0].opcode == CLOSE_MESSAGE {
      ChargedEnd(cfg, charge, open, fs);
    } else {
      ContinueAfter(cfg.limit, !cfg.isServer, open, fs);
      var f, more, m := fs[0], fs[1..], WithFrame(open, fs[0]);
      if IsControl(f.opcode) {
        ChargedExactly(cfg, charge, open, more);
        ChargedControl(cfg, charge, open, fs);
      } else {
        if charge + |m.payload| <= cfg.limit {
          ChargedExactly(cfg, if f.fin then 0 else charge, if f.fin then None else Some(m), more);
        }
        ChargedData(cfg, charge, open, fs);
      }
    }
  }

  lemma ControlIsNotLast(cfg: Setting, f: Frame)
    requires IsControl(f.opcode)
    ensures !AtOnce(cfg, f)
  {
  }

  lemma ToldNext(cfg: Setting, f: Frame, more: seq<Frame>, m: Message, open: Option<Message>)
    requires (more == [] ==> !AtOnce(cfg, f)) && f.opcode != CLOSE_MESSAGE
    requires DataOpen(Assembly([], open)) && Assemble(Assembly([], open), BeforeClose(more)).Some?
    ensures var c := Assemble(Assembly([], open), BeforeClose(more)).value;
      ToldToClose(cfg, [f] + more, Assembly([m] + c.done, c.open)) == Prepend(m, ToldToClose(cfg, more, c))
  {
    hide Told, Assemble, AllData, CloseError;
    var n, c := |BeforeClose(more)|, Assemble(Assembly([], open), BeforeClose(more)).value;
    CloseComes(f, more);
    if n < |more| {
      assert ([f] + more)[1 + n] == more[n];
    } else {
      if EndsInData(more) {
        EndsWithMessage(open, more);
      }
      ToldBehind(cfg, f, more, m, c.done, c.open);
    }
  }

  lemma NothingMore(limit: int, charge: nat, open: Option<Message>)
    requires charge + Size(open) <= limit
    ensures Charged(limit, charge, AllData(Assembly([], open)))
  {
    assert DataMessages([]) == [];
  }

  /** A message of one frame: it is refused if it has more bytes than the limit, and delivered if it has as many or fewer. */
  lemma OneFrameExactly(cfg: Setting, st: ReadState, f: Frame, t: seq<byte>)
    requires f.SentBy(!cfg.isServer) && f.fin && (f.opcode == 1 || f.opcode == 2) && Fresh(st)
    requires cfg.limit > 0 && (cfg.eager ==> t != [])
    ensures var o := View(cfg, st, None, Encode(f) + t);
      if |f.payload| > cfg.limit then o == Outlook([], ReadLimit, [CloseFrame(1009)])
      else o.messages != [] && o.messages[0] == Message(f.opcode, f.payload)
  {
    hide View, Encode, FrameViolation;
    SentFrameIsFine(cfg, EMPTY_ASSEMBLY, f);
    ViewOfData(cfg, st, None, f, t);
    if |f.payload| <= cfg.limit {
      var st' :| AtFrameStart(st', None) && View(cfg, st, None, Encode(f) + t) == Prepend(WithFrame(None, f), View(cfg, st', None, t));
    }
  }

  lemma {:induction false} InDataMessages(ms: seq<Message>, m: Message)
    ensures m in DataMessages(ms) <==> m in ms && !IsControl(m.opcode)
    decreases |ms|
  {
    if ms != [] {
      assert ms == [ms[0]] + ms[1..];
      FirstDataMessage(ms[0], ms[1..]);
      InDataMessages(ms[1..], m);
    }
  }

  lemma ChargedIsFit(limit: int, b: Assembly)
    requires limit > 0 && DataOpen(b)
    ensures Charged(limit, 0, AllData(b)) <==> AllFit(limit, b)
  {
    var all := AllData(b);
    assert Charged(limit, 0, all) <==> forall m :: m in all ==> |m.payload| <= limit;
    assert AllFit(limit, b) <==> (forall m :: m in b.done ==> Fits(limit, m)) && (b.open.Some? ==> Fits(limit, b.open.value));
    forall m
      ensures m in DataMessages(b.done) <==> m in b.done && !IsControl(m.opcode)
    {
      InDataMessages(b.done, m);
    }
    assert forall m :: m in all <==> m in DataMessages(b.done) || b.open == Some(m);
  }

  /**
    * An application that reads every message to its end gets ErrReadLimit exactly when some
    * message before a Close is longer than the limit, however the peer fragments it.
    */
  lemma LimitExactly(cfg: Setting, st: ReadState, fs: seq<Frame>)
    requires Continue(cfg.limit, !cfg.isServer, None, fs) && AllEncodable(fs) && Fresh(st)
    ensures Assemble(EMPTY_ASSEMBLY, BeforeClose(fs)).Some?
    ensures View(cfg, st, None, EncodeAll(fs)).error == ReadLimit
       <==> !AllFit(cfg.limit, Assemble(EMPTY_ASSEMBLY, BeforeClose(fs)).value)
  {
    hide View, Continue, Charged, AllFit, AllData, ToldToClose;
    ViewOfFrames(cfg, st, None, fs);
    LimitIsPositive(cfg, None, fs);
    ChargedExactly(cfg, 0, None, fs);
    StaysData(EMPTY_ASSEMBLY, BeforeClose(fs));
    ChargedIsFit(cfg.limit, Assemble(EMPTY_ASSEMBLY, BeforeClose(fs)).value);
  }

  lemma LimitIsPositive(cfg: Setting, open: Option<Message>, fs: seq<Frame>)
    requires Continue(cfg.limit, !cfg.isServer, open, fs)
    ensures cfg.limit > 0
  {
  }

  lemma NothingLeft(limit: int, left: Message)
    requires |left.payload| <= limit
    ensures ChargedToNext(limit, AllData(Assembly([], Some(left)))) && DropFirstData([]) == []
  {
    assert DataMessages([]) == [];
  }

  lemma DropsLeft(m: Message, ms: seq<Message>)
    ensures DropFirstData([m] + ms) == if IsControl(m.opcode) then [m] + DropFirstData(ms) else ms
  {
    assert ([m] + ms)[1..] == ms;
  }

  lemma ChargedAlone(limit: int, ms: seq<Message>)
    ensures ChargedToNext(limit, ms) ==> Charged(limit, 0, ms)
  {
  }

  lemma LeftOnlyGrows(limit: int, left: Message, fs: seq<Frame>)
    requires IsData(left.opcode) && Assemble(Assembly([], Some(left)), fs).Some? && |left.payload| > limit
    ensures !ChargedToNext(limit, AllData(Assemble(Assembly([], Some(left)), fs).value))
  {
    var b := Assemble(Assembly([], Some(left)), fs).value;
    OpenOnlyGrows(limit, 0, left, fs);
    ChargedAlone(limit, AllData(b));
  }

  /**
    * What is told when the first data message of b, the frames left of an abandoned one, is
    * skipped: as long as there is no other, nothing is read, not even by an eager transport.
    */
  function ToldWithout(cfg: Setting, fs: seq<Frame>, b: Assembly): Outlook {
    var n, done := |BeforeClose(fs)|, DropFirstData(b.done);
    if n < |fs| then Outlook(done, CloseError(fs[n].payload), AllAnswers(done) + [CloseFrame(NO_STATUS)])
    else if |AllData(b)| <= 1 then Outlook(done, FullReadError(cfg.fault), AllAnswers(done))
    else Told(cfg, fs, Assembly(done, b.open))
  }

  lemma TellsNoLimitWithout(cfg: Setting, fs: seq<Frame>, b: Assembly)
    ensures ToldWithout(cfg, fs, b).error != ReadLimit
  {
  }

  lemma OnlyLeft(cfg: Setting, fs: seq<Frame>, b: Assembly, left: Message)
    requires b == Assembly([], Some(left)) && (fs == [] || fs[0].opcode == CLOSE_MESSAGE)
    ensures |AllData(b)| == 1 && BeforeClose(fs) == [] && Assemble(b, []) == Some(b)
    ensures ToldWithout(cfg, fs, b)
         == if fs == [] then Outlook([], FullReadError(cfg.fault))
            else Outlook([], CloseError(fs[0].payload), [CloseFrame(NO_STATUS)])
  {
    hide CloseError;
    assert DataMessages([]) == [];
  }

  lemma WithoutBehind(cfg: Setting, f: Frame, more: seq<Frame>, b: Assembly)
    requires IsControl(f.opcode) && f.opcode != CLOSE_MESSAGE
    ensures var m := Message(f.opcode, f.payload);
      ToldWithout(cfg, [f] + more, Assembly([m] + b.done, b.open)) == Prepend(m, ToldWithout(cfg, more, b))
  {
    hide Told, AtOnce, CloseError;
    var n, m := |BeforeClose(more)|, Message(f.opcode, f.payload);
    CloseComes(f, more);
    ControlIsNotLast(cfg, f);
    DataFront(m, b);
    DropsLeft(m, b.done);
    assert [] + AllData(b) == AllData(b);
    if n < |more| {
      assert ([f] + more)[1 + n] == more[n];
    } else if |AllData(b)| > 1 {
      SecondIsThere(b);
      ToldBehind(cfg, f, more, m, DropFirstData(b.done), b.open);
    }
  }

  lemma {:induction false} DropsOne(ms: seq<Message>)
    ensures |DataMessages(ms)| > 1 ==> DropFirstData(ms) != []
    decreases |ms|
  {
    if ms != [] {
      FirstDataMessage(ms[0], ms[1..]);
      assert [ms[0]] + ms[1..] == ms;
      if IsControl(ms[0].opcode) {
        DropsOne(ms[1..]);
      } else if ms[1..] == [] {
        assert DataMessages([]) == [];
      }
    }
  }

  lemma SecondIsThere(b: Assembly)
    requires |AllData(b)| > 1
    ensures DropFirstData(b.done) != [] || b.open.Some?
  {
    DropsOne(b.done);
  }

  /** Frame f ends what is left of the abandoned message, m. */
  lemma WithoutNow(cfg: Setting, f: Frame, more: seq<Frame>, m: Message)
    requires IsData(m.opcode) && f.opcode != CLOSE_MESSAGE && Assemble(Assembly([], None), BeforeClose(more)).Some?
    ensures var c := Assemble(Assembly([], None), BeforeClose(more)).value;
      ToldWithout(cfg, [f] + more, Assembly([m] + c.done, c.open)) == ToldToClose(cfg, more, c)
  {
    hide Told, Assemble, AllData, CloseError;
    var n, c := |BeforeClose(more)|, Assemble(Assembly([], None), BeforeClose(more)).value;
    CloseComes(f, more);
    DataFront(m, c);
    DropsLeft(m, c.done);
    if n < |more| {
      assert ([f] + more)[1 + n] == more[n];
    } else if AllData(c) == [] {
      if EndsInData(more) {
        EndsWithMessage(None, more);
      }
      ToldCalm(cfg, more, c);
    } else {
      if more == [] {
        NoFramesNoData();
      }
      ToldThrough(cfg, f, more, c);
    }
  }

  lemma NoFramesNoData()
    ensures Assemble(Assembly([], None), []) == Some(Assembly([], None)) && AllData(Assembly([], None)) == []
  {
    assert DataMessages([]) == [];
  }

  lemma ToldCalm(cfg: Setting, fs: seq<Frame>, b: Assembly)
    requires !EndsInData(fs)
    ensures Told(cfg, fs, b) == Outlook(b.done, FullReadError(cfg.fault), AllAnswers(b.done))
  {
  }

  /** Frame f goes on with what is left of the abandoned message, m so far. */
  lemma WithoutThrough(cfg: Setting, f: Frame, more: seq<Frame>, m: Message)
    requires f.opcode != CLOSE_MESSAGE && Assemble(Assembly([], Some(m)), BeforeClose(more)).Some?
    ensures var b := Assemble(Assembly([], Some(m)), BeforeClose(more)).value;
      ToldWithout(cfg, [f] + more, b) == ToldWithout(cfg, more, b)
  {
    hide Told, CloseError;
    var n, b := |BeforeClose(more)|, Assemble(Assembly([], Some(m)), BeforeClose(more)).value;
    CloseComes(f, more);
    if n < |more| {
      assert ([f] + more)[1 + n] == more[n];
    } else if more == [] {
      OnlyLeft(cfg, more, b, m);
    } else {
      ToldThrough(cfg, f, more, Assembly(DropFirstData(b.done), b.open));
    }
  }

  /** The same with the frames left of an abandoned message first. */
  lemma {:induction false} SkippedExactly(cfg: Setting, left: Message, fs: seq<Frame>)
    requires Continue(cfg.limit, !cfg.isServer, Some(left), fs) && |left.payload| <= cfg.limit
    ensures Assemble(Assembly([], Some(left)), BeforeClose(fs)).Some?
    ensures var b, o := Assemble(Assembly([], Some(left)), BeforeClose(fs)).value, SkipOutlook(cfg, |left.payload|, fs);
      && (o.error == ReadLimit <==> !ChargedToNext(cfg.limit, AllData(b)))
      && (ChargedToNext(cfg.limit, AllData(b)) ==> o == ToldWithout(cfg, fs, b))
    decreases |fs|
  {
    hide Charged, ChargedToNext, Continue, FrameViolation, Int64, DropFirstData, Frame.SentBy, AllData,
         Told, ToldToClose, ToldWithout, AtOnce, CloseError, BeforeClose, Assemble, NoClose, Accept;
    if fs == [] {
      NothingLeft(cfg.limit, left);
      OnlyLeft(cfg, fs, Assembly([], Some(left)), left);
      TellsNoLimitWithout(cfg, fs, Assembly([], Some(left)));
    } else {
      ContinueAfter(cfg.limit, !cfg.isServer, Some(left), fs);
      BeforeCloseFits(Assembly([], Some(left)), fs);
      TellsNoLimitWithout(cfg, fs, Assemble(Assembly([], Some(left)), BeforeClose(fs)).value);
      var f, more, m := fs[0], fs[1..], WithFrame(Some(left), fs[0]);
      assert fs == [f] + more;
      CloseComes(f, more);
      if f.opcode == CLOSE_MESSAGE {
        NothingLeft(cfg.limit, left);
        OnlyLeft(cfg, fs, Assembly([], Some(left)), left);
      } else {
        var rest := BeforeClose(more);
        assert ([f] + rest)[1..] == rest;
        DataOfFirst(Some(left), BeforeClose(fs));
        CountsUp(cfg.limit, |left.payload|, |f.payload|);
        if IsControl(f.opcode) {
          SkippedExactly(cfg, left, more);
          WithoutBehind(cfg, f, more, Assemble(Assembly([], Some(left)), rest).value);
        } else if f.fin {
          var c := Assemble(Assembly([], None), rest).value;
          ChargedFront(cfg.limit, 0, m, AllData(c));
          DropsLeft(m, c.done);
          if |m.payload| <= cfg.limit {
            ChargedExactly(cfg, |m.payload|, None, more);
            WithoutNow(cfg, f, more, m);
          }
        } else if |m.payload| <= cfg.limit {
          SkippedExactly(cfg, m, more);
          WithoutThrough(cfg, f, more, m);
        } else {
          LeftOnlyGrows(cfg.limit, m, rest);
        }
      }
    }
  }

  /** The rest of an abandoned message, in the frames after the one that NextReader was called in. */
  function LeftOf(st: ReadState, opcode: int): Option<Message> {
    if st.final then None else Some(Message(opcode, []))
  }

  /**
    * NextReader resets the count of bytes before it skips what is left of an abandoned
    * message: body, the rest of the frame it was called in, and the message's frames that
    * are still to come. The payload of those frames is charged to the next message. So the
    * reader is stopped exactly when the skipped frames, or they and the next message
    * together, or some later message before a Close is longer than the limit; otherwise the
    * application is told everything but the abandoned message.
    */
  lemma AbandonedBytesCount(cfg: Setting, st: ReadState, opcode: int, body: seq<byte>, fs: seq<Frame>)
    requires st.remaining == |body| && st.length == 0 && IsData(opcode)
    requires Continue(cfg.limit, !cfg.isServer, LeftOf(st, opcode), fs) && AllEncodable(fs)
    ensures Assemble(Assembly([], LeftOf(st, opcode)), BeforeClose(fs)).Some?
    ensures var b := Assemble(Assembly([], LeftOf(st, opcode)), BeforeClose(fs)).value;
      var o := View(cfg, st, None, body + EncodeAll(fs));
      if st.final then
        && (o.error == ReadLimit <==> !Charged(cfg.limit, 0, AllData(b)))
        && (Charged(cfg.limit, 0, AllData(b)) ==> o == ToldToClose(cfg, fs, b))
      else
        && (o.error == ReadLimit <==> !ChargedToNext(cfg.limit, AllData(b)))
        && (ChargedToNext(cfg.limit, AllData(b)) ==> o == ToldWithout(cfg, fs, b))
  {
    hide View, Continue, Charged, ChargedToNext, EncodeAll, ToldToClose, ToldWithout, AllData;
    var st' := SkipBody(cfg, st, body, EncodeAll(fs));
    if st.final {
      ViewOfFrames(cfg, st', None, fs);
      LimitIsPositive(cfg, LeftOf(st, opcode), fs);
      ChargedExactly(cfg, 0, None, fs);
    } else {
      ViewOfSkipped(cfg, st', fs);
      LimitIsPositive(cfg, LeftOf(st, opcode), fs);
      SkippedExactly(cfg, Message(opcode, []), fs);
    }
  }

  lemma SkipBody(cfg: Setting, st: ReadState, body: seq<byte>, t: seq<byte>) returns (st': ReadState)
    requires st.remaining == |body|
    ensures st'.remaining == 0 && st'.final == st.final && st'.length == st.length
    ensures View(cfg, st, None, body + t) == View(cfg, st', None, t)
  {
    hide View;
    assert (body + t)[|body|..] == t;
    st' := Moved(cfg, st, |body|);
    if |body| > 0 {
      ViewSkips(cfg, st, body + t);
    } else {
      MovedByNothing(cfg, st, body + t, t);
    }
  }

  /** Once it is stopped by the limit, nothing that follows matters. */
  lemma {:induction false} LimitIsFinal(cfg: Setting, st: ReadState, reading: Option<Message>, s: seq<byte>, t: seq<byte>)
    requires View(cfg, st, reading, s).error == ReadLimit
    ensures View(cfg, st, reading, s + t) == View(cfg, st, reading, s)
    decreases |s|, if reading.None? then 0 else if st.remaining > 0 then 2 else 1
  {
    hide Advance, Masked;
    if reading.Some? && st.remaining > 0 {
      var k := st.remaining;
      assert (s + t)[..k] == s[..k] && (s + t)[k..] == s[k..] + t;
      LimitIsFinal(cfg, Moved(cfg, st, k), Some(Extended(reading.value, Unmasked(cfg, st, s[..k]))), s[k..], t);
    } else if reading.Some? && st.final {
      LimitIsFinal(cfg, st.(length := 0), None, s, t);
    } else if Advance(cfg, st, s).Stop? {
      LimitOfLonger(cfg, st, s, t);
    } else {
      AdvanceProgress(cfg, st, s);
      AdvanceOfLonger(cfg, st, s, t);
      match Advance(cfg, st, s)
      case Control(m, st', rest, _) => LimitIsFinal(cfg, st', reading, rest, t);
      case DataFrame(ft, st', rest) =>
        LimitIsFinal(cfg, st', if IsData(ft) then Some(Message(ft, [])) else reading, rest, t);
    }
  }

  lemma LimitOfLonger(cfg: Setting, st: ReadState, s: seq<byte>, t: seq<byte>)
    requires Advance(cfg, st, s).Stop? && Advance(cfg, st, s).error == ReadLimit
    ensures Advance(cfg, st, s + t) == Advance(cfg, st, s)
  {
    hide ParseHeader;
    var s' := if st.remaining <= 0 then s else s[st.remaining..];
    assert st.remaining > 0 ==> (s + t)[st.remaining..] == s' + t;
    var r := ParseHeader(s', cfg.isServer, st.final, cfg.fault);
    if r.GoodHeader? {
      HeaderOfLonger(s', t, cfg.isServer, st.final, cfg.fault);
    } else {
      HeaderNeverLimits(s', cfg.isServer, st.final, cfg.fault);
    }
  }

  lemma HeaderNeverLimits(s: seq<byte>, isServer: bool, final: bool, fault: Fault)
    ensures ParseHeader(s, isServer, final, fault).BadHeader? ==> ParseHeader(s, isServer, final, fault).error != ReadLimit
  {
  }

  /** So a message within the limit can be refused. */
  lemma MessageWithinLimitRefused(cfg: Setting, st: ReadState, t: seq<byte>)
    requires cfg.limit == 3 && !cfg.isServer && st.remaining == 0 && !st.final && st.length == 0
    ensures var left := Frame(true, 0, CONTINUATION_FRAME, None, Short, [1, 2]);
      var next := Frame(true, 0, TEXT_MESSAGE, None, Short, [3, 4]);
      |next.payload| < cfg.limit && View(cfg, st, None, Encode(left) + (Encode(next) + t)).error == ReadLimit
  {
    var left := Frame(true, 0, CONTINUATION_FRAME, None, Short, [1, 2]);
    var next := Frame(true, 0, TEXT_MESSAGE, None, Short, [3, 4]);
    var fs := [left, next];
    hide View, Encode;
    assert fs[1..] == [next] && [next][1..] == [];
    TwoMessages(left, next);
    assert BeforeClose([]) == [] && BeforeClose([next]) == [next] + [] && BeforeClose(fs) == [left] + [next] == fs;
    AbandonedBytesCount(cfg, st, TEXT_MESSAGE, [], fs);
    assert EncodeAll([]) == [] && EncodeAll([next]) == Encode(next) + [] == Encode(next);
    assert EncodeAll(fs) == Encode(left) + EncodeAll([next]);
    assert [] + EncodeAll(fs) == EncodeAll(fs);
    LimitIsFinal(cfg, st, None, EncodeAll(fs), t);
    assert EncodeAll(fs) + t == Encode(left) + (Encode(next) + t);
  }

  lemma TwoMessages(left: Frame, next: Frame)
    requires left == Frame(true, 0, CONTINUATION_FRAME, None, Short, [1, 2])
    requires next == Frame(true, 0, TEXT_MESSAGE, None, Short, [3, 4])
    ensures var b := Assemble(Assembly([], Some(Message(TEXT_MESSAGE, []))), [left, next]);
      b.Some? && !ChargedToNext(3, AllData(b.value))
  {
    var first, second := Message(TEXT_MESSAGE, [1, 2]), Message(TEXT_MESSAGE, [3, 4]);
    var a0, a1, a2 := Assembly([], Some(Message(TEXT_MESSAGE, []))), Assembly([first], None), Assembly([first, second], None);
    assert [left, next][1..] == [next] && [next][1..] == [];
    assert [] + [1, 2] == [1, 2] && [] + [first] == [first] && [first] + [second] == [first, second];
    TakesLeft(left, a0, first);
    TakesNext(next, a1, second);
    hide Accept, Grow;
    assert Assemble(a2, []) == Some(a2) && Assemble(a1, [next]) == Some(a2);
    FirstDataMessage(first, [second]);
    FirstDataMessage(second, []);
    assert [second] + [] == [second] && DataMessages([]) == [];
    assert AllData(a2)[0] == first && AllData(a2)[1] == second;
  }

  lemma TakesLeft(f: Frame, a: Assembly, m: Message)
    requires f.opcode == CONTINUATION_FRAME && f.fin && a == Assembly([], Some(Message(m.opcode, []))) && f.payload == m.payload
    ensures Accept(a, f) == Some(Assembly([m], None))
  {
    assert [] + f.payload == f.payload && a.done + [m] == [m];
    assert Extended(a.open.value, f.payload) == m;
  }

  lemma TakesNext(f: Frame, a: Assembly, m: Message)
    requires f.opcode == m.opcode == TEXT_MESSAGE && f.fin && a.open.None? && f.payload == m.payload
    ensures Accept(a, f) == Some(Assembly(a.done + [m], None))
  {
  }
}
