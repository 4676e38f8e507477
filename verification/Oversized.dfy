/**
  * 64-bit lengths with the top bit set, which section 5.2 of RFC 6455 forbids: advanceFrame
  * converts them to a negative int64, and then the frame counts as empty.
  */
module Oversized {
  import opened Wrappers
  import opened Bytes
  import opened Frames
  import opened FrameParser
  import opened Receiver
  import opened RoundTrip

  lemma {:induction false} BigEndianFront(b: byte, t: seq<byte>)
    ensures FromBigEndian([b] + t) == (b as int) * Radix(|t|) + FromBigEndian(t)
  {
    if t == [] {
      assert ([b] + t)[..0] == [];
    } else {
      hide Radix, FromBigEndian;
      var n := |t| - 1;
      assert ([b] + t)[..n + 1] == [b] + t[..n];
      BigEndianFront(b, t[..n]);
      LastOctet([b] + t);
      LastOctet(t);
      Regroup(b as int, Radix(n), FromBigEndian(t[..n]), t[n] as int);
    }
  }

  lemma LastOctet(s: seq<byte>)
    requires s != []
    ensures FromBigEndian(s) == FromBigEndian(s[..|s| - 1]) * 256 + s[|s| - 1] as int
    ensures Radix(|s|) == 256 * Radix(|s| - 1)
  {
  }

  lemma Regroup(b: int, r: int, f: int, x: int)
    ensures (b * r + f) * 256 + x == b * (256 * r) + (f * 256 + x)
  {
  }

  /** The length that advanceFrame stores is negative exactly when the top bit is set. */
  lemma TopBitIsNegative(more: seq<byte>)
    requires |more| == 8
    ensures PayloadLength(127, more) < 0 <==> more[0] >= 0x80
  {
    hide FromBigEndian, Int64;
    var b, t := more[0], more[1..];
    assert more == [b] + t;
    BigEndianFront(b, t);
    FromBigEndianBound(t);
    SevenBytes();
    TopByte(b);
    WrapsNegative(b as int, FromBigEndian(t));
  }

  lemma SevenBytes()
    ensures Radix(7) == 0x100_0000_0000_0000
  {
    Radixes();
    assert Radix(8) == 256 * Radix(7);
  }

  lemma TopByte(b: byte)
    ensures b >= 0x80 <==> b as int >= 128
    ensures 0 <= b as int < 256
  {
  }

  lemma WrapsNegative(v: int, low: int)
    requires 0 <= v < 256 && 0 <= low < 0x100_0000_0000_0000
    ensures Int64(v * 0x100_0000_0000_0000 + low) < 0 <==> v >= 128
  {
  }

  /** The header of a text, binary or continuation frame with such a length comes next. */
  predicate NegativeNext(cfg: Setting, st: ReadState, s: seq<byte>, h: Header) {
    ParseHeader(s, cfg.isServer, st.final, cfg.fault) == GoodHeader(h) && !IsControl(h.frameType) && h.length < 0
  }

  /** The message that is read after a data header. */
  function Reading(h: Header, reading: Option<Message>): Option<Message> {
    if IsData(h.frameType) then Some(Message(h.frameType, [])) else reading
  }

  lemma NegativeStep(cfg: Setting, st: ReadState, s: seq<byte>, h: Header)
    requires st.remaining <= 0 && NegativeNext(cfg, st, s, h)
    ensures var total := Int64(st.length + h.length);
      var after := AfterHeader(st, h).(length := total);
      && after.remaining < 0 && after.final == h.fin && h.size <= |s|
      && if cfg.limit > 0 && total > cfg.limit then Advance(cfg, st, s) == Stop(ReadLimit, [CloseFrame(MESSAGE_TOO_BIG)])
         else Advance(cfg, st, s) == DataFrame(h.frameType, after, s[h.size..])
  {
    hide ParseHeader, Int64;
    assert ParseHeader(s, cfg.isServer, st.final, cfg.fault).GoodHeader?;
  }

  /**
    * Such a frame is read as an empty one: the bytes after its header are the next header.
    * Its negative length is added to the bytes counted for the read limit, so that it is
    * refused only where the int64 sum wraps.
    */
  lemma NegativeLengthReadsAsEmpty(cfg: Setting, st: ReadState, reading: Option<Message>, s: seq<byte>, h: Header)
    requires st.remaining <= 0 && (reading.Some? ==> !st.final) && NegativeNext(cfg, st, s, h)
    ensures var total, m := Int64(st.length + h.length), Reading(h, reading);
      var after := AfterHeader(st, h).(length := total);
      && after.remaining < 0 && after.final == h.fin && h.size <= |s|
      && View(cfg, st, reading, s)
         == if cfg.limit > 0 && total > cfg.limit then Outlook([], ReadLimit, [CloseFrame(MESSAGE_TOO_BIG)])
            else if h.fin && m.Some? then Prepend(m.value, View(cfg, after.(length := 0), None, s[h.size..]))
            else View(cfg, after, m, s[h.size..])
  {
    hide ParseHeader, View, Int64, Advance, AfterHeader;
    var total, m := Int64(st.length + h.length), Reading(h, reading);
    var after := AfterHeader(st, h).(length := total);
    ViewUnfolds(cfg, st, reading, s);
    NegativeStep(cfg, st, s, h);
    if !(cfg.limit > 0 && total > cfg.limit) {
      if h.fin && m.Some? {
        ViewCompletes(cfg, after, m.value, s[h.size..]);
      }
    }
  }

  /** The outlook is to deliver m and to go on with t, or to end with m. */
  ghost predicate Delivered(cfg: Setting, m: Message, t: seq<byte>, v: Outlook) {
    (t == [] && v == Ended(cfg, m)) || GoesOn(cfg, m, t, v)
  }

  /** No bytes of a frame are left, and none are counted. */
  predicate BetweenMessages(st: ReadState) {
    st.remaining <= 0 && st.final && st.length == 0
  }

  ghost predicate GoesOn(cfg: Setting, m: Message, t: seq<byte>, v: Outlook) {
    exists st' :: BetweenMessages(st') && v == Prepend(m, View(cfg, st', None, t))
  }

  // ----- Messages with such fragments -----

  /** A fragment of a message: a frame, or the header of one with a negative length. */
  datatype Fragment = Sound(f: Frame) | Negative(head: seq<byte>, h: Header) {
    function Length(): int {
      match this
      case Sound(f) => |f.payload|
      case Negative(_, h) => h.length
    }

    predicate Fin() {
      match this
      case Sound(f) => f.fin
      case Negative(_, h) => h.fin
    }

    function Payload(): seq<byte> {
      match this
      case Sound(f) => f.payload
      case Negative(_, _) => []
    }

    function Opcode(): int {
      match this
      case Sound(f) => f.opcode
      case Negative(_, h) => h.frameType
    }

    /** It comes first in its message, or continues it. */
    predicate Fits(cfg: Setting, first: bool) {
      && (if first then IsData(Opcode()) else Opcode() == CONTINUATION_FRAME)
      && match this
         case Sound(f) => f.SentBy(!cfg.isServer)
         case Negative(head, h) =>
           && ParseHeader(head, cfg.isServer, first, cfg.fault) == GoodHeader(h)
           && h.size == |head| && h.length < 0
    }

    function Bytes(): seq<byte>
      requires Sound? ==> f.Encodable()
    {
      match this
      case Sound(f) => Encode(f)
      case Negative(head, _) => head
    }
  }

  /** The fragments of one message in order, only the last with the final bit. */
  predicate OneMessage(cfg: Setting, first: bool, ps: seq<Fragment>)
    decreases |ps|
  {
    ps != [] && ps[0].Fits(cfg, first) && if |ps| == 1 then ps[0].Fin() else !ps[0].Fin() && OneMessage(cfg, false, ps[1..])
  }

  function AllBytes(cfg: Setting, first: bool, ps: seq<Fragment>): seq<byte>
    requires OneMessage(cfg, first, ps)
    decreases |ps|
  {
    FitsEncodes(cfg, first, ps[0]);
    if |ps| == 1 then ps[0].Bytes() else ps[0].Bytes() + AllBytes(cfg, false, ps[1..])
  }

  function AllPayload(ps: seq<Fragment>): seq<byte> {
    if ps == [] then [] else ps[0].Payload() + AllPayload(ps[1..])
  }

  /** The int64 sum of the first k lengths. */
  function Total(ps: seq<Fragment>, k: nat): int
    requires k <= |ps|
  {
    if k == 0 then 0 else Int64(Total(ps, k - 1) + ps[k - 1].Length())
  }

  /** Some sum of lengths, starting from count, is above the limit. */
  predicate PassesFrom(limit: int, count: int, ps: seq<Fragment>)
    decreases |ps|
  {
    if ps == [] then false
    else
      var total := Int64(count + ps[0].Length());
      total > limit || PassesFrom(limit, total, ps[1..])
  }

  /** The sum of the lengths up to some fragment after the first k is above the limit. */
  predicate Passes(limit: int, ps: seq<Fragment>, k: nat) {
    exists j :: k < j <= |ps| && Total(ps, j) > limit
  }

  lemma {:induction false} PassesSomewhere(limit: int, ps: seq<Fragment>, k: nat)
    requires k <= |ps|
    ensures Passes(limit, ps, k) <==> PassesFrom(limit, Total(ps, k), ps[k..])
    decreases |ps| - k
  {
    hide Int64;
    if k < |ps| {
      PassesSomewhere(limit, ps, k + 1);
      assert ps[k..][1..] == ps[k + 1..] && ps[k..][0] == ps[k];
      assert Total(ps, k + 1) == Int64(Total(ps, k) + ps[k].Length());
    }
  }

  lemma FitsEncodes(cfg: Setting, first: bool, p: Fragment)
    requires p.Fits(cfg, first)
    ensures p.Sound? ==> p.f.Encodable() && FrameViolation(p.f, cfg.isServer, first).None?
    ensures !IsControl(p.Opcode())
  {
  }

  /**
    * A message in any fragments, some of them with negative lengths: the limit stops it
    * exactly when the sum of the lengths up to some fragment is above it. So bytes go
    * unnoticed exactly as far as the negative lengths before them reach.
    */
  lemma NegativeFragmentHidesBytes(cfg: Setting, st: ReadState, ps: seq<Fragment>, t: seq<byte>)
    requires st.remaining <= 0 && st.final && st.length == 0 && 0 < cfg.limit && OneMessage(cfg, true, ps)
    ensures var v := View(cfg, st, None, AllBytes(cfg, true, ps) + t);
      if Passes(cfg.limit, ps, 0) then v == Outlook([], ReadLimit, [CloseFrame(MESSAGE_TOO_BIG)])
      else Delivered(cfg, Message(ps[0].Opcode(), AllPayload(ps)), t, v)
  {
    hide View, OneMessage, AllBytes, Delivered, Passes;
    PassesSomewhere(cfg.limit, ps, 0);
    assert ps[0..] == ps && Total(ps, 0) == st.length;
    FragmentsFrom(cfg, st, None, ps, t);
  }

  function Grown(open: Option<Message>, ps: seq<Fragment>): Message
    requires open.Some? || ps != []
  {
    if open.Some? then Extended(open.value, AllPayload(ps)) else Message(ps[0].Opcode(), AllPayload(ps))
  }

  lemma {:induction false} FragmentsFrom(cfg: Setting, st: ReadState, open: Option<Message>, ps: seq<Fragment>, t: seq<byte>)
    requires st.remaining <= 0 && st.final == open.None? && 0 < cfg.limit && OneMessage(cfg, open.None?, ps)
    ensures var v := View(cfg, st, open, AllBytes(cfg, open.None?, ps) + t);
      if PassesFrom(cfg.limit, st.length, ps) then v == Outlook([], ReadLimit, [CloseFrame(MESSAGE_TOO_BIG)]) else Delivered(cfg, Grown(open, ps), t, v)
    decreases |ps|
  {
    hide View, Encode, FrameViolation, ParseHeader, Frame.SentBy, Frame.Encodable, Int64, AfterHeader, Delivered;
    var p, more, first := ps[0], ps[1..], open.None?;
    FitsEncodes(cfg, first, p);
    var total, m := Int64(st.length + p.Length()), Grown(open, [p]);
    PayloadOfOne(p);
    if |ps| == 1 {
      assert ps == [p] && more == [] && !PassesFrom(cfg.limit, total, more);
      LastFragment(cfg, st, open, p, t);
    } else {
      var rest := AllBytes(cfg, false, more) + t;
      assert AllBytes(cfg, first, ps) + t == p.Bytes() + rest;
      SomeBytesLeft(cfg, more);
      var st' := NextFragment(cfg, st, open, p, rest);
      if total <= cfg.limit {
        FragmentsFrom(cfg, st', Some(m), more, t);
        GrownTwice(open, p, more);
        assert ps == [p] + more;
      }
    }
  }

  lemma GrownTwice(open: Option<Message>, p: Fragment, more: seq<Fragment>)
    ensures Grown(Some(Grown(open, [p])), more) == Grown(open, [p] + more)
  {
    assert [p][1..] == [] && ([p] + more)[1..] == more;
    var x, y := p.Payload(), AllPayload(more);
    assert AllPayload([p]) == x + [] == x && AllPayload([p] + more) == x + y;
    if open.Some? {
      assert open.value.payload + x + y == open.value.payload + (x + y);
    }
  }

  lemma SomeBytesLeft(cfg: Setting, ps: seq<Fragment>)
    requires OneMessage(cfg, false, ps)
    ensures AllBytes(cfg, false, ps) != []
  {
    FitsEncodes(cfg, false, ps[0]);
  }

  lemma HeaderInside(cfg: Setting, first: bool, p: Fragment, t: seq<byte>)
    requires p.Negative? && p.Fits(cfg, first)
    ensures ParseHeader(p.head + t, cfg.isServer, first, cfg.fault) == GoodHeader(p.h)
    ensures (p.head + t)[p.h.size..] == t
  {
    hide ParseHeader;
    HeaderOfLonger(p.head, t, cfg.isServer, first, cfg.fault);
  }

  /** A fragment that is not the last. */
  lemma NextFragment(cfg: Setting, st: ReadState, open: Option<Message>, p: Fragment, rest: seq<byte>) returns (st': ReadState)
    requires st.remaining <= 0 && st.final == open.None? && 0 < cfg.limit && p.Fits(cfg, open.None?) && !p.Fin() && rest != []
    requires p.Sound? ==> p.f.Encodable()
    ensures var total, v := Int64(st.length + p.Length()), View(cfg, st, open, p.Bytes() + rest);
      if total > cfg.limit then v == Outlook([], ReadLimit, [CloseFrame(MESSAGE_TOO_BIG)])
      else
        && st'.remaining <= 0 && !st'.final && st'.length == total
        && v == View(cfg, st', Some(Grown(open, [p])), rest)
  {
    FitsEncodes(cfg, open.None?, p);
    hide View, Encode, FrameViolation, Frame.Encodable, Fragment.Fits, Int64, AfterHeader;
    var total, s, m := Int64(st.length + p.Length()), p.Bytes() + rest, Grown(open, [p]);
    PayloadOfOne(p);
    match p {
      case Sound(f) =>
        ViewOfData(cfg, st, open, f, rest);
        assert WithFrame(open, f) == m;
        if total <= cfg.limit {
          st' :| AtFrameStart(st', Some(m)) && st'.length == total && View(cfg, st, open, s) == View(cfg, st', Some(m), rest);
        } else {
          st' := st;
        }
      case Negative(_, h) =>
        NextNegative(cfg, st, open, p, rest);
        st' := AfterHeader(st, h).(length := total);
    }
  }

  lemma NextNegative(cfg: Setting, st: ReadState, open: Option<Message>, p: Fragment, rest: seq<byte>)
    requires st.remaining <= 0 && st.final == open.None? && 0 < cfg.limit && p.Fits(cfg, open.None?) && !p.Fin() && p.Negative?
    ensures var total, v := Int64(st.length + p.h.length), View(cfg, st, open, p.head + rest);
      var after := AfterHeader(st, p.h).(length := total);
      if total > cfg.limit then v == Outlook([], ReadLimit, [CloseFrame(MESSAGE_TOO_BIG)])
      else after.remaining <= 0 && !after.final && v == View(cfg, after, Some(Grown(open, [p])), rest)
  {
    hide View, ParseHeader, Int64, AfterHeader;
    HeaderInside(cfg, open.None?, p, rest);
    NegativeLengthReadsAsEmpty(cfg, st, open, p.head + rest, p.h);
    ReadingNothing(open, p);
  }

  lemma LastFragment(cfg: Setting, st: ReadState, open: Option<Message>, p: Fragment, t: seq<byte>)
    requires st.remaining <= 0 && st.final == open.None? && 0 < cfg.limit && p.Fits(cfg, open.None?) && p.Fin()
    requires p.Sound? ==> p.f.Encodable()
    ensures var total, v := Int64(st.length + p.Length()), View(cfg, st, open, p.Bytes() + t);
      if total > cfg.limit then v == Outlook([], ReadLimit, [CloseFrame(MESSAGE_TOO_BIG)]) else Delivered(cfg, Grown(open, [p]), t, v)
  {
    hide View, Encode, Int64, Delivered;
    match p {
      case Sound(f) => LastIsSound(cfg, st, open, f, t);
      case Negative(head, h) => LastIsNegative(cfg, st, open, p, t);
    }
  }

  lemma LastIsSound(cfg: Setting, st: ReadState, open: Option<Message>, f: Frame, t: seq<byte>)
    requires st.remaining <= 0 && st.final == open.None? && 0 < cfg.limit && Sound(f).Fits(cfg, open.None?) && f.fin
    requires f.Encodable()
    ensures var total, v := Int64(st.length + |f.payload|), View(cfg, st, open, Encode(f) + t);
      if total > cfg.limit then v == Outlook([], ReadLimit, [CloseFrame(MESSAGE_TOO_BIG)]) else Delivered(cfg, Grown(open, [Sound(f)]), t, v)
  {
    FitsEncodes(cfg, open.None?, Sound(f));
    hide View, Encode, FrameViolation, Frame.SentBy, Frame.Encodable, Int64;
    assert WithFrame(open, f) == Grown(open, [Sound(f)]) by {
      PayloadOfOne(Sound(f));
    }
    if AtOnce(cfg, f) && t == [] {
      assert Encode(f) + t == Encode(f);
      ViewOfLast(cfg, st, open, f);
    } else {
      ViewOfData(cfg, st, open, f, t);
      if Int64(st.length + |f.payload|) <= cfg.limit {
        var st' :| AtFrameStart(st', None) && View(cfg, st, open, Encode(f) + t) == Prepend(WithFrame(open, f), View(cfg, st', None, t));
        assert BetweenMessages(st');
      }
    }
  }

  lemma LastIsNegative(cfg: Setting, st: ReadState, open: Option<Message>, p: Fragment, t: seq<byte>)
    requires st.remaining <= 0 && st.final == open.None? && 0 < cfg.limit && p.Fits(cfg, open.None?) && p.Fin() && p.Negative?
    ensures var total, v := Int64(st.length + p.h.length), View(cfg, st, open, p.head + t);
      if total > cfg.limit then v == Outlook([], ReadLimit, [CloseFrame(MESSAGE_TOO_BIG)]) else Delivered(cfg, Grown(open, [p]), t, v)
  {
    FitsEncodes(cfg, open.None?, p);
    hide View, ParseHeader, Int64, AfterHeader;
    var total, s, m, h := Int64(st.length + p.h.length), p.head + t, Grown(open, [p]), p.h;
    HeaderInside(cfg, open.None?, p, t);
    NegativeLengthReadsAsEmpty(cfg, st, open, s, h);
    ReadingNothing(open, p);
    if total <= cfg.limit {
      var after := AfterHeader(st, h).(length := total);
      assert h.fin && s[h.size..] == t;
      assert View(cfg, st, open, s) == Prepend(m, View(cfg, after.(length := 0), None, t));
      assert BetweenMessages(after.(length := 0));
    }
  }

  lemma PayloadOfOne(p: Fragment)
    ensures AllPayload([p]) == p.Payload()
  {
    assert [p][1..] == [] && p.Payload() + [] == p.Payload();
  }

  lemma ReadingNothing(open: Option<Message>, p: Fragment)
    requires p.Negative? && (if open.None? then IsData(p.h.frameType) else p.h.frameType == CONTINUATION_FRAME)
    ensures Reading(p.h, open) == Some(Grown(open, [p]))
  {
    PayloadOfOne(p);
    if open.Some? {
      assert open.value.payload + [] == open.value.payload;
    }
  }
}
