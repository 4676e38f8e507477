/**
  * Where the reader is in the stream: through any reading, skipping and giving up of
  * messages, the bytes it has taken and those left in the frame end where a frame starts.
  */
module StreamPosition {
  import opened Bytes
  import opened Frames
  import opened FrameParser
  import opened Receiver

  /** The read fields, and the bytes still to come. */
  datatype Place = Place(st: ReadState, s: seq<byte>)

  /**
    * What reading does to them: Read takes bytes of the frame, NextReader starts counting
    * afresh, and both go on to the next frame, from the middle of this one if need be.
    */
  ghost predicate Takes(cfg: Setting, p: Place, q: Place, n: nat) {
    n <= p.st.remaining && n <= |p.s| && q == Place(Moved(cfg, p.st, n), p.s[n..])
  }

  ghost predicate Advances(cfg: Setting, p: Place, q: Place) {
    var r := Advance(cfg, p.st, p.s);
    !r.Stop? && q == Place(r.state, r.rest)
  }

  ghost predicate Moves(cfg: Setting, p: Place, q: Place) {
    (exists n :: Takes(cfg, p, q, n)) || Advances(cfg, p, q) || q == p.(st := p.st.(length := 0))
  }

  /** The current frame ends where frame j starts, counting from the start of the stream. */
  ghost predicate AtFrame(p: Place, fs: seq<Frame>, j: nat)
    requires AllEncodable(fs)
  {
    && j <= |fs| && 0 <= p.st.remaining <= |p.s|
    && p.s[p.st.remaining..] == EncodeAll(fs[j..])
    && |EncodeAll(fs)| - |p.s| + p.st.remaining == |EncodeAll(fs[..j])|
  }

  lemma {:induction false} EncodeAllSplit(fs: seq<Frame>, j: nat)
    requires AllEncodable(fs) && j <= |fs|
    ensures AllEncodable(fs[..j]) && AllEncodable(fs[j..])
    ensures EncodeAll(fs) == EncodeAll(fs[..j]) + EncodeAll(fs[j..])
    decreases j
  {
    hide Encode, Frame.Encodable;
    if j == 0 {
      assert fs[..0] == [] && fs[0..] == fs;
    } else {
      EncodeAllSplit(fs[1..], j - 1);
      assert fs[..j][1..] == fs[1..][..j - 1] && fs[1..][j - 1..] == fs[j..] && fs[..j][0] == fs[0];
    }
  }

  lemma HeaderIgnoresOldRemaining(cfg: Setting, st: ReadState, s: seq<byte>)
    ensures FrameStep(cfg, st, s) == FrameStep(cfg, st.(remaining := 0), s)
  {
    hide ParseHeader;
  }

  lemma NothingToParse(cfg: Setting, st: ReadState, s: seq<byte>)
    requires 0 <= st.remaining == |s|
    ensures Advance(cfg, st, s).Stop?
  {
    assert s[st.remaining..] == [];
  }

  /** Going on from frame to frame lands at the end of the next frame. */
  lemma AdvanceKeepsPosition(cfg: Setting, p: Place, q: Place, fs: seq<Frame>, j: nat)
    requires AllEncodable(fs) && AtFrame(p, fs, j) && Advances(cfg, p, q)
    ensures j < |fs| && AtFrame(q, fs, j + 1)
  {
    hide Encode, Frame.Encodable, FrameViolation, DataStep, ControlStep, FrameStep, HeaderOf, AfterHeader;
    EncodeAllSplit(fs, j);
    if j == |fs| {
      NothingToParse(cfg, p.st, p.s);
      assert false;
    } else {
      var f, t, st := fs[j], EncodeAll(fs[j + 1..]), p.st.(remaining := 0);
      assert fs[j..][1..] == fs[j + 1..];
      assert p.s[p.st.remaining..] == Encode(f) + t;
      HeaderIgnoresOldRemaining(cfg, p.st, Encode(f) + t);
      AdvanceOnFrame(cfg, st, f, t);
      assert p.s[0..] == p.s;
      StepEndsAt(cfg, st, f, t);
      EncodeAllSplit(fs, j + 1);
    }
  }

  /** A frame that is accepted leaves its payload, or nothing, in front of the next one. */
  lemma StepEndsAt(cfg: Setting, st: ReadState, f: Frame, t: seq<byte>)
    requires f.Encodable() && st.remaining == 0
    ensures var r := Advance(cfg, st, Encode(f) + t);
      !r.Stop? ==> 0 <= r.state.remaining <= |r.rest| && r.rest[r.state.remaining..] == t
  {
    hide Encode, FrameViolation, Advance;
    AdvanceOnFrame(cfg, st, f, t);
    assert (WirePayload(f) + t)[|f.payload|..] == t;
  }

  lemma TakeKeepsPosition(cfg: Setting, p: Place, q: Place, n: nat, fs: seq<Frame>, j: nat)
    requires AllEncodable(fs) && AtFrame(p, fs, j) && Takes(cfg, p, q, n)
    ensures AtFrame(q, fs, j)
  {
    hide EncodeAll;
    assert p.s[n..][p.st.remaining - n..] == p.s[p.st.remaining..];
  }

  ghost predicate Reads(cfg: Setting, places: seq<Place>) {
    forall k :: 0 <= k < |places| - 1 ==> Moves(cfg, places[k], places[k + 1])
  }

  ghost predicate OnTrack(p: Place, fs: seq<Frame>)
    requires AllEncodable(fs)
  {
    exists j :: AtFrame(p, fs, j)
  }

  lemma MoveKeepsPosition(cfg: Setting, p: Place, q: Place, fs: seq<Frame>)
    requires AllEncodable(fs) && OnTrack(p, fs) && Moves(cfg, p, q)
    ensures OnTrack(q, fs)
  {
    hide AtFrame, Takes, Advances;
    var j :| AtFrame(p, fs, j);
    if n :| Takes(cfg, p, q, n) {
      TakeKeepsPosition(cfg, p, q, n, fs, j);
    } else if Advances(cfg, p, q) {
      AdvanceKeepsPosition(cfg, p, q, fs, j);
    } else {
      CountingAfresh(p, fs, j);
    }
  }

  lemma CountingAfresh(p: Place, fs: seq<Frame>, j: nat)
    requires AllEncodable(fs) && AtFrame(p, fs, j)
    ensures AtFrame(p.(st := p.st.(length := 0)), fs, j)
  {
  }

  /**
    * At every moment of any reading of a stream of frames, the bytes taken so far and those
    * left in the current frame are together exactly the first frames of the stream.
    */
  lemma {:induction false} PositionIsKept(cfg: Setting, places: seq<Place>, fs: seq<Frame>, k: nat)
    requires AllEncodable(fs) && Reads(cfg, places) && k < |places|
    requires places[0].st.remaining == 0 && places[0].s == EncodeAll(fs)
    ensures exists j :: AtFrame(places[k], fs, j)
    decreases k
  {
    hide AtFrame, Moves;
    if k == 0 {
      StartIsAtFrame(places[0], fs);
    } else {
      PositionIsKept(cfg, places, fs, k - 1);
      assert Moves(cfg, places[k - 1], places[k - 1 + 1]);
      MoveKeepsPosition(cfg, places[k - 1], places[k], fs);
    }
  }

  lemma StartIsAtFrame(p: Place, fs: seq<Frame>)
    requires AllEncodable(fs) && p.st.remaining == 0 && p.s == EncodeAll(fs)
    ensures AtFrame(p, fs, 0)
  {
    assert fs[0..] == fs && fs[..0] == [] && p.s[0..] == p.s;
  }
}
