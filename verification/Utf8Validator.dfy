/** The reader that checks UTF-8 on the fly, against the decoder's verdict on the whole input. */
module Utf8Validator {
  import opened Wrappers
  import opened Bytes
  import opened FrameParser
  import opened ByteSource
  import opened Utf8
  import opened Utf8Language

  datatype ValidatorError = InvalidUTF8 | Underlying(error: ReadError)

  /** What one Read reports: the source's own outcome, unless the text is hopeless or cut short. */
  ghost function Verdict(seen: seq<byte>, err: Option<ReadError>): Option<ValidatorError> {
    if !Extends(seen) || (err == Some(EOF) && !IsOctets(seen)) then Some(InvalidUTF8)
    else if err.Some? then Some(Underlying(err.value))
    else None
  }

  class Validator {
    var state: State
    var x: int
    const r: Source
    /** Every byte that has passed through. */
    ghost var seen: seq<byte>

    constructor (r: Source)
      ensures this.r == r && seen == [] && Valid()
    {
      state, x := ACCEPT, 0;
      this.r := r;
      seen := [];
    }

    /** The state is that of one decoder run over all bytes; so is x, until a rejection stops the loop. */
    ghost predicate Valid()
      reads this
    {
      && state == Run(START, seen).state
      && (state != REJECT ==> Decoder(state, x) == Run(START, seen))
    }

    method Read(p: array<byte>) returns (n: nat, err: Option<ValidatorError>)
      requires Valid()
      modifies this, r, p
      ensures Valid()
      ensures n <= p.Length && n <= |old(r.Rest())| && p[..n] == old(r.Rest())[..n] && p[n..] == old(p[n..])
      ensures seen == old(seen) + p[..n] && r.Rest() == old(r.Rest())[n..]
      ensures err == Verdict(seen, None) || (r.Rest() == [] && err == Verdict(seen, Some(r.fault)))
      ensures p.Length > 0 && err.None? ==> r.Measure() < old(r.Measure())
    {
      hide Decode, IsOctets, Run, Extends;
      var status: Option<ReadError>;
      n, status := r.Read(p, 0, p.Length);
      ghost var before, chunk := seen, p[..n];
      seen := seen + chunk;
      var s, y := state, x;
      assert before + chunk[..0] == before;
      var i := 0;
      while i < n
        invariant 0 <= i <= n
        invariant s == Run(START, before + chunk[..i]).state
        invariant s != REJECT ==> Decoder(s, y) == Run(START, before + chunk[..i])
        modifies {}
      {
        OneMore(before, chunk, i, Decoder(s, y));
        var next := Decode(Decoder(s, y), p[i]);
        s, y := next.state, next.x;
        i := i + 1;
        if s == REJECT {
          RejectedForGood(before, chunk, i);
          break;
        }
      }
      assert chunk[..n] == chunk;
      state, x := s, y;
      LanguageEquality(seen);
      RejectsAsSoonAsHopeless(seen);
      if state == REJECT || (status == Some(EOF) && state != ACCEPT) {
        return n, Some(InvalidUTF8);
      }
      err := if status.Some? then Some(Underlying(status.value)) else None;
    }
  }

  /**
    * Reading to the end, as io.Copy does: whatever the pieces in which the bytes arrive and
    * whatever the size of the buffer, the outcome is the verdict on the whole text.
    */
  method Validate(v: Validator, size: nat) returns (err: ValidatorError)
    requires v.Valid() && v.seen == [] && size > 0
    modifies v, v.r
    ensures Some(err) == Verdict(old(v.r.Rest()), Some(v.r.fault))
    ensures err != InvalidUTF8 ==> v.seen == old(v.r.Rest())
  {
    hide Decode, IsOctets, Run, Extends;
    ghost var text := v.r.Rest();
    var p := new byte[size];
    while true
      invariant v.Valid() && text == v.seen + v.r.Rest()
      modifies v, v.r, p
      decreases v.r.Measure()
    {
      var n, status := v.Read(p);
      assert text == v.seen + v.r.Rest();
      if !Extends(v.seen) {
        HopelessForGood(v.seen, v.r.Rest());
      }
      if status.Some? {
        assert v.r.Rest() == [] ==> v.seen == text;
        return status.value;
      }
    }
  }

  lemma HopelessForGood(s: seq<byte>, t: seq<byte>)
    requires !Extends(s)
    ensures !Extends(s + t)
  {
    forall u
      ensures !IsOctets(s + t + u)
    {
      assert s + t + u == s + (t + u);
    }
  }

  lemma OneMore(before: seq<byte>, chunk: seq<byte>, i: nat, e: Decoder)
    requires i < |chunk| && e.state == Run(START, before + chunk[..i]).state
    ensures Run(START, before + chunk[..i + 1]) == Decode(Run(START, before + chunk[..i]), chunk[i])
    ensures Decode(e, chunk[i]).state == Run(START, before + chunk[..i + 1]).state
    ensures e.state == REJECT ==> Decode(e, chunk[i]).state == REJECT
  {
    hide Decode;
    var d := Run(START, before + chunk[..i]);
    assert before + chunk[..i + 1] == (before + chunk[..i]) + [chunk[i]];
    RunAppend(START, before + chunk[..i], [chunk[i]]);
    assert Run(d, [chunk[i]]) == Run(Decode(d, chunk[i]), []);
    SameNext(d, e, chunk[i]);
  }

  lemma SameNext(d: Decoder, e: Decoder, b: byte)
    requires d.state == e.state
    ensures Decode(d, b).state == Decode(e, b).state
    ensures d.state == REJECT ==> Decode(d, b).state == REJECT
  {
    hide Utf8d, NextOf;
    NextIsTable(d.state, b);
    if d.state == REJECT {
      RejectHasNoWayOut(Class(b as int));
    }
  }

  lemma RejectHasNoWayOut(t: nat)
    ensures NextOf(REJECT, t) == REJECT
  {
  }

  lemma RejectedForGood(before: seq<byte>, chunk: seq<byte>, i: nat)
    requires i <= |chunk| && Run(START, before + chunk[..i]).state == REJECT
    ensures Run(START, before + chunk).state == REJECT
  {
    hide Decode, Run;
    assert before + chunk == (before + chunk[..i]) + chunk[i..];
    RunAppend(START, before + chunk[..i], chunk[i..]);
    RejectStays(Run(START, before + chunk[..i]), chunk[i..]);
  }
}
