/** An io.Reader: bytes that arrive in pieces of any size, then an end. */
module ByteSource {
  import opened Wrappers
  import opened Bytes
  import opened FrameParser

  class Source {
    var pending: seq<seq<byte>>
    const fault: Fault
    /** Whether the read that takes the last byte reports the end with it, as io.Reader allows. */
    const eager: bool

    constructor (pieces: seq<seq<byte>>, fault: Fault, eager: bool)
      ensures pending == pieces && this.fault == fault && this.eager == eager
    {
      pending := pieces;
      this.fault := fault;
      this.eager := eager;
    }

    function Rest(): seq<byte>
      reads this
    {
      Flatten(pending)
    }

    /** Falls with every Read into a buffer with room, so that read loops end. */
    function Measure(): nat
      reads this
    {
      |pending| + |Rest()|
    }

    /**
      * Read into b[lo..hi]. A call may return no bytes and no error, when an empty piece
      * is next; it reports the end only when nothing is left.
      */
    method Read(b: array<byte>, lo: nat, hi: nat) returns (n: nat, err: Option<ReadError>)
      requires lo <= hi <= b.Length
      modifies this, b
      ensures n <= hi - lo && n <= |old(Rest())|
      ensures Rest() == old(Rest())[n..]
      ensures b[..lo] == old(b[..lo]) && b[lo..lo + n] == old(Rest())[..n] && b[lo + n..] == old(b[lo + n..])
      ensures err.Some? ==> Rest() == [] && err.value == fault
      ensures err.Some? && !eager ==> n == 0
      ensures eager && err.None? && lo < hi ==> Rest() != []
      ensures Measure() <= old(Measure()) && (lo < hi && err.None? ==> Measure() < old(Measure()))
      ensures lo == hi ==> n == 0 && err.None? && pending == old(pending)
    {
      if lo == hi {
        return 0, None;
      }
      if pending == [] {
        return 0, Some(fault);
      }
      var first, later := pending[0], pending[1..];
      n := if |first| <= hi - lo then |first| else hi - lo;
      forall i | 0 <= i < n {
        b[lo + i] := first[i];
      }
      assert b[lo..lo + n] == first[..n];
      assert Rest() == first + Flatten(later);
      pending := if n == |first| then later else [first[n..]] + later;
      assert n < |first| ==> pending[1..] == later;
      err := if eager && Rest() == [] then Some(fault) else None;
    }

    /** Skips k bytes; it fails only if there are not that many. */
    method Discard(k: nat) returns (err: Option<ReadError>)
      modifies this
      ensures err.None? <==> k <= |old(Rest())|
      ensures err.None? ==> Rest() == old(Rest())[k..]
      ensures err.Some? ==> err.value == fault && Rest() == []
      ensures Measure() <= old(Measure())
    {
      ghost var s := Rest();
      var left := k;
      while left > 0 && pending != []
        invariant 0 <= left <= k && k - left <= |s| && Rest() == s[k - left..] && |pending| <= old(|pending|)
        decreases left, |pending|
      {
        var first, later := pending[0], pending[1..];
        if |first| <= left {
          left := left - |first|;
          pending := later;
        } else {
          pending := [first[left..]] + later;
          assert pending[1..] == later;
          left := 0;
        }
      }
      if left > 0 {
        assert Rest() == [];
        return Some(fault);
      }
      return None;
    }
  }
}
