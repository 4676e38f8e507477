/**
  * The library as an application uses it: a list of calls on one end of a connection, and
  * what the application at the other end receives.
  */
module Application {
  import opened Wrappers
  import opened Bytes
  import opened Frames
  import opened FrameParser
  import opened Receiver
  import opened ByteSource
  import opened ConnWriter
  import opened Exchange

  /** A call of the goroutine that writes messages; Write and the like go to the writer that NextWriter gave out last. */
  datatype Call =
    | Open(messageType: int)
    | Put(p: seq<byte>)
    | PutString(p: seq<byte>)
    | Copy(pieces: seq<seq<byte>>, fault: Fault, eager: bool)
    | Finished
    | Send(messageType: int, data: seq<byte>)
    | SendControl(messageType: int, data: seq<byte>, timedOut: bool)
  {
    function Bytes(): nat {
      match this
      case Put(p) => |p|
      case PutString(p) => |p|
      case Send(_, data) => |data|
      case _ => 0
    }
  }

  /** What a call that succeeds adds to what the application has sent. */
  function Adds(s: Written, call: Call): Written {
    match call
    case Open(messageType) => Begin(s, messageType)
    case Put(p) => Append(s, p)
    case PutString(p) => Append(s, p)
    case Copy(pieces, _, _) => Append(s, Flatten(pieces))
    case Finished => Finish(s)
    case Send(messageType, data) => Finish(Append(Begin(s, messageType), data))
    case SendControl(_, _, _) => s
  }

  function Sent(s: Written, calls: seq<Call>): Written
    decreases |calls|
  {
    if calls == [] then s else Adds(Sent(s, calls[..|calls| - 1]), calls[|calls| - 1])
  }

  ghost predicate Manageable(w: WriteConn, calls: seq<Call>) {
    forall i :: 0 <= i < |calls| ==> w.writeBuf.Length + calls[i].Bytes() < 0x8000_0000_0000_0000
  }

  ghost predicate Usable(w: WriteConn, writer: Option<MessageWriter>)
    reads w
  {
    writer.Some? ==> w.Live(writer.value)
  }

  /** What the message being written would be, as far as a failed call got, is in all that would have been sent. */
  ghost predicate Within(writing: Written, whole: Written) {
    Finish(writing).delivered <= Finish(whole).delivered
  }

  /** One call. Before the first NextWriter there is no writer to call. */
  method Do(w: WriteConn, writer: Option<MessageWriter>, call: Call)
    returns (next: Option<MessageWriter>, err: Option<WriteError>, ghost writing: Written)
    requires w.Valid() && Usable(w, writer) && w.writeBuf.Length + call.Bytes() < 0x8000_0000_0000_0000
    modifies w, w.writeBuf
    ensures w.Valid() && Usable(w, next)
    ensures err.None? ==> w.State() == Adds(old(w.State()), call)
    ensures old(w.writeErr).None? && (err.None? || call.SendControl?) ==> w.writeErr.None?
    ensures err.Some? ==> old(w.State().delivered) <= w.State().delivered <= Adds(old(w.State()), call).delivered
    ensures old(w.writeErr).None? && err.Some? ==> w.Broke(err, writing) && Within(writing, Adds(old(w.State()), call))
  {
    hide WireGood, Assembled, DataMessages, Append, Begin, Finish, Flatten, WriteConn.Cuts, OnlyControlTorn;
    next := writer;
    writing := w.State();
    DeliveredStays(w.State(), call);
    if writer.None? && (call.Put? || call.PutString? || call.Copy? || call.Finished?) {
      writing := Adds(writing, call);
      NoneCut(w, writing);
      return writer, Some(WriteClosed), writing;
    }
    match call {
      case Open(messageType) =>
        var given;
        given, err := w.NextWriter(messageType);
        if err.None? {
          next := Some(given);
        }
      case Put(p) =>
        writing := Append(writing, p);
        var n;
        n, err := w.Write(writer.value, p);
      case PutString(p) =>
        writing := Append(writing, p);
        var n;
        n, err := w.WriteString(writer.value, p);
      case Copy(pieces, fault, eager) =>
        writing := Append(writing, Flatten(pieces));
        var r := new Source(pieces, fault, eager);
        var n;
        n, err := w.ReadFrom(writer.value, r);
      case Finished =>
        err := w.Close(writer.value);
      case Send(messageType, data) =>
        err := w.WriteMessage(messageType, data);
        if !w.Broke(err, writing) {
          writing := Append(Begin(writing, messageType), data);
        }
      case SendControl(messageType, data, timedOut) =>
        err := w.WriteControl(messageType, data, timedOut);
        NoneCut(w, writing);
    }
  }

  /** Without a failed write of its own, a writer has no message that is torn. */
  lemma NoneCut(w: WriteConn, s: Written)
    requires w.Valid()
    ensures w.writeErr != Some(Network) ==> w.Cuts(s)
  {
    hide WireGood, OnlyControlTorn;
  }

  /** The calls in order, up to the first that fails. */
  method Perform(w: WriteConn, calls: seq<Call>) returns (done: nat, err: Option<WriteError>, ghost writing: Written)
    requires w.Valid() && Manageable(w, calls)
    modifies w, w.writeBuf
    ensures w.Valid() && done <= |calls| && (err.None? <==> done == |calls|)
    ensures err.None? ==> w.State() == Sent(old(w.State()), calls)
    ensures old(w.writeErr).None? && (err.None? || calls[done].SendControl?) ==> w.writeErr.None?
    ensures err.Some? ==>
      Sent(old(w.State()), calls[..done]).delivered <= w.State().delivered <= Sent(old(w.State()), calls[..done + 1]).delivered
    ensures old(w.writeErr).None? && err.Some? ==>
      w.Broke(err, writing) && Within(writing, Sent(old(w.State()), calls[..done + 1]))
  {
    hide WireGood, Assembled, DataMessages, Append, Begin, Finish, Flatten, Adds, WriteConn.Broke, Within;
    done := 0;
    writing := w.State();
    var writer: Option<MessageWriter> := None;
    assert calls[..0] == [];
    while done < |calls|
      invariant done <= |calls| && w.Valid() && Usable(w, writer)
      invariant w.State() == Sent(old(w.State()), calls[..done])
      invariant old(w.writeErr).None? ==> w.writeErr.None?
    {
      NextCall(old(w.State()), calls, done);
      writer, err, writing := Do(w, writer, calls[done]);
      if err.Some? {
        return;
      }
      done := done + 1;
    }
    assert calls[..done] == calls;
    err := None;
  }

  lemma NextCall(s: Written, calls: seq<Call>, i: nat)
    requires i < |calls|
    ensures Sent(s, calls[..i + 1]) == Adds(Sent(s, calls[..i]), calls[i])
  {
    assert calls[..i + 1][..i] == calls[..i];
  }

  /** The calls of an application that writes a message in any pieces. */
  function Writes(messageType: int, puts: seq<seq<byte>>): seq<Call> {
    [Open(messageType)] + seq(|puts|, i requires 0 <= i < |puts| => Put(puts[i])) + [Finished]
  }

  lemma {:induction false} SentPuts(s: Written, puts: seq<seq<byte>>)
    requires s.current.Some?
    ensures Sent(s, seq(|puts|, i requires 0 <= i < |puts| => Put(puts[i])))
         == s.(current := Some(Message(s.current.value.opcode, s.current.value.payload + Flatten(puts))))
    decreases |puts|
  {
    var calls := seq(|puts|, i requires 0 <= i < |puts| => Put(puts[i]));
    if puts == [] {
      assert s.current.value.payload + [] == s.current.value.payload;
    } else {
      var n := |puts| - 1;
      SentPuts(s, puts[..n]);
      assert calls[..n] == seq(|puts[..n]|, i requires 0 <= i < |puts[..n]| => Put(puts[..n][i]));
      FlattenLast(puts);
      assert s.current.value.payload + (Flatten(puts[..n]) + puts[n]) == s.current.value.payload + Flatten(puts[..n]) + puts[n];
    }
  }

  lemma {:induction false} FlattenLast(puts: seq<seq<byte>>)
    requires puts != []
    ensures Flatten(puts) == Flatten(puts[..|puts| - 1]) + puts[|puts| - 1]
    decreases |puts|
  {
    if |puts| == 1 {
      FlattenOne(puts[0]);
      assert puts == [puts[0]] && Flatten(puts[..0]) == [];
    } else {
      FlattenLast(puts[1..]);
      var n := |puts| - 1;
      assert puts[1..][..n - 1] == puts[..n][1..];
      assert puts[0] + (Flatten(puts[..n][1..]) + puts[n]) == puts[0] + Flatten(puts[..n][1..]) + puts[n];
    }
  }

  lemma {:induction false} SentConcat(s: Written, a: seq<Call>, b: seq<Call>)
    ensures Sent(s, a + b) == Sent(Sent(s, a), b)
    decreases |b|
  {
    hide Adds;
    if b == [] {
      assert a + b == a;
    } else {
      var n := |b| - 1;
      assert (a + b)[..|a + b| - 1] == a + b[..n];
      SentConcat(s, a, b[..n]);
    }
  }

  /** A message is what was written to it, in order, whatever the pieces; WriteMessage sends one with just its data. */
  lemma MessageIsItsWrites(s: Written, messageType: int, puts: seq<seq<byte>>, data: seq<byte>)
    requires s.current.None? && IsData(messageType)
    ensures Sent(s, Writes(messageType, puts)) == Written(s.delivered + [Message(messageType, Flatten(puts))], None)
    ensures Sent(s, [Send(messageType, data)]) == Written(s.delivered + [Message(messageType, data)], None)
  {
    var start := [Open(messageType)];
    var calls := seq(|puts|, i requires 0 <= i < |puts| => Put(puts[i]));
    assert start[..0] == [] && [Finished][..0] == [] && [Send(messageType, data)][..0] == [];
    SentConcat(s, start + calls, [Finished]);
    SentConcat(s, start, calls);
    SentPuts(Sent(s, start), puts);
    assert [] + Flatten(puts) == Flatten(puts) && [] + data == data;
  }

  /** The bytes in any pieces. */
  method Chop(s: seq<byte>) returns (pieces: seq<seq<byte>>)
    ensures Flatten(pieces) == s
  {
    pieces := [];
    var rest := s;
    assert rest + [] == s;
    while rest != []
      invariant rest + Flatten(pieces) == s
    {
      var k: nat :| k < |rest|;
      var piece := rest[k..];
      assert rest == rest[..k] + piece;
      assert ([piece] + pieces)[1..] == pieces;
      pieces, rest := [piece] + pieces, rest[..k];
    }
  }

  /** After the messages delivered, the beginning of the one that was to come next, but not all of it. */
  predicate CutAfter(delivered: seq<Message>, messages: seq<Message>, whole: seq<Message>) {
    var n := |delivered|;
    && |messages| == n + 1 <= |whole| && messages[..n] == delivered == whole[..n]
    && messages[n].opcode == whole[n].opcode && messages[n].payload < whole[n].payload
  }

  /**
    * A conversation: any calls on one end of a new connection, while other goroutines send
    * control messages, and a session on the other end, however the bytes travel. If all calls
    * succeed, the application at the other end receives exactly the messages that were sent.
    * If one fails, it receives exactly those that were complete by then; only if it failed in
    * the transport, and is not a WriteControl, can there be one more, the beginning of the
    * message that the call was sending.
    */
  method Converse(isServer: bool, writeBufferSize: nat, calls: seq<Call>)
    returns (done: nat, failed: Option<WriteError>, messages: seq<Message>, ghost delivered: seq<Message>)
    requires forall i :: 0 <= i < |calls| ==> 5000 + writeBufferSize + calls[i].Bytes() < 0x8000_0000_0000_0000
    ensures done <= |calls| && (failed.None? <==> done == |calls|)
    ensures failed.None? ==> messages == Sent(NOTHING_WRITTEN, calls).delivered
    ensures failed.Some? ==>
      var before, after := Sent(NOTHING_WRITTEN, calls[..done]), Sent(NOTHING_WRITTEN, calls[..done + 1]);
      && before.delivered <= delivered <= after.delivered
      && (messages == delivered
          || (failed == Some(Network) && !calls[done].SendControl? && CutAfter(delivered, messages, Finish(after).delivered)))
  {
    hide WireGood, Assembled, DataMessages, Sent, AllAndTheCut, Flatten, Finish, WriteConn.Cuts, OnlyControlTorn, CutAfter;
    var w := new WriteConn(isServer, writeBufferSize);
    ghost var writing;
    done, failed, writing := Perform(w, calls);
    delivered := w.State().delivered;
    var pieces := Chop(w.wire);
    var source := new Source(pieces, EOF, false);
    var err;
    messages, err := ReceiveAny(w, source);
    if failed.Some? && messages != delivered {
      CutIsNext(w, writing, Sent(NOTHING_WRITTEN, calls[..done + 1]), messages);
    }
  }

  const NOTHING_WRITTEN := Written([], None)

  lemma CutIsNext(w: WriteConn, writing: Written, whole: Written, messages: seq<Message>)
    requires w.Valid() && w.Cuts(writing) && Within(writing, whole) && messages != w.State().delivered
    requires AllAndTheCut(w.isServer, w.frames, w.torn, EOF, w.State().delivered, messages)
    ensures CutAfter(w.State().delivered, messages, Finish(whole).delivered)
  {
    hide WireGood, Assembled, DataMessages, Beginning, OnlyControlTorn, WithFrame, LooksWhole;
    var f :| Beginning(w.isServer, w.frames, w.torn, f) && CutBy(w.frames, f, writing);
    var delivered := w.State().delivered;
    BeginningEncodable(w, f);
    assert messages == delivered + LooksWhole(EOF, 0, Assembled(w.frames).open, f, w.torn);
    assert Finish(writing).delivered == delivered + [writing.current.value];
  }

  lemma BeginningEncodable(w: WriteConn, f: Frame)
    requires Beginning(w.isServer, w.frames, w.torn, f)
    ensures f.Encodable()
  {
  }

  lemma DeliveredStays(s: Written, call: Call)
    ensures s.delivered <= Adds(s, call).delivered
    ensures call.Open? ==> Finish(s).delivered == Adds(s, call).delivered
    ensures call.Send? ==> Finish(s).delivered <= Adds(s, call).delivered
    ensures s.delivered <= Finish(s).delivered
    ensures call.Open? || call.Finished? || call.Send? || call.SendControl? ==> Within(s, Adds(s, call))
    ensures call.Send? ==> Within(Append(Begin(s, call.messageType), call.data), Adds(s, call))
  {
  }
}
