/** The chat hub: which broadcasts each registered connection is sent, and when it is closed. */
module Hub {

  type Message = seq<bv8>

  class Connection {
    /** Everything ever sent on the connection's channel. */
    var queued: seq<Message>
    var closed: bool

    constructor ()
      ensures queued == [] && !closed
    {
      queued, closed := [], false;
    }

    /** c.send <- m, which panics on a closed channel. */
    method Send(m: Message)
      requires !closed
      modifies this
      ensures queued == old(queued) + [m] && !closed
    {
      queued := queued + [m];
    }

    /** close(c.send), which panics on a closed channel. */
    method Close()
      requires !closed
      modifies this
      ensures queued == old(queued) && closed
    {
      closed := true;
    }
  }

  /** What the hub takes from its channels; full are the connections whose send would block. */
  datatype Event =
    | Register(c: Connection)
    | Unregister(c: Connection)
    | Broadcast(m: Message, full: set<Connection>)

  class Hub {
    var connections: set<Connection>
    /** Every message broadcast so far. */
    ghost var broadcasts: seq<Message>
    /** How many messages had been broadcast when a connection was registered. */
    ghost var started: map<Connection, nat>
    /** And when it was closed. */
    ghost var ended: map<Connection, nat>

    /** A registered connection has been sent every message since. */
    ghost predicate Serves(c: Connection)
      reads this, c
    {
      c in started && !c.closed && started[c] <= |broadcasts| && c.queued == broadcasts[started[c]..]
    }

    /** A closed one has been sent every message until then, and none after. */
    ghost predicate Served(c: Connection)
      reads this, c
    {
      c in started && c in ended && c.closed && started[c] <= ended[c] <= |broadcasts|
      && c.queued == broadcasts[started[c]..ended[c]]
    }

    ghost predicate Valid()
      reads this, started.Keys
    {
      && connections <= started.Keys && ended.Keys == started.Keys - connections
      && (forall c :: c in connections ==> Serves(c))
      && (forall c :: c in ended ==> Served(c))
    }

    constructor ()
      ensures Valid() && connections == {} && broadcasts == [] && started == map[] && ended == map[]
    {
      connections, broadcasts, started, ended := {}, [], map[], map[];
    }

    /** Each connection is registered once, when it is new. */
    method DoRegister(c: Connection)
      requires Valid() && c !in started && c.queued == [] && !c.closed
      modifies this
      ensures Valid() && connections == old(connections) + {c} && started == old(started)[c := |broadcasts|]
      ensures broadcasts == old(broadcasts) && ended == old(ended)
    {
      connections := connections + {c};
      started := started[c := |broadcasts|];
    }

    method DoUnregister(c: Connection)
      requires Valid()
      modifies this, c
      ensures Valid() && connections == old(connections) - {c} && started == old(started) && broadcasts == old(broadcasts)
      ensures ended == if c in old(connections) then old(ended)[c := |broadcasts|] else old(ended)
      ensures c in old(connections) ==> c.closed && c.queued == old(c.queued)
      ensures c !in old(connections) ==> c.closed == old(c.closed) && c.queued == old(c.queued)
    {
      if c in connections {
        connections := connections - {c};
        ended := ended[c := |broadcasts|];
        c.Close();
      }
    }

    /** Part way through a broadcast of m: the connections in rest have not had their turn. */
    ghost predicate Broadcasting(m: Message, rest: set<Connection>)
      reads this, started.Keys
    {
      && rest <= connections <= started.Keys && ended.Keys == started.Keys - connections
      && (forall c :: c in rest ==> Serves(c))
      && (forall c :: c in connections - rest ==>
        !c.closed && started[c] <= |broadcasts| && c.queued == broadcasts[started[c]..] + [m])
      && (forall c :: c in ended ==> Served(c))
    }

    /** The turn of one connection. */
    method Offer(c: Connection, m: Message, blocked: bool, ghost rest: set<Connection>)
      requires Broadcasting(m, rest) && c in rest
      modifies this, c
      ensures Broadcasting(m, rest - {c})
      ensures broadcasts == old(broadcasts) && started == old(started)
      ensures connections == if blocked then old(connections) - {c} else old(connections)
      ensures ended == if blocked then old(ended)[c := |broadcasts|] else old(ended)
    {
      if !blocked {
        c.Send(m);
      } else {
        c.Close();
        connections := connections - {c};
        ended := ended[c := |broadcasts|];
      }
    }

    /** The message goes to every connection whose send does not block; the others are closed. */
    method DoBroadcast(m: Message, full: set<Connection>)
      requires Valid()
      modifies this, connections
      ensures Valid() && broadcasts == old(broadcasts) + [m] && started == old(started)
      ensures connections == old(connections) - full
      ensures ended == Ended(old(ended), old(connections) * full, |old(broadcasts)|)
      ensures forall c :: c in old(connections) ==>
        c.queued == old(c.queued) + (if c in full then [] else [m]) && c.closed == (c in full)
    {
      hide Broadcasting, Valid, Progress;
      Queued();
      Start(m);
      ghost var all, was := connections, ended;
      var rest := connections;
      ProgressStart(all, full, was, |broadcasts|);
      while rest != {}
        invariant Broadcasting(m, rest) && broadcasts == old(broadcasts) && started == old(started)
        invariant rest <= all && Progress(all, full, rest, connections, was, ended, |broadcasts|)
        decreases |rest|
      {
        var c :| c in rest;
        ProgressStep(all, full, rest, connections, was, ended, |broadcasts|, c);
        Offer(c, m, c in full, rest);
        rest := rest - {c};
      }
      ProgressEnd(all, full, connections, was, ended, |broadcasts|);
      Finish(m);
      QueuesAfter(all, full, old(broadcasts), m);
    }

    lemma Queued()
      requires Valid()
      ensures forall c :: c in connections ==> c in started && started[c] <= |broadcasts| && c.queued == broadcasts[started[c]..] && !c.closed
    {
    }

    lemma QueuesAfter(all: set<Connection>, full: set<Connection>, before: seq<Message>, m: Message)
      requires Valid() && broadcasts == before + [m] && connections == all - full
      requires all <= started.Keys && forall c :: c in all * full ==> c in ended && ended[c] == |before|
      ensures forall c :: c in all ==> started[c] <= |before| ==>
        c.queued == before[started[c]..] + (if c in full then [] else [m]) && c.closed == (c in full)
    {
      forall c | c in all && started[c] <= |before|
        ensures c.queued == before[started[c]..] + (if c in full then [] else [m]) && c.closed == (c in full)
      {
        if c in full {
          assert Served(c);
          assert broadcasts[started[c]..|before|] == before[started[c]..] + [];
        } else {
          assert Serves(c);
        }
      }
    }

    lemma Start(m: Message)
      requires Valid()
      ensures Broadcasting(m, connections)
    {
    }

    ghost method Finish(m: Message)
      requires Broadcasting(m, {})
      modifies `broadcasts
      ensures Valid() && broadcasts == old(broadcasts) + [m]
    {
      broadcasts := broadcasts + [m];
    }

    /** The connection is new to the hub and to its channel. */
    ghost predicate IsNew(c: Connection)
      reads this, c
    {
      c !in started && c.queued == [] && !c.closed
    }

    /** One event: it ends just the connections that it is said to end. */
    method DoEvent(e: Event)
      requires Valid() && (e.Register? ==> IsNew(e.c))
      modifies this, started.Keys, Named([e])
      ensures Valid() && broadcasts == old(broadcasts) + (if e.Broadcast? then [e.m] else [])
      ensures started == if e.Register? then old(started)[e.c := |old(broadcasts)|] else old(started)
      ensures forall c :: c in old(connections) ==>
        if Ends(e, c) then c !in connections && c in ended && ended[c] == |old(broadcasts)| else c in connections
      ensures forall c :: c in old(ended) ==> c !in connections && c in ended && ended[c] == old(ended)[c]
      ensures e.Register? ==> e.c in connections
      ensures forall c :: c in Named([e]) && c !in old(connections) ==> c.closed == old(c.closed) && c.queued == old(c.queued)
    {
      assert e.Register? || e.Unregister? ==> [e][0].c in Named([e]);
      ConnectionsStarted();
      match e {
        case Register(c) => DoRegister(c);
        case Unregister(c) => DoUnregister(c);
        case Broadcast(m, full) => DoBroadcast(m, full);
      }
    }

    /**
      * Any run: the hub serves events in any order, each connection being registered once.
      * No send or close hits a closed channel. A connection is served from its registration
      * on, until it is unregistered or a broadcast finds it full, whichever comes first, and
      * has been sent the broadcasts in between, without a gap, and none after.
      */
    method Run(events: seq<Event>)
      requires Valid() && RegisteredOnce(events)
      requires forall i :: 0 <= i < |events| && events[i].Register? ==> IsNew(events[i].c)
      modifies this, started.Keys, Named(events)
      ensures Valid() && broadcasts == old(broadcasts) + Messages(events)
      ensures old(started.Keys) <= started.Keys && forall c :: c in old(started) ==> started[c] == old(started)[c]
      ensures forall i :: 0 <= i < |events| && events[i].Register? ==>
        events[i].c in started && started[events[i].c] == |old(broadcasts)| + |Messages(events[..i])|
      ensures forall i :: 0 <= i < |events| && events[i].Register? ==>
        Standing(connections, ended, events, events[i].c, i + 1, |events|, |old(broadcasts)|)
      ensures forall c :: c in old(connections) ==> Standing(connections, ended, events, c, 0, |events|, |old(broadcasts)|)
      ensures forall c :: c in connections ==>
        c in started && started[c] <= |broadcasts| && !c.closed && c.queued == broadcasts[started[c]..]
      ensures forall c :: c in ended ==>
        && c in started && started[c] <= ended[c] <= |broadcasts| && c.closed
        && c.queued == broadcasts[started[c]..ended[c]]
    {
      hide Valid, Messages, FirstEnd, Standing, Ends, Happened;
      ghost var before, first, known := |broadcasts|, connections, started;
      var i := 0;
      NoMessages(events);
      ConnectionsStarted();
      NothingHappened(first, known, ended, events, before);
      while i < |events|
        invariant i <= |events| && Valid() && broadcasts == old(broadcasts) + Messages(events[..i])
        invariant started.Keys <= old(started.Keys) + Named(events)
        invariant forall j :: i <= j < |events| && events[j].Register? ==> IsNew(events[j].c)
        invariant Happened(first, known, connections, ended, started, events, i, before)
      {
        ghost var served, over, sofar := connections, ended, started;
        OneMoreEvent(events, i);
        NamedOne(events, i);
        DoEvent(events[i]);
        OneMoreHappened(first, known, served, over, sofar, connections, ended, started, events, i, before);
        i := i + 1;
      }
      assert events[..i] == events;
      ServedFully();
      AllHappened(first, known, connections, ended, started, events, before);
    }

    lemma ServedFully()
      requires Valid()
      ensures forall c :: c in connections ==>
        c in started && started[c] <= |broadcasts| && !c.closed && c.queued == broadcasts[started[c]..]
      ensures forall c :: c in ended ==>
        && c in started && started[c] <= ended[c] <= |broadcasts| && c.closed
        && c.queued == broadcasts[started[c]..ended[c]]
    {
    }

    lemma ConnectionsStarted()
      requires Valid()
      ensures connections <= started.Keys
    {
    }
  }

  predicate RegisteredOnce(events: seq<Event>) {
    forall i, j :: 0 <= i < j < |events| && events[i].Register? && events[j].Register? ==> events[i].c != events[j].c
  }

  function Named(events: seq<Event>): set<Connection> {
    set i | 0 <= i < |events| && (events[i].Register? || events[i].Unregister?) :: events[i].c
  }

  /** The connection is unregistered, or its send would block. */
  predicate Ends(e: Event, c: Connection) {
    e == Unregister(c) || (e.Broadcast? && c in e.full)
  }

  /** The first of the events [from, end) that ends c, or else end. */
  function FirstEnd(events: seq<Event>, c: Connection, from: nat, end: nat): (k: nat)
    requires from <= end <= |events|
    ensures from <= k <= end
    ensures k < end ==> events[k] == Unregister(c) || (events[k].Broadcast? && c in events[k].full)
    ensures forall j :: from <= j < k ==> events[j] != Unregister(c) && (events[j].Broadcast? ==> c !in events[j].full)
    decreases end - from
  {
    if from == end || Ends(events[from], c) then from else FirstEnd(events, c, from + 1, end)
  }

  lemma {:induction false} FirstEndStep(events: seq<Event>, c: Connection, from: nat, i: nat)
    requires from <= i < |events|
    ensures FirstEnd(events, c, from, i + 1)
         == var k := FirstEnd(events, c, from, i); if k < i || Ends(events[i], c) then k else i + 1
    decreases i - from
  {
    hide Ends;
    if from < i && !Ends(events[from], c) {
      FirstEndStep(events, c, from + 1, i);
    }
  }

  /**
    * What the events [from, end) have done to connection c, which was being served before
    * them, where before is the number of broadcasts before event 0: the first one that ends it
    * has closed it, and if there is none it is still being served.
    */
  ghost predicate Standing(served: set<Connection>, over: map<Connection, nat>, events: seq<Event>, c: Connection,
                           from: nat, end: nat, before: nat)
    requires from <= end <= |events|
  {
    var k := FirstEnd(events, c, from, end);
    if k < end then c !in served && c in over && over[c] == before + |Messages(events[..k])| else c in served
  }

  lemma StandingStart(served: set<Connection>, over: map<Connection, nat>, events: seq<Event>, before: nat)
    ensures forall c :: c in served ==> Standing(served, over, events, c, 0, 0, before)
  {
  }

  lemma StandingNew(served: set<Connection>, over: map<Connection, nat>, events: seq<Event>, c: Connection, from: nat, before: nat)
    requires c in served && from <= |events|
    ensures Standing(served, over, events, c, from, from, before)
  {
  }

  lemma StandingStep(
      served: set<Connection>, over: map<Connection, nat>, served': set<Connection>, over': map<Connection, nat>,
      events: seq<Event>, c: Connection, from: nat, i: nat, before: nat)
    requires from <= i < |events| && Standing(served, over, events, c, from, i, before)
    requires forall d :: d in served ==>
      if Ends(events[i], d) then d !in served' && d in over' && over'[d] == before + |Messages(events[..i])| else d in served'
    requires forall d :: d in over ==> d !in served' && d in over' && over'[d] == over[d]
    ensures Standing(served', over', events, c, from, i + 1, before)
  {
    hide Ends, Messages;
    FirstEndStep(events, c, from, i);
  }

  lemma StandingNext(
      served: set<Connection>, over: map<Connection, nat>, served': set<Connection>, over': map<Connection, nat>,
      events: seq<Event>, i: nat, before: nat)
    requires i < |events| && (events[i].Register? ==> events[i].c in served')
    requires forall d :: d in served ==>
      if Ends(events[i], d) then d !in served' && d in over' && over'[d] == before + |Messages(events[..i])| else d in served'
    requires forall d :: d in over ==> d !in served' && d in over' && over'[d] == over[d]
    ensures forall c, from: nat :: from <= i && Standing(served, over, events, c, from, i, before) ==>
      Standing(served', over', events, c, from, i + 1, before)
    ensures events[i].Register? ==> Standing(served', over', events, events[i].c, i + 1, i + 1, before)
  {
    hide Ends, Messages, Standing;
    forall c, from: nat | from <= i && Standing(served, over, events, c, from, i, before)
      ensures Standing(served', over', events, c, from, i + 1, before)
    {
      StandingStep(served, over, served', over', events, c, from, i, before);
    }
    if events[i].Register? {
      StandingNew(served', over', events, events[i].c, i + 1, before);
    }
  }

  /**
    * What the first i events have done: connections that were known stay known, those that were
    * registered are, and each one that was being served is as Standing says.
    */
  ghost predicate Happened(
      first: set<Connection>, known: map<Connection, nat>, served: set<Connection>, over: map<Connection, nat>,
      started: map<Connection, nat>, events: seq<Event>, i: nat, before: nat)
    requires i <= |events|
  {
    && (forall c :: c in known ==> c in started && started[c] == known[c])
    && (forall j :: 0 <= j < i && events[j].Register? ==>
      events[j].c in started && started[events[j].c] == before + |Messages(events[..j])|)
    && (forall j :: 0 <= j < i && events[j].Register? ==> Standing(served, over, events, events[j].c, j + 1, i, before))
    && (forall c :: c in first ==> Standing(served, over, events, c, 0, i, before))
  }

  lemma NothingHappened(first: set<Connection>, known: map<Connection, nat>, over: map<Connection, nat>, events: seq<Event>, before: nat)
    ensures Happened(first, known, first, over, known, events, 0, before)
  {
    StandingStart(first, over, events, before);
  }

  lemma OneMoreHappened(
      first: set<Connection>, known: map<Connection, nat>, served: set<Connection>, over: map<Connection, nat>,
      started: map<Connection, nat>, served': set<Connection>, over': map<Connection, nat>, started': map<Connection, nat>,
      events: seq<Event>, i: nat, before: nat)
    requires i < |events| && Happened(first, known, served, over, started, events, i, before)
    requires events[i].Register? ==> events[i].c in served' && events[i].c !in started
    requires started' == if events[i].Register? then started[events[i].c := before + |Messages(events[..i])|] else started
    requires forall d :: d in served ==>
      if Ends(events[i], d) then d !in served' && d in over' && over'[d] == before + |Messages(events[..i])| else d in served'
    requires forall d :: d in over ==> d !in served' && d in over' && over'[d] == over[d]
    ensures Happened(first, known, served', over', started', events, i + 1, before)
  {
    hide Ends, Messages, Standing;
    StandingNext(served, over, served', over', events, i, before);
  }

  lemma AllHappened(
      first: set<Connection>, known: map<Connection, nat>, served: set<Connection>, over: map<Connection, nat>,
      started: map<Connection, nat>, events: seq<Event>, before: nat)
    requires Happened(first, known, served, over, started, events, |events|, before)
    ensures forall c :: c in known ==> c in started && started[c] == known[c]
    ensures known.Keys <= started.Keys
    ensures forall j :: 0 <= j < |events| && events[j].Register? ==>
      events[j].c in started && started[events[j].c] == before + |Messages(events[..j])|
    ensures forall j :: 0 <= j < |events| && events[j].Register? ==>
      Standing(served, over, events, events[j].c, j + 1, |events|, before)
    ensures forall c :: c in first ==> Standing(served, over, events, c, 0, |events|, before)
  {
    hide Messages, Standing;
  }

  /** Spelled out: with no such event the connection is served, and after the first it is over. */
  lemma StandingExactly(served: set<Connection>, over: map<Connection, nat>, events: seq<Event>, c: Connection,
                        from: nat, before: nat, k: nat)
    requires from <= k <= |events|
    requires forall j :: from <= j < k ==> events[j] != Unregister(c) && (events[j].Broadcast? ==> c !in events[j].full)
    requires Standing(served, over, events, c, from, |events|, before)
    ensures k == |events| ==> c in served
    ensures k < |events| && (events[k] == Unregister(c) || (events[k].Broadcast? && c in events[k].full)) ==>
      c !in served && c in over && over[c] == before + |Messages(events[..k])|
  {
    hide Messages;
  }

  lemma NamedOne(events: seq<Event>, i: nat)
    requires i < |events|
    ensures Named([events[i]]) <= Named(events)
  {
  }

  function Messages(events: seq<Event>): seq<Message> {
    if events == [] then []
    else
      var last := events[|events| - 1];
      Messages(events[..|events| - 1]) + if last.Broadcast? then [last.m] else []
  }

  lemma NoMessages(events: seq<Event>)
    ensures Messages(events[..0]) == []
  {
  }

  lemma OneMoreEvent(events: seq<Event>, i: nat)
    requires i < |events|
    ensures Messages(events[..i + 1]) == Messages(events[..i]) + if events[i].Broadcast? then [events[i].m] else []
    ensures events[i].Register? || events[i].Unregister? ==> events[i].c in Named(events)
  {
    assert events[..i + 1][..i] == events[..i];
  }

  /** The connections that had their turn were closed exactly if they were full. */
  ghost predicate Progress(
      all: set<Connection>, full: set<Connection>, rest: set<Connection>, now: set<Connection>,
      was: map<Connection, nat>, ended: map<Connection, nat>, at: nat) {
    now == all - (full - rest) && ended == Ended(was, (all - rest) * full, at)
  }

  lemma ProgressStart(all: set<Connection>, full: set<Connection>, was: map<Connection, nat>, at: nat)
    ensures Progress(all, full, all, all, was, was, at)
  {
  }

  lemma ProgressStep(
      all: set<Connection>, full: set<Connection>, rest: set<Connection>, now: set<Connection>,
      was: map<Connection, nat>, ended: map<Connection, nat>, at: nat, c: Connection)
    requires Progress(all, full, rest, now, was, ended, at) && c in rest && rest <= all
    ensures Progress(
      all, full, rest - {c}, if c in full then now - {c} else now, was, if c in full then ended[c := at] else ended, at)
  {
    if c in full {
      assert (all - (rest - {c})) * full == (all - rest) * full + {c};
    } else {
      assert (all - (rest - {c})) * full == (all - rest) * full;
    }
  }

  lemma ProgressEnd(
      all: set<Connection>, full: set<Connection>, now: set<Connection>,
      was: map<Connection, nat>, ended: map<Connection, nat>, at: nat)
    requires Progress(all, full, {}, now, was, ended, at)
    ensures now == all - full && ended == Ended(was, all * full, at)
  {
    assert all - {} == all && full - {} == full;
  }

  ghost function Ended(ended: map<Connection, nat>, closed: set<Connection>, at: nat): map<Connection, nat> {
    map c | c in ended.Keys + closed :: if c in closed then at else ended[c]
  }
}
