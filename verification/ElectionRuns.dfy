/**
  * Elections inside the runs of Agreement: what one client has become is a function of the
  * requests that it served, so what Convergence and LostLeader say of single clients holds
  * in every run whose steps deliver the votes round by round, however they interleave.
  */
module ElectionRuns {
  import opened Wrappers
  import opened Members
  import opened Election
  import opened Roster
  import opened Agreement
  import opened Convergence
  import opened LostLeader

  // ----- One client in a run -----

  /** The steps of a part of a run. */
  ghost predicate Steps(states: seq<System>, who: seq<Id>, reqs: seq<Request>) {
    && |states| == |who| + 1 == |reqs| + 1
    && forall k :: 0 <= k < |who| ==> Step(states[k], who[k], reqs[k], states[k + 1])
  }

  /** The requests that client i serves. */
  function ServedBy(i: Id, who: seq<Id>, reqs: seq<Request>): seq<Request>
    requires |who| == |reqs|
    decreases |who|
  {
    if who == [] then []
    else
      var n := |who| - 1;
      ServedBy(i, who[..n], reqs[..n]) + if who[n] == i then [reqs[n]] else []
  }

  /** Serving requests in order, as long as the client neither panics nor runs on without end. */
  ghost function ServeAll(s: ClientState, reqs: seq<Request>): Option<ClientState>
    decreases |reqs|
  {
    if reqs == [] then Some(s)
    else ServeNext(ServeAll(s, reqs[..|reqs| - 1]), reqs[|reqs| - 1])
  }

  ghost function ServeNext(s: Option<ClientState>, req: Request): Option<ClientState> {
    if s.None? || !req.WellFormed() || !Serve(s.value, req).Returned? then None else Some(Serve(s.value, req).client)
  }

  predicate Shows(node: Node, s: Option<ClientState>) {
    node == if s.Some? then Live(s.value) else Dead
  }

  /** Whatever the others do in between, a client is where the requests that it served have brought it. */
  lemma {:induction false} RunProjects(states: seq<System>, who: seq<Id>, reqs: seq<Request>, i: Id, s: ClientState)
    requires Steps(states, who, reqs) && i in states[0].nodes && states[0].nodes[i] == Live(s)
    ensures i in states[|who|].nodes && Shows(states[|who|].nodes[i], ServeAll(s, ServedBy(i, who, reqs)))
    decreases |who|
  {
    hide Serve, Votes;
    if who != [] {
      var n := |who| - 1;
      RunProjects(states[..|who|], who[..n], reqs[..n], i, s);
      assert Step(states[n], who[n], reqs[n], states[n + 1]);
      var served := ServedBy(i, who[..n], reqs[..n]);
      assert (served + [reqs[n]])[..|served|] == served;
      assert served + [] == served;
    }
  }

  lemma {:induction false} ServeAllConcat(s: ClientState, a: seq<Request>, b: seq<Request>)
    ensures ServeAll(s, a + b) == match ServeAll(s, a) case None => None case Some(t) => ServeAll(t, b)
    decreases |b|
  {
    hide Serve;
    if b == [] {
      assert a + b == a;
    } else {
      var n := |b| - 1;
      assert (a + b)[..|a + b| - 1] == a + b[..n];
      ServeAllConcat(s, a, b[..n]);
    }
  }

  // ----- Stale votes -----

  predicate StaleRequest(s: ClientState, req: Request) {
    req.Vote? && Stale(s, req.vote)
  }

  /** The requests without the votes that are stale when the client serves them. */
  ghost function Core(s: ClientState, reqs: seq<Request>): seq<Request>
    decreases |reqs|
  {
    if reqs == [] then []
    else
      var n := |reqs| - 1;
      var t := ServeAll(s, reqs[..n]);
      Core(s, reqs[..n]) + if t.Some? && StaleRequest(t.value, reqs[n]) then [] else [reqs[n]]
  }

  lemma {:induction false} ServeCore(s: ClientState, reqs: seq<Request>)
    ensures ServeAll(s, reqs) == ServeAll(s, Core(s, reqs))
    decreases |reqs|
  {
    hide Serve, StaleRequest;
    if reqs != [] {
      var n := |reqs| - 1;
      var front, req, t := Core(s, reqs[..n]), reqs[n], ServeAll(s, reqs[..n]);
      ServeCore(s, reqs[..n]);
      assert (front + [req])[..|front|] == front && front + [] == front;
      if t.Some? && StaleRequest(t.value, req) {
        ServeStale(t.value, req);
      }
    }
  }

  lemma ServeStale(s: ClientState, req: Request)
    requires StaleRequest(s, req)
    ensures ServeNext(Some(s), req) == Some(s)
  {
    StaleVoteIsIgnored(s, req.vote, 2);
  }

  // ----- Elections -----

  function Requests(ballots: seq<LeaderVote>): (reqs: seq<Request>)
    ensures |reqs| == |ballots|
  {
    seq(|ballots|, k requires 0 <= k < |ballots| => Vote(ballots[k]))
  }

  function ClientOf(out: Outcome): Option<ClientState> {
    if out.Returned? then Some(out.client) else None
  }

  lemma {:induction false} ServeBallots(s: ClientState, ballots: seq<LeaderVote>)
    ensures ServeAll(s, Requests(ballots)) == ClientOf(AcceptAll(s, ballots))
    decreases |ballots|
  {
    hide Accept;
    if ballots != [] {
      var n := |ballots| - 1;
      ServeBallots(s, ballots[..n]);
      assert Requests(ballots)[..n] == Requests(ballots[..n]);
    }
  }

  /** The votes of an election: those of round n, and of the next if not all are alike. */
  ghost function ElectionVotes(n: Uint, choice: map<Id, Id>, order: seq<Id>, nextOrder: seq<Id>): seq<Request>
    requires n < UINT_MAX && choice != map[]
    requires forall p :: p in order + nextOrder ==> p in choice
  {
    Requests(Ballots(n, choice, order))
    + if AllAlike(choice) then [] else Requests(Ballots(n + 1, Everybody(choice, Winner(choice)), nextOrder))
  }

  lemma ServeElection(s: ClientState, n: Uint, choice: map<Id, Id>, order: seq<Id>, nextOrder: seq<Id>)
    requires n < UINT_MAX && choice != map[]
    requires forall p :: p in order + nextOrder ==> p in choice
    ensures ServeAll(s, ElectionVotes(n, choice, order, nextOrder)) == ClientOf(Elected(s, n, choice, order, nextOrder))
  {
    hide AcceptAll, ServeAll, AllAlike, Winner;
    var ballots := Ballots(n, choice, order);
    ServeBallots(s, ballots);
    if AllAlike(choice) {
      assert Requests(ballots) + [] == Requests(ballots);
    } else {
      var more := Ballots(n + 1, Everybody(choice, Winner(choice)), nextOrder);
      ServeAllConcat(s, Requests(ballots), Requests(more));
      if AcceptAll(s, ballots).Returned? {
        ServeBallots(AcceptAll(s, ballots).client, more);
      }
    }
  }

  /** And of the election that the clients ask for if the lost leader wins the first, with the request itself. */
  ghost function Schedule(n: Uint, choice: map<Id, Id>, again: map<Id, Id>, d: Delivery): seq<Request>
    requires n + 2 < UINT_MAX && choice != map[] && again.Keys == choice.Keys && DeliversWithin(d, choice.Keys)
  {
    ElectionVotes(n, choice, d.first, d.next)
    + if Winner(choice) in choice then []
      else [Elect] + ElectionVotes(LastRound(n, choice) + 1, again, d.retry, d.last)
  }

  lemma ServeSchedule(s: ClientState, n: Uint, choice: map<Id, Id>, again: map<Id, Id>, d: Delivery)
    requires Delivers(d, s, n, choice) && s.leader.None?
    requires n + 2 < UINT_MAX && choice != map[] && again.Keys == choice.Keys && DeliversWithin(d, choice.Keys)
    ensures ServeAll(s, Schedule(n, choice, again, d)) == ClientOf(Reelected(s, n, choice, again, d))
  {
    hide Delivers, Winner, ElectionVotes, Elected, ElectNew, LastRound, ServeAll;
    FirstAsksAgain(s, n, choice, d);
    var first, votes := Elected(s, n, choice, d.first, d.next), ElectionVotes(n, choice, d.first, d.next);
    ServeElection(s, n, choice, d.first, d.next);
    if Winner(choice) in choice {
      assert votes + [] == votes;
    } else {
      LastRoundIs(n, choice);
      var m, t := LastRound(n, choice) + 1, ElectNew(first.client).0;
      var more := ElectionVotes(m, again, d.retry, d.last);
      ServeElection(t, m, again, d.retry, d.last);
      ServeElect(first.client);
      ServeAllConcat(first.client, [Elect], more);
      ServeAllConcat(s, votes, [Elect] + more);
    }
  }

  lemma ServeElect(s: ClientState)
    ensures ServeAll(s, [Elect]) == Some(ElectNew(s).0)
  {
    hide ElectNew;
    assert [Elect][..0] == [];
  }

  lemma FirstAsksAgain(s: ClientState, n: Uint, choice: map<Id, Id>, d: Delivery)
    requires Delivers(d, s, n, choice) && s.leader.None? && n + 1 < UINT_MAX && choice != map[]
    requires DeliversWithin(d, choice.Keys)
    ensures var first := Elected(s, n, choice, d.first, d.next);
      if Winner(choice) in choice then !first.Returned? || first.elections == 0 else first.Returned? && first.elections == 1
  {
    hide Entering, Winner, Elected, Settled;
    AsksAgainExactly(s, n, choice, d.first, d.next);
  }

  // ----- In every run -----

  /** Each client is where the run has it at its own start, at or before state b. */
  ghost predicate StartAt(states: seq<System>, starts: map<Id, nat>, b: nat, clients: map<Id, ClientState>) {
    forall i :: i in clients ==>
      && i in starts && starts[i] <= b < |states|
      && i in states[starts[i]].nodes && states[starts[i]].nodes[i] == Live(clients[i])
  }

  /** What client i serves from its start to state b. */
  function ServedFrom(i: Id, who: seq<Id>, reqs: seq<Request>, starts: map<Id, nat>, b: nat): seq<Request>
    requires i in starts && starts[i] <= b <= |who| == |reqs|
  {
    ServedBy(i, who[starts[i]..b], reqs[starts[i]..b])
  }

  /** Client i, which was s, has settled on w; if it led and did not win, it has panicked. */
  predicate EndsAs(sys: System, i: Id, s: ClientState, w: Id) {
    && i in sys.nodes
    && if Deposed(s, w) then sys.nodes[i].Dead?
       else sys.nodes[i].Live? && sys.nodes[i].client.id == i && Settled(sys.nodes[i].client, w)
  }

  lemma EndsInRun(states: seq<System>, who: seq<Id>, reqs: seq<Request>, a: nat, b: nat, i: Id, s: ClientState,
                  served: seq<Request>, out: Outcome, w: Id)
    requires Run(states, who, reqs) && a <= b <= |who| == |reqs| && a < |states|
    requires i in states[a].nodes && states[a].nodes[i] == Live(s) && s.id == i
    requires Core(s, ServedBy(i, who[a..b], reqs[a..b])) == served
    requires ServeAll(s, served) == ClientOf(out) && Ended(s, w, out)
    ensures b < |states| && EndsAs(states[b], i, s, w)
  {
    hide Run, ServedBy, ServeAll, Settled, Core;
    PartOfRun(states, who, reqs, a, b);
    ServeCore(s, ServedBy(i, who[a..b], reqs[a..b]));
    RunProjects(states[a..b + 1], who[a..b], reqs[a..b], i, s);
  }

  lemma PartOfRun(states: seq<System>, who: seq<Id>, reqs: seq<Request>, a: nat, b: nat)
    requires Run(states, who, reqs) && a <= b <= |who|
    ensures |states| == |who| + 1 == |reqs| + 1 && Steps(states[a..b + 1], who[a..b], reqs[a..b])
  {
    hide Step, Init;
    forall k | 0 <= k < b - a
      ensures Step(states[a..b + 1][k], who[a..b][k], reqs[a..b][k], states[a..b + 1][k + 1])
    {
      assert Step(states[a + k], who[a + k], reqs[a + k], states[a + k + 1]);
    }
  }

  lemma RunLength(states: seq<System>, who: seq<Id>, reqs: seq<Request>)
    requires Run(states, who, reqs)
    ensures |states| == |who| + 1 == |reqs| + 1
  {
  }

  /**
    * Client i takes part in round n, has voted or will when the first vote reaches it, and
    * serves the votes of this round before those of the next, and any number of stale ones.
    */
  ghost predicate TakesPart(i: Id, s: ClientState, served: seq<Request>, n: Uint,
                            choice: map<Id, Id>, order: seq<Id>, nextOrder: seq<Id>) {
    && s.id == i && Entering(s, n, choice, order) && Orders(nextOrder, s.Known())
    && choice != map[] && n < UINT_MAX && (forall p :: p in order + nextOrder ==> p in choice)
    && Core(s, served) == ElectionVotes(n, choice, order, nextOrder)
  }

  /**
    * In every run: let the clients of an electorate take part in round n, each from a start of
    * its own, the winner be one of them, and each serve the votes of one round before those
    * of the next, in any order within a round, with stale votes of earlier rounds in between,
    * and interleaved with the others in any way. Then
    * in the end the winner leads and all others follow it. If a member leads already, it is
    * elected again if it wins, and panics if another does.
    */
  lemma WinnerLeadsInEveryRun(
      states: seq<System>, who: seq<Id>, reqs: seq<Request>, starts: map<Id, nat>, b: nat, clients: map<Id, ClientState>,
      n: Uint, choice: map<Id, Id>, orders: map<Id, seq<Id>>, nextOrders: map<Id, seq<Id>>)
    requires Run(states, who, reqs) && b <= |who| == |reqs| && StartAt(states, starts, b, clients)
    requires n + 1 < UINT_MAX && choice != map[] && Winner(choice) in choice
    requires clients.Keys == orders.Keys == nextOrders.Keys == choice.Keys
    requires forall i :: i in clients ==>
      TakesPart(i, clients[i], ServedFrom(i, who, reqs, starts, b), n, choice, orders[i], nextOrders[i])
    ensures b < |states| && Winner(choice) in clients
    ensures forall i :: i in clients ==> EndsAs(states[b], i, clients[i], Winner(choice))
  {
    hide Run, TakesPart, ServedFrom, Winner, EndsAs;
    RunLength(states, who, reqs);
    forall i | i in clients
      ensures EndsAs(states[b], i, clients[i], Winner(choice))
    {
      WinnerInRun(states, who, reqs, starts, b, i, clients[i], n, choice, orders[i], nextOrders[i]);
    }
  }

  lemma WinnerInRun(states: seq<System>, who: seq<Id>, reqs: seq<Request>, starts: map<Id, nat>, b: nat, i: Id, s: ClientState,
                    n: Uint, choice: map<Id, Id>, order: seq<Id>, nextOrder: seq<Id>)
    requires Run(states, who, reqs) && i in starts && starts[i] <= b <= |who| == |reqs| && b < |states|
    requires i in states[starts[i]].nodes && states[starts[i]].nodes[i] == Live(s)
    requires n + 1 < UINT_MAX && choice != map[] && Winner(choice) in choice
    requires TakesPart(i, s, ServedFrom(i, who, reqs, starts, b), n, choice, order, nextOrder)
    ensures EndsAs(states[b], i, s, Winner(choice))
  {
    hide Run, Entering, Orders, Winner, ServedBy, ElectionVotes, Elected, Ended, ServeAll, EndsAs, Core;
    ConvergesToEnded(s, n, choice, order, nextOrder);
    ServeElection(s, n, choice, order, nextOrder);
    EndsInRun(states, who, reqs, starts[i], b, i, s, ElectionVotes(n, choice, order, nextOrder),
              Elected(s, n, choice, order, nextOrder), Winner(choice));
  }

  /** Each client serves the votes of one round before those of the next, and any number of stale ones. */
  ghost predicate RoundByRound(who: seq<Id>, reqs: seq<Request>, starts: map<Id, nat>, b: nat, clients: map<Id, ClientState>,
                               n: Uint, choice: map<Id, Id>, again: map<Id, Id>, deliveries: map<Id, Delivery>)
    requires b <= |who| == |reqs|
  {
    && n + 2 < UINT_MAX && choice != map[] && again.Keys == choice.Keys == deliveries.Keys
    && forall i :: i in choice ==>
      && i in starts && starts[i] <= b && i in clients && DeliversWithin(deliveries[i], choice.Keys)
      && Core(clients[i], ServedFrom(i, who, reqs, starts, b)) == Schedule(n, choice, again, deliveries[i])
  }

  /**
    * In every run: let the clients of an electorate, none with a leader, take part in round n
    * with votes for anybody, each from a start of its own, and each serve the votes round by
    * round, in any order within a round, with stale votes in between and interleaved with the
    * others in any way, and the election that it asks for if somebody wins who is not there. Then in the end one of them
    * leads and all others follow it.
    */
  lemma OneLeadsInEveryRun(
      states: seq<System>, who: seq<Id>, reqs: seq<Request>, starts: map<Id, nat>, b: nat, clients: map<Id, ClientState>,
      n: Uint, choice: map<Id, Id>, again: map<Id, Id>, deliveries: map<Id, Delivery>)
    requires Run(states, who, reqs) && b <= |who| == |reqs| && StartAt(states, starts, b, clients)
    requires n + 3 < UINT_MAX && Leaderless(clients, n, choice, deliveries) && Anew(clients, again)
    requires RoundByRound(who, reqs, starts, b, clients, n, choice, again, deliveries)
    ensures again.Keys == choice.Keys && choice != map[] && FinalWinner(choice, again) in clients
    ensures b < |states| && forall i :: i in clients ==> EndsAs(states[b], i, clients[i], FinalWinner(choice, again))
  {
    hide *;
    RunLength(states, who, reqs);
    MembersOfRounds(who, reqs, starts, b, clients, n, choice, again, deliveries);
    SameMembers(clients, n, choice, again, deliveries);
    OneRemainingLeads(clients, n, choice, again, deliveries);
    forall i | i in clients
      ensures EndsAs(states[b], i, clients[i], FinalWinner(choice, again))
    {
      OneInRun(states, who, reqs, starts, b, clients, i, n, choice, again, deliveries, FinalWinner(choice, again));
    }
  }

  lemma MembersOfRounds(who: seq<Id>, reqs: seq<Request>, starts: map<Id, nat>, b: nat, clients: map<Id, ClientState>, n: Uint,
                        choice: map<Id, Id>, again: map<Id, Id>, deliveries: map<Id, Delivery>)
    requires b <= |who| == |reqs| && RoundByRound(who, reqs, starts, b, clients, n, choice, again, deliveries)
    ensures choice != map[] && again.Keys == choice.Keys == deliveries.Keys
  {
  }

  lemma OneInRun(states: seq<System>, who: seq<Id>, reqs: seq<Request>, starts: map<Id, nat>, b: nat,
                 clients: map<Id, ClientState>, i: Id, n: Uint,
                 choice: map<Id, Id>, again: map<Id, Id>, deliveries: map<Id, Delivery>, w: Id)
    requires Run(states, who, reqs) && b <= |who| == |reqs| && StartAt(states, starts, b, clients)
    requires Leaderless(clients, n, choice, deliveries) && i in clients && i in deliveries
    requires RoundByRound(who, reqs, starts, b, clients, n, choice, again, deliveries)
    requires EndsUnder(clients[i], n, choice, again, deliveries[i], w)
    ensures b < |states| && EndsAs(states[b], i, clients[i], w)
  {
    hide Run, Delivers, DeliversWithin, Reelected, Schedule, ServedBy, ServeAll, Ended, EndsAs, Core;
    var s, d := clients[i], deliveries[i];
    ServeSchedule(s, n, choice, again, d);
    EndsInRun(states, who, reqs, starts[i], b, i, s, Schedule(n, choice, again, d), Reelected(s, n, choice, again, d), w);
  }
}
