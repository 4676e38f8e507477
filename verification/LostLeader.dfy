/**
  * A lost leader. When its heartbeat times out, the event loop asks for the leader to be
  * cleared and for an election, on two channels: the actor may serve them in either order. So
  * the lost leader may win the election, which then concludes nothing; the clients ask for
  * another one, and that one makes one of them leader.
  */
module LostLeader {
  import opened Wrappers
  import opened Members
  import opened Election
  import opened Roster
  import opened Convergence

  /** SetLeader(nil) first: the client votes for a member that is still there. */
  lemma ClearedThenElects(s: ClientState)
    requires Shape(s) && s.leader.Some? && s.peers != map[]
    ensures var t := SetLeader(s, None).value;
      && ElectNew(t).1 == [LeaderVote(s.next, Choice(t), s.id)]
      && Choice(t) in {s.id} + s.peers.Keys && Choice(t) != s.leader.value.id
  {
    assert SetLeader(s, None).value.Candidates() == {s.id} + s.peers.Keys;
  }

  /** The election first: the client casts its vote in the same round for the lost leader. */
  lemma ElectsThenClears(s: ClientState)
    requires Shape(s) && s.leader.Some?
    ensures var (t, cast) := ElectNew(s);
      && cast == [LeaderVote(s.next, s.leader.value.id, s.id)]
      && SetLeader(t, None).Some? && SetLeader(t, None).value.round.Some?
      && SetLeader(t, None).value.round.value.mine == s.leader.value.id
  {
  }

  /**
    * A round in which everybody votes for somebody who is not there concludes nothing: the
    * last vote has the client ask, once, for another election.
    */
  lemma AlikeForTheLost(s: ClientState, n: Uint, choice: map<Id, Id>, order: seq<Id>)
    requires Entering(s, n, choice, order) && s.leader.None?
    requires AllAlike(choice) && s.id in choice && choice[s.id] !in choice
    ensures forall p :: p in order ==> p in choice
    ensures n < UINT_MAX
    ensures AcceptAll(s, Ballots(n, choice, order))
         == Returned(WithVotes(Entered(s, n, choice), choice - {s.id}), EntryCast(s, n, choice), None, 1)
  {
    hide Tally, Leading, AcceptAll, Orders, Accept, Choice, EntryCast;
    Entrants(s, n, choice, order);
    Closing(s, n, choice, order);
    SameTally(choice, s.id);
    assert (choice - {s.id}).Keys == choice.Keys - {s.id};
    assert choice[s.id] !in {s.id} + s.peers.Keys;
    assert EntryCast(s, n, choice) + [] == EntryCast(s, n, choice);
    var u := Entered(s, n, choice);
    assert |choice - {s.id}| == WithVotes(u, choice - {s.id}).PeerCount() by {
      assert |choice - {s.id}| == |(choice - {s.id}).Keys|;
      assert u.Known() == s.Known();
      CountKnown(u);
    }
  }

  /** The client is in round n with a vote for w and otherwise as it was, and has asked for another election. */
  predicate AsksAgain(s: ClientState, n: Uint, w: Id, out: Outcome)
    requires n < UINT_MAX
  {
    && out.Returned? && out.concluded.None? && out.elections == 1
    && out.client == s.(round := out.client.round, next := n + 1)
    && out.client.round.Some? && out.client.round.value.n == n && out.client.round.value.mine == w
  }

  /** The round in which all vote alike. */
  ghost function LastRound(n: Uint, choice: map<Id, Id>): Uint
    requires n < UINT_MAX
  {
    if AllAlike(choice) then n else n + 1
  }

  /**
    * Clients that have lost their leader, some of whom voted for it before they cleared it.
    * If it wins, all vote for it in the next round; that round concludes nothing, and every
    * client asks for one more election.
    */
  lemma LostLeaderConcludesNothing(s: ClientState, n: Uint, choice: map<Id, Id>, order: seq<Id>, nextOrder: seq<Id>)
    requires Entering(s, n, choice, order) && n + 1 < UINT_MAX && s.leader.None? && choice != map[] && Winner(choice) !in choice
    requires Orders(nextOrder, s.Known())
    ensures s.id in choice && forall p :: p in order + nextOrder ==> p in choice
    ensures var w, first := Winner(choice), AcceptAll(s, Ballots(n, choice, order));
      && (!AllAlike(choice) ==> first.Returned? && first.cast == EntryCast(s, n, choice) + [LeaderVote(n + 1, w, s.id)])
      && AsksAgain(s, LastRound(n, choice), w, Elected(s, n, choice, order, nextOrder))
  {
    hide AcceptAll, Shape, Orders, EntryCast, Entering, Winner;
    Entrants(s, n, choice, order);
    NextElectors(s, n, choice, order, nextOrder);
    var w := Winner(choice);
    if AllAlike(choice) {
      WinnerOfAlike(choice, s.id);
      AlikeForTheLost(s, n, choice, order);
    } else {
      SplitVotesAgain(s, n, choice, order);
      var first := AcceptAll(s, Ballots(n, choice, order));
      assert first.client.Known() == s.Known();
      VotingEnters(first.client, n + 1, Everybody(choice, w), nextOrder);
      AlikeForTheLost(first.client, n + 1, Everybody(choice, w), nextOrder);
    }
  }

  /** Without a leader, these rounds end the election, or ask for another one, according to who wins. */
  lemma AsksAgainExactly(s: ClientState, n: Uint, choice: map<Id, Id>, order: seq<Id>, nextOrder: seq<Id>)
    requires Entering(s, n, choice, order) && n + 1 < UINT_MAX && s.leader.None? && choice != map[]
    requires Orders(nextOrder, s.Known())
    ensures forall p :: p in order + nextOrder ==> p in choice
    ensures var out := Elected(s, n, choice, order, nextOrder);
      if Winner(choice) in choice then Ended(s, Winner(choice), out)
      else out.Returned? && out.concluded.None? && out.elections == 1
  {
    hide Elected, Entering, Orders, Winner, Ended;
    if Winner(choice) in choice {
      ConvergesToEnded(s, n, choice, order, nextOrder);
    } else {
      LostLeaderConcludesNothing(s, n, choice, order, nextOrder);
    }
  }

  // ----- The election that was asked for -----

  /** What the clients vote for when they start the election that they asked for. */
  ghost predicate Anew(clients: map<Id, ClientState>, again: map<Id, Id>) {
    again.Keys == clients.Keys && forall i :: i in clients ==> again[i] == Choice(clients[i])
  }

  /** The client starts it in the round after, with a vote for a member that is still there. */
  lemma StartsAgain(s: ClientState, choice: map<Id, Id>, again: map<Id, Id>, m: Uint, w: Id, out: Outcome)
    requires Member(s, choice) && s.leader.None? && s.peers != map[] && m + 1 < UINT_MAX && AsksAgain(s, m, w, out)
    requires again.Keys == choice.Keys && again[s.id] == Choice(s)
    ensures var (t, cast) := ElectNew(out.client);
      && Voting(t, m + 1, again) && t.Known() == s.Known() && t.id == s.id && t.isLeader == s.isLeader
      && cast == [LeaderVote(m + 1, again[s.id], s.id)] && again[s.id] in choice
  {
    hide ElectNew, Choice;
    var u := out.client;
    assert u.Candidates() == s.Candidates() && u.Directors() == s.Directors();
    SameChoice(u, s);
    assert u.Known() == s.Known();
    ElectionStarts(u, again);
    StartKeepsMembers(u);
  }

  lemma StartKeepsMembers(s: ClientState)
    requires s.peers != map[]
    ensures var t := ElectNew(s).0; t.Known() == s.Known() && t.id == s.id && t.isLeader == s.isLeader
  {
    hide Choice;
  }

  /** The orders in which a client receives the votes of an election and of the one that it may ask for. */
  datatype Delivery = Delivery(first: seq<Id>, next: seq<Id>, retry: seq<Id>, last: seq<Id>)

  /** What the client still has to hear of round n, and the votes of everybody else in each of the other rounds. */
  ghost predicate Delivers(d: Delivery, s: ClientState, n: Uint, choice: map<Id, Id>) {
    && Entering(s, n, choice, d.first)
    && Orders(d.next, s.Known()) && Orders(d.retry, s.Known()) && Orders(d.last, s.Known())
  }

  predicate DeliversWithin(d: Delivery, ids: set<Id>) {
    forall p :: p in d.first + d.next + d.retry + d.last ==> p in ids
  }

  /** What becomes of a client in both. */
  ghost function Reelected(s: ClientState, n: Uint, choice: map<Id, Id>, again: map<Id, Id>, d: Delivery): Outcome
    requires n + 2 < UINT_MAX && choice != map[] && again.Keys == choice.Keys && DeliversWithin(d, choice.Keys)
  {
    var first := Elected(s, n, choice, d.first, d.next);
    if !first.Returned? || first.elections == 0 then first
    else Elected(ElectNew(first.client).0, LastRound(n, choice) + 1, again, d.retry, d.last)
  }

  /** Who leads in the end. */
  ghost function FinalWinner(choice: map<Id, Id>, again: map<Id, Id>): Id
    requires choice != map[] && again.Keys == choice.Keys
  {
    if Winner(choice) in choice then Winner(choice) else Winner(again)
  }

  lemma DeliveredWithin(s: ClientState, n: Uint, choice: map<Id, Id>, d: Delivery)
    requires Delivers(d, s, n, choice)
    ensures DeliversWithin(d, choice.Keys) && Member(s, choice) && (s.leader.None? ==> s.peers != map[])
  {
    hide Shape, Orders, Choice;
    Entrants(s, n, choice, d.first);
    NextElectors(s, n, choice, d.first, d.next);
    NextElectors(s, n, choice, d.first, d.retry);
    NextElectors(s, n, choice, d.first, d.last);
  }

  /** The election that the client asked for ends. */
  lemma SecondElectionEnds(s: ClientState, n: Uint, choice: map<Id, Id>, again: map<Id, Id>, d: Delivery)
    requires Delivers(d, s, n, choice) && n + 3 < UINT_MAX && s.leader.None?
    requires choice != map[] && Winner(choice) !in choice
    requires again.Keys == choice.Keys && s.id in choice && again[s.id] == Choice(s) && Winner(again) in again
    ensures DeliversWithin(d, choice.Keys)
    ensures Ended(s, Winner(again), Reelected(s, n, choice, again, d))
  {
    hide AcceptAll, Voting, Entering, Orders, Winner, ElectNew, Choice, Elected, LastRound, Settled, Member;
    DeliveredWithin(s, n, choice, d);
    LostLeaderConcludesNothing(s, n, choice, d.first, d.next);
    LastRoundIs(n, choice);
    var first, m := Elected(s, n, choice, d.first, d.next), LastRound(n, choice);
    StartsAgain(s, choice, again, m, Winner(choice), first);
    NextElectors(s, n, choice, d.first, d.retry);
    var t := ElectNew(first.client).0;
    VotingEnters(t, m + 1, again, d.retry);
    ConvergesToEnded(t, m + 1, again, d.retry, d.last);
  }

  lemma LastRoundIs(n: Uint, choice: map<Id, Id>)
    requires n < UINT_MAX
    ensures LastRound(n, choice) <= n + 1
  {
  }

  /** One client: whoever wins the first election, it ends up with a leader that is there. */
  lemma ReelectionConverges(s: ClientState, n: Uint, choice: map<Id, Id>, again: map<Id, Id>, d: Delivery)
    requires Delivers(d, s, n, choice) && n + 3 < UINT_MAX && s.leader.None? && choice != map[] && s.id in choice
    requires again.Keys == choice.Keys && again[s.id] == Choice(s) && forall p :: p in again ==> again[p] in again
    ensures FinalWinner(choice, again) in choice && DeliversWithin(d, choice.Keys)
    ensures Ended(s, FinalWinner(choice, again), Reelected(s, n, choice, again, d))
  {
    hide AcceptAll, Voting, Entering, Orders, Winner, ElectNew, Choice, Elected, LastRound, Settled;
    DeliveredWithin(s, n, choice, d);
    if Winner(choice) in choice {
      ConvergesToEnded(s, n, choice, d.first, d.next);
    } else {
      assert Winner(again) in again by {
        var p :| p in again && again[p] == Winner(again);
      }
      SecondElectionEnds(s, n, choice, again, d);
    }
  }

  /**
    * All clients are without a leader, and take part in round n with a vote for anybody: some
    * have voted and heard others, some will vote when the first vote reaches them.
    */
  ghost predicate Leaderless(clients: map<Id, ClientState>, n: Uint, choice: map<Id, Id>, deliveries: map<Id, Delivery>) {
    && clients.Keys == choice.Keys == deliveries.Keys
    && forall i :: i in clients ==>
      clients[i].id == i && clients[i].leader.None? && Delivers(deliveries[i], clients[i], n, choice)
  }

  ghost predicate EndsUnder(s: ClientState, n: Uint, choice: map<Id, Id>, again: map<Id, Id>, d: Delivery, w: Id) {
    && n + 2 < UINT_MAX && choice != map[] && again.Keys == choice.Keys && DeliversWithin(d, choice.Keys)
    && Ended(s, w, Reelected(s, n, choice, again, d))
  }

  /**
    * Of any two or more clients without a leader, whatever each votes for, one of them ends up
    * leader and all others follow it: after at most two rounds if a client wins them, and
    * after at most four if the lost leader does. Only a client that led all along, and did not
    * win, panics.
    */
  lemma OneRemainingLeads(
      clients: map<Id, ClientState>, n: Uint, choice: map<Id, Id>, again: map<Id, Id>, deliveries: map<Id, Delivery>)
    requires n + 3 < UINT_MAX && choice != map[] && Leaderless(clients, n, choice, deliveries) && Anew(clients, again)
    ensures deliveries.Keys == clients.Keys && FinalWinner(choice, again) in clients
    ensures forall i :: i in clients ==> EndsUnder(clients[i], n, choice, again, deliveries[i], FinalWinner(choice, again))
  {
    hide *;
    SameMembers(clients, n, choice, again, deliveries);
    var j :| j in choice;
    forall p | p in again
      ensures again[p] in again
    {
      ChoosesAMember(clients, n, choice, again, deliveries, p);
    }
    forall i | i in clients
      ensures FinalWinner(choice, again) in clients
      ensures EndsUnder(clients[i], n, choice, again, deliveries[i], FinalWinner(choice, again))
    {
      OneClientEnds(clients, n, choice, again, deliveries, i);
    }
    assert j in clients;
  }

  lemma SameMembers(clients: map<Id, ClientState>, n: Uint, choice: map<Id, Id>, again: map<Id, Id>, deliveries: map<Id, Delivery>)
    requires Leaderless(clients, n, choice, deliveries) && Anew(clients, again)
    ensures clients.Keys == choice.Keys == again.Keys == deliveries.Keys
  {
  }

  lemma OneClientEnds(
      clients: map<Id, ClientState>, n: Uint, choice: map<Id, Id>, again: map<Id, Id>, deliveries: map<Id, Delivery>, i: Id)
    requires n + 3 < UINT_MAX && choice != map[] && Leaderless(clients, n, choice, deliveries) && Anew(clients, again)
    requires i in clients && forall p :: p in again ==> again[p] in again
    ensures again.Keys == choice.Keys && i in deliveries && FinalWinner(choice, again) in clients
    ensures EndsUnder(clients[i], n, choice, again, deliveries[i], FinalWinner(choice, again))
  {
    hide Delivers, DeliversWithin, Ended, Reelected, FinalWinner, Choice;
    ReelectionConverges(clients[i], n, choice, again, deliveries[i]);
  }

  lemma ChoosesAMember(
      clients: map<Id, ClientState>, n: Uint, choice: map<Id, Id>, again: map<Id, Id>, deliveries: map<Id, Delivery>, i: Id)
    requires Leaderless(clients, n, choice, deliveries) && Anew(clients, again) && i in again
    ensures again[i] in again
  {
    hide Delivers, Choice, Member;
    DeliveredWithin(clients[i], n, choice, deliveries[i]);
    MemberChoosesMember(clients[i], choice);
  }

  lemma MemberChoosesMember(s: ClientState, choice: map<Id, Id>)
    requires Member(s, choice) && s.leader.None?
    ensures Choice(s) in choice
  {
    hide Shape;
    assert s.Candidates() == {s.id} + s.Known();
  }
}
