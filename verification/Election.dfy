/**
  * WeTube's leader election as one client runs it: what each request to the client's
  * actor does to its state, which votes it casts and which rounds it concludes.
  */
module Election {
  import opened Wrappers
  import opened Members

  datatype LeaderVote = LeaderVote(n: Uint, vote: Id, sender: Id)

  datatype VoteRound = VoteRound(n: Uint, mine: Id, votes: map<Id, Id>)

  datatype ClientState = ClientState(
    id: Id,
    name: string,
    rank: Rank,
    isLeader: bool,
    leader: Option<Entry>,
    peers: map<Id, Entry>,
    round: Option<VoteRound>,
    next: Uint)
  {
    /** Everyone this client would broadcast to. */
    function Known(): set<Id> {
      peers.Keys + if leader.Some? then {leader.value.id} else {}
    }

    function PeerCount(): nat {
      |peers| + if leader.Some? then 1 else 0
    }

    /** The candidates that elections look at when there is no leader. */
    function Candidates(): set<Id> {
      {id} + peers.Keys
    }

    function Directors(): set<Id> {
      (if rank == Director then {id} else {}) + set p | p in peers && peers[p].rank == Director
    }
  }

  /** A vote round that ended with one single choice. */
  datatype Conclusion = Conclusion(who: Id, n: Uint, choice: Id, voters: set<Id>, known: set<Id>)

  /** What serving a request does; elections is how often it asks the client's actor for another election. */
  datatype Outcome =
    | Returned(client: ClientState, cast: seq<LeaderVote>, concluded: Option<Conclusion>, elections: nat := 0)
    | Panicked
    | Running

  // ----- Changes of leader -----

  function BecomeLeader(s: ClientState): ClientState {
    s.(rank := Director, isLeader := true, leader := if s.isLeader then s.leader else None)
  }

  /** The new state, or nothing when the client panics. */
  function SetLeader(s: ClientState, leader: Option<Entry>): Option<ClientState> {
    if leader.None? then Some(s.(leader := None))
    else if s.isLeader then
      if leader.value.id == s.id then Some(s) else None
    else
      var id := leader.value.id;
      Some(s.(leader := if id in s.peers then Some(s.peers[id]) else leader, peers := s.peers - {id}))
  }

  // ----- Casting a vote -----

  /**
    * What electNewLeader votes for. Its minimum starts at the least int32 unless the client
    * is a Director, so without a leader a client that is not a Director never settles on a
    * Director peer.
    */
  ghost function Choice(s: ClientState): (choice: Id)
    ensures s.leader.None? ==> choice in s.Candidates()
  {
    if s.leader.Some? then s.leader.value.id
    else if s.rank == Director then Least(s.Directors())
    else Least(s.Candidates())
  }

  function ElectSpecific(s: ClientState, vote: Id): (r: (ClientState, seq<LeaderVote>)) {
    if s.leader.None? && s.peers == map[] && vote == s.id then (BecomeLeader(s), [])
    else
      (s.(round := Some(VoteRound(s.next, vote, map[])), next := if s.next == UINT_MAX then 0 else s.next + 1),
       [LeaderVote(s.next, vote, s.id)])
  }

  ghost function ElectNew(s: ClientState): (ClientState, seq<LeaderVote>) {
    ElectSpecific(s, Choice(s))
  }

  // ----- Tallying votes -----

  function Supporters(votes: map<Id, Id>, v: Id): set<Id> {
    set p | p in votes && votes[p] == v
  }

  /** How often each ID was voted for, the client's own vote included. */
  ghost function Tally(mine: Id, votes: map<Id, Id>): (tally: map<Id, nat>)
    ensures mine in tally
  {
    map v | v in {mine} + votes.Values :: |Supporters(votes, v)| + if v == mine then 1 else 0
  }

  ghost predicate Unanimous(mine: Id, votes: map<Id, Id>) {
    forall p :: p in votes ==> votes[p] == mine
  }

  // ----- Accepting a vote -----

  /** The end of a round in which everybody voted alike; if it is for nobody that is there, there is to be another election. */
  function Conclude(s: ClientState, r: VoteRound): Outcome {
    var done := Some(Conclusion(s.id, r.n, r.mine, r.votes.Keys, s.Known()));
    if r.mine == s.id then Returned(BecomeLeader(s).(round := None), [], done)
    else if r.mine in s.peers then
      var t := SetLeader(s, Some(s.peers[r.mine]));
      if t.None? then Panicked else Returned(t.value.(round := None), [], done)
    else if s.leader.None? || r.mine != s.leader.value.id then Returned(s, [], None, 1)
    else Returned(s.(round := None), [], done)
  }

  /** Once everybody's vote is in, conclude the round or vote again, with the majority. */
  ghost function Close(s: ClientState, r: VoteRound): Outcome
    requires s.round == Some(r)
  {
    if |r.votes| < s.PeerCount() then Returned(s, [], None)
    else if Unanimous(r.mine, r.votes) then Conclude(s, r)
    else
      var (t, cast) := ElectSpecific(s, Leading(Tally(r.mine, r.votes)));
      Returned(t, cast, None)
  }

  ghost function Record(s: ClientState, vote: LeaderVote): Outcome
    requires s.round.Some?
  {
    var r := s.round.value.(votes := s.round.value.votes[vote.sender := vote.vote]);
    Close(s.(round := Some(r)), r)
  }

  /** The client is behind the vote's round, or in none, and starts one before it looks at the vote. */
  predicate StartsRound(s: ClientState, vote: LeaderVote) {
    s.round.None? || vote.n > s.round.value.n
  }

  function Catching(s: ClientState, vote: LeaderVote): ClientState {
    if s.round.None? then s else s.(next := vote.n)
  }

  /** acceptLeaderVote, as far as it gets within a number of nested calls of itself. */
  ghost function Accept(s: ClientState, vote: LeaderVote, calls: nat): Outcome
    decreases calls
  {
    if StartsRound(s, vote) then
      var (t, cast) := ElectNew(Catching(s, vote));
      if calls == 0 then Running
      else After(cast, Accept(t, vote, calls - 1))
    else if vote.n == s.round.value.n then Record(s, vote)
    else Returned(s, [], None)
  }

  function After(cast: seq<LeaderVote>, out: Outcome): Outcome {
    match out
    case Returned(client, later, concluded, elections) => Returned(client, cast + later, concluded, elections)
    case _ => out
  }

  /** A vote of a round that the client has left behind changes nothing at all. */
  predicate Stale(s: ClientState, vote: LeaderVote) {
    s.round.Some? && vote.n < s.round.value.n
  }

  lemma StaleVoteIsIgnored(s: ClientState, vote: LeaderVote, calls: nat)
    requires s.round.Some? && vote.n < s.round.value.n
    ensures Accept(s, vote, calls) == Returned(s, [], None, 0)
  {
  }

  /** A vote of the current round is recorded, in place of an earlier one of its sender, and nothing else changes before the last. */
  lemma CurrentVoteIsRecorded(s: ClientState, vote: LeaderVote, calls: nat)
    requires s.round.Some? && vote.n == s.round.value.n
    requires |s.round.value.votes[vote.sender := vote.vote]| < |s.peers| + if s.leader.Some? then 1 else 0
    ensures Accept(s, vote, calls)
         == Returned(s.(round := Some(VoteRound(vote.n, s.round.value.mine, s.round.value.votes[vote.sender := vote.vote]))),
                     [], None, 0)
  {
    hide Tally, Leading, Conclude, ElectSpecific;
  }

  // ----- What leadership is -----

  /** Whoever starts to lead is a Director without a leader; otherwise it is as it was. */
  lemma LeaderIsDirector(s: ClientState)
    requires !s.isLeader
    ensures BecomeLeader(s) == s.(rank := Director, isLeader := true, leader := None)
  {
  }

  /** A client follows the leader it is given, known or not, and then knows its peers and that leader. */
  lemma FollowsNewLeader(s: ClientState, e: Entry)
    requires !s.isLeader && forall k :: k in s.peers ==> s.peers[k].id == k
    ensures var t := SetLeader(s, Some(e));
      && t.Some? && t.value.leader == Some(if e.id in s.peers then s.peers[e.id] else e)
      && t.value.leader.value.id == e.id && t.value.Known() == s.peers.Keys + {e.id}
      && t.value == s.(leader := t.value.leader, peers := s.peers - {e.id})
    ensures SetLeader(s, None) == Some(s.(leader := None))
  {
  }

  /** What an election asks for: the next round, with this vote and nothing heard, unless the client is alone. */
  lemma NextRound(s: ClientState, vote: Id)
    requires s.next < UINT_MAX
    ensures ElectSpecific(s, vote)
         == if s.leader.None? && |s.peers| == 0 && vote == s.id then (BecomeLeader(s), [])
            else (s.(round := Some(VoteRound(s.next, vote, map[])), next := s.next + 1), [LeaderVote(s.next, vote, s.id)])
  {
  }

  /** The end of a round in which all chose r.mine: itself, a peer, the leader it has, or nobody that is there. */
  lemma ConclusionExactly(s: ClientState, r: VoteRound)
    requires !s.isLeader
    ensures var out, done := Conclude(s, r), Some(Conclusion(s.id, r.n, r.mine, r.votes.Keys, s.Known()));
      if r.mine == s.id then
        out == Returned(s.(rank := Director, isLeader := true, leader := None, round := None), [], done, 0)
      else if r.mine in s.peers && s.peers[r.mine].id == r.mine then
        out == Returned(s.(leader := Some(s.peers[r.mine]), peers := s.peers - {r.mine}, round := None), [], done, 0)
      else if r.mine !in s.peers && s.leader.Some? && s.leader.value.id == r.mine then
        out == Returned(s.(round := None), [], done, 0)
      else r.mine !in s.peers ==> out == Returned(s, [], None, 1)
  {
  }

  // ----- What electNewLeader chooses -----

  /** The leader if there is one; else the lowest Director for a Director, and the lowest of all for anybody else. */
  lemma ChoiceExactly(s: ClientState)
    ensures s.leader.Some? ==> Choice(s) == s.leader.value.id
    ensures s.leader.None? && s.rank == Director ==>
      && (Choice(s) == s.id || (Choice(s) in s.peers && s.peers[Choice(s)].rank == Director)) && Choice(s) <= s.id
      && forall p :: p in s.peers && s.peers[p].rank == Director ==> Choice(s) <= p
    ensures s.leader.None? && s.rank != Director ==>
      && (Choice(s) == s.id || Choice(s) in s.peers) && Choice(s) <= s.id
      && forall p :: p in s.peers ==> Choice(s) <= p
  {
    if s.leader.None? && s.rank == Director {
      forall p | p in s.peers && s.peers[p].rank == Director
        ensures Choice(s) <= p
      {
        assert p in s.Directors();
      }
      assert s.id in s.Directors();
    }
  }

  /** The rule in the project's documentation: the lowest Director, or the lowest of all without Directors. */
  ghost function DocumentedChoice(s: ClientState): Id {
    if s.Directors() != {} then Least(s.Directors()) else Least(s.Candidates())
  }

  /** Without a leader, the code follows the documented rule exactly in these cases. */
  lemma ChoiceMeetsDocumentation(s: ClientState)
    requires s.leader.None? && forall p :: p in s.peers ==> s.peers[p].id == p
    ensures Choice(s) == DocumentedChoice(s)
      <==> s.rank == Director || s.Directors() == {} || Least(s.Candidates()) in s.Directors()
  {
    if s.Directors() != {} && Least(s.Candidates()) in s.Directors() {
      assert s.Directors() <= s.Candidates();
      assert IsLeast(Least(s.Candidates()), s.Directors());
    }
  }

  /** A viewer and a Director with a higher ID: the viewer passes the Director over. */
  lemma DirectorIsPassedOver()
    ensures exists s: ClientState, d: Id ::
      s.leader.None? && s.rank == Viewer && d in s.peers && s.peers[d].rank == Director && s.Directors() == {d} && Choice(s) != d
  {
    var s := ClientState(1, "", Viewer, false, None, map[2 := Entry(2, "", "", Director)], None, 0);
    assert s.Directors() == {2};
    assert 1 in s.Candidates() && Least(s.Candidates()) <= 1;
  }

  // ----- The tally -----

  ghost function Sum(tally: map<Id, nat>): nat
    decreases |tally.Keys|
  {
    if tally == map[] then 0
    else
      var k :| k in tally;
      assert (tally - {k}).Keys == tally.Keys - {k};
      tally[k] + Sum(tally - {k})
  }

  lemma {:induction false} SumWithout(tally: map<Id, nat>, k: Id)
    requires k in tally
    ensures Sum(tally) == tally[k] + Sum(tally - {k})
    decreases |tally.Keys|
  {
    var j :| j in tally && Sum(tally) == tally[j] + Sum(tally - {j});
    assert (tally - {j}).Keys == tally.Keys - {j};
    assert (tally - {k}).Keys == tally.Keys - {k};
    if j != k {
      SumWithout(tally - {j}, k);
      SumWithout(tally - {k}, j);
      assert tally - {j} - {k} == tally - {k} - {j};
    }
  }

  lemma SumOfIncremented(tally: map<Id, nat>, v: Id)
    ensures Sum(Incremented(tally, v)) == Sum(tally) + 1
  {
    hide Sum;
    var more := Incremented(tally, v);
    SumWithout(more, v);
    assert more - {v} == tally - {v};
    if v in tally {
      SumWithout(tally, v);
    } else {
      assert tally - {v} == tally;
    }
  }

  lemma ValuesWith(votes: map<Id, Id>, p: Id, v: Id)
    requires p !in votes
    ensures votes[p := v].Values == votes.Values + {v}
  {
    var more := votes[p := v];
    assert more[p] == v;
    forall u | u in votes.Values
      ensures u in more.Values
    {
      var q :| q in votes && votes[q] == u;
      assert more[q] == u;
    }
  }

  lemma SupportersWith(votes: map<Id, Id>, p: Id, v: Id, u: Id)
    requires p !in votes
    ensures |Supporters(votes[p := v], u)| == |Supporters(votes, u)| + if u == v then 1 else 0
    ensures u !in votes.Values ==> Supporters(votes, u) == {}
  {
    var more := votes[p := v];
    if u == v {
      assert Supporters(more, u) == Supporters(votes, u) + {p};
    } else {
      assert Supporters(more, u) == Supporters(votes, u);
    }
  }

  function Incremented(tally: map<Id, nat>, v: Id): map<Id, nat> {
    tally[v := if v in tally then tally[v] + 1 else 1]
  }

  /** One more vote adds one to one count. */
  lemma TallyStep(mine: Id, votes: map<Id, Id>, p: Id, v: Id)
    requires p !in votes
    ensures Tally(mine, votes[p := v]) == Incremented(Tally(mine, votes), v)
  {
    hide Supporters;
    var was, now := Tally(mine, votes), Tally(mine, votes[p := v]);
    ValuesWith(votes, p, v);
    assert now.Keys == was.Keys + {v};
    forall u | u in now
      ensures now[u] == Incremented(was, v)[u]
    {
      SupportersWith(votes, p, v, u);
    }
  }

  lemma TallyOfNone(mine: Id)
    ensures Tally(mine, map[]) == map[mine := 1]
  {
    assert Supporters(map[], mine) == {};
  }

  /** Every vote is counted once: the counts add up to one more than the votes received. */
  lemma {:induction false} TallyCountsEveryVote(mine: Id, votes: map<Id, Id>)
    ensures Sum(Tally(mine, votes)) == 1 + |votes|
    decreases |votes.Keys|
  {
    if votes == map[] {
      TallyOfNone(mine);
      SumWithout(map[mine := 1], mine);
      assert map[mine := 1] - {mine} == map[];
    } else {
      hide Tally, Incremented;
      var p :| p in votes;
      var rest := votes - {p};
      assert votes == rest[p := votes[p]] && votes.Keys == rest.Keys + {p};
      TallyCountsEveryVote(mine, rest);
      TallyStep(mine, rest, p, votes[p]);
      SumOfIncremented(Tally(mine, rest), votes[p]);
    }
  }

  /** A tally has one entry exactly when everybody voted alike. */
  lemma OneEntryIsUnanimous(mine: Id, votes: map<Id, Id>)
    ensures |Tally(mine, votes)| == 1 <==> Unanimous(mine, votes)
  {
    var tally := Tally(mine, votes);
    if Unanimous(mine, votes) {
      assert tally.Keys == {mine};
    } else {
      var p :| p in votes && votes[p] != mine;
      assert {mine, votes[p]} <= tally.Keys;
      SubsetCardinality({mine, votes[p]}, tally.Keys);
    }
  }

  lemma {:induction false} SubsetCardinality<T>(a: set<T>, b: set<T>)
    requires a <= b
    ensures |a| <= |b| && (|a| == |b| ==> a == b)
    decreases |a|
  {
    if a != {} {
      var x :| x in a;
      SubsetCardinality(a - {x}, b - {x});
      if |a| == |b| {
        assert a == (a - {x}) + {x} && b == (b - {x}) + {x};
      }
    }
  }

  // ----- Termination -----

  /** The client starts a round, but without anybody to vote it only becomes leader. */
  predicate Stuck(s: ClientState, vote: LeaderVote) {
    StartsRound(s, vote) && s.leader.None? && s.peers == map[]
  }

  /** acceptLeaderVote never returns for a stuck client, which makes itself leader without end. */
  lemma {:induction false} StuckForever(s: ClientState, vote: LeaderVote, calls: nat)
    requires Stuck(s, vote)
    ensures Accept(s, vote, calls).Running?
    decreases calls
  {
    var t := Catching(s, vote);
    assert t.peers.Keys == {};
    OnlyCandidate(t);
    if calls > 0 {
      assert ElectNew(t).0 == BecomeLeader(t);
      StuckForever(BecomeLeader(t), vote, calls - 1);
    }
  }

  lemma OnlyCandidate(s: ClientState)
    requires s.leader.None? && s.peers == map[]
    ensures Choice(s) == s.id
  {
    assert s.peers.Keys == {};
    assert s.Candidates() == {s.id};
    if s.rank == Director {
      assert s.Directors() == {s.id};
    }
  }

  /** The nested calls that acceptLeaderVote makes. */
  function CallsLeft(s: ClientState, vote: LeaderVote): nat {
    if s.round.None? then (if s.next < vote.n then 2 else 1) else if vote.n > s.round.value.n then 1 else 0
  }

  lemma CallsFall(s: ClientState, vote: LeaderVote)
    requires StartsRound(s, vote) && !Stuck(s, vote)
    ensures var t := ElectNew(Catching(s, vote)).0;
      !Stuck(t, vote) && CallsLeft(t, vote) == CallsLeft(s, vote) - 1
  {
  }

  /** Otherwise it returns, or panics, after at most two nested calls, however many are allowed. */
  lemma {:induction false} AcceptReturns(s: ClientState, vote: LeaderVote, calls: nat)
    requires !Stuck(s, vote) && CallsLeft(s, vote) <= calls
    ensures !Accept(s, vote, calls).Running? && Accept(s, vote, calls) == Accept(s, vote, CallsLeft(s, vote))
    decreases calls
  {
    hide ElectNew;
    if StartsRound(s, vote) {
      CallsFall(s, vote);
      var t := ElectNew(Catching(s, vote)).0;
      AcceptReturns(t, vote, calls - 1);
    } else if vote.n == s.round.value.n {
      RecordReturns(s, vote);
    }
  }

  lemma RecordReturns(s: ClientState, vote: LeaderVote)
    requires s.round.Some?
    ensures !Record(s, vote).Running?
  {
  }

  /** acceptLeaderVote returns exactly for the clients that are not stuck. */
  lemma AcceptTerminatesExactly(s: ClientState, vote: LeaderVote)
    ensures (exists calls: nat :: !Accept(s, vote, calls).Running?) <==> !Stuck(s, vote)
    ensures !Stuck(s, vote) ==> !Accept(s, vote, 2).Running?
  {
    if Stuck(s, vote) {
      forall calls: nat
        ensures Accept(s, vote, calls).Running?
      {
        StuckForever(s, vote, calls);
      }
    } else {
      AcceptReturns(s, vote, 2);
    }
  }
}
