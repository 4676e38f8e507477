/** What every run of a WeTube client keeps: whom it lists, and that a leader stays one. */
module ActorInvariant {
  import opened Wrappers
  import opened Members
  import opened Election
  import opened Roster
  import opened Agreement

  /**
    * What the event loop promises about its requests: only a leader adds peers, and no other
    * member has the client's own ID.
    */
  predicate Sound(s: ClientState, req: Request) {
    && (req.Add? ==> s.isLeader && req.peer.id != s.id)
    && (req.Follow? && req.leader.Some? ==> req.leader.value.id != s.id)
  }

  ghost predicate KeepsShape(s: ClientState, out: Outcome) {
    out.Returned? ==> Shape(out.client) && out.client.id == s.id && (s.isLeader ==> out.client.isLeader)
  }

  lemma SetLeaderKeepsShape(s: ClientState, leader: Option<Entry>)
    requires Shape(s) && (leader.Some? ==> leader.value.id != s.id) && SetLeader(s, leader).Some?
    ensures var t := SetLeader(s, leader).value; Shape(t) && t.id == s.id && t.isLeader == s.isLeader
  {
  }

  lemma BecomeLeaderKeepsShape(s: ClientState)
    requires Shape(s)
    ensures Shape(BecomeLeader(s))
  {
  }

  lemma ElectKeepsShape(s: ClientState, vote: Id)
    requires Shape(s)
    ensures var t := ElectSpecific(s, vote).0; Shape(t) && t.id == s.id && (s.isLeader ==> t.isLeader)
  {
    BecomeLeaderKeepsShape(s);
  }

  lemma ConcludeKeepsShape(s: ClientState, r: VoteRound)
    requires Shape(s)
    ensures KeepsShape(s, Conclude(s, r))
  {
    BecomeLeaderKeepsShape(s);
    if r.mine in s.peers && SetLeader(s, Some(s.peers[r.mine])).Some? {
      SetLeaderKeepsShape(s, Some(s.peers[r.mine]));
    }
  }

  lemma {:induction false} AcceptKeepsShape(s: ClientState, vote: LeaderVote, calls: nat)
    requires Shape(s)
    ensures KeepsShape(s, Accept(s, vote, calls))
    decreases calls
  {
    hide Choice, Tally, Leading, Unanimous, ElectSpecific, Conclude;
    if StartsRound(s, vote) {
      var u := Catching(s, vote);
      ElectKeepsShape(u, Choice(u));
      if calls > 0 {
        AcceptKeepsShape(ElectNew(u).0, vote, calls - 1);
      }
    } else if vote.n == s.round.value.n {
      var r := s.round.value.(votes := s.round.value.votes[vote.sender := vote.vote]);
      var t := s.(round := Some(r));
      ConcludeKeepsShape(t, r);
      if !Unanimous(r.mine, r.votes) {
        ElectKeepsShape(t, Leading(Tally(r.mine, r.votes)));
      }
    }
  }

  lemma ServeKeepsShape(s: ClientState, req: Request)
    requires Shape(s) && req.WellFormed() && Sound(s, req)
    ensures KeepsShape(s, Serve(s, req))
  {
    hide Accept, Choice, ElectSpecific, Merge;
    match req
    case Lead => BecomeLeaderKeepsShape(s);
    case Follow(leader) =>
      if SetLeader(s, leader).Some? {
        SetLeaderKeepsShape(s, leader);
      }
    case Adopt(roster, dials) => MergeKeepsShape(s, map[], roster, dials);
    case Vote(vote) => AcceptKeepsShape(s, vote, 2);
    case Elect => ElectKeepsShape(s, Choice(s));
    case _ =>
  }

  predicate SoundAt(sys: System, i: Id, req: Request) {
    i in sys.nodes && sys.nodes[i].Live? ==> Sound(sys.nodes[i].client, req)
  }

  /** Every request in a run was sound when it was served. */
  ghost predicate SoundRun(states: seq<System>, who: seq<Id>, reqs: seq<Request>) {
    Run(states, who, reqs) && forall k :: 0 <= k < |who| ==> SoundAt(states[k], who[k], reqs[k])
  }

  ghost predicate Shaped(sys: System, i: Id) {
    i in sys.nodes && sys.nodes[i].Live? ==> Shape(sys.nodes[i].client) && sys.nodes[i].client.id == i
  }

  lemma StepKeepsShape(sys: System, who: Id, req: Request, next: System, i: Id)
    requires Step(sys, who, req, next) && Shaped(sys, i) && SoundAt(sys, who, req)
    ensures Shaped(next, i)
    ensures i in next.nodes && next.nodes[i].Live? ==>
      && i in sys.nodes && sys.nodes[i].Live?
      && (sys.nodes[i].client.isLeader ==> next.nodes[i].client.isLeader)
  {
    hide Serve;
    if i == who {
      ServeKeepsShape(sys.nodes[i].client, req);
    }
  }

  /**
    * In every run, at every client: a leader has no leader, peers are filed under their IDs,
    * the leader is not also a peer, and nobody has the client's own ID.
    */
  lemma {:induction false} RunKeepsShape(states: seq<System>, who: seq<Id>, reqs: seq<Request>, k: nat, i: Id)
    requires SoundRun(states, who, reqs) && k < |states|
    ensures Shaped(states[k], i)
    decreases k
  {
    hide Step, Shape, SoundAt;
    if k == 0 {
      FreshHasShape(states[0], i);
    } else {
      RunKeepsShape(states, who, reqs, k - 1, i);
      assert Step(states[k - 1], who[k - 1], reqs[k - 1], states[k]);
      StepKeepsShape(states[k - 1], who[k - 1], reqs[k - 1], states[k], i);
    }
  }

  lemma FreshHasShape(sys: System, i: Id)
    requires Init(sys)
    ensures Shaped(sys, i)
  {
  }

  /** And isLeader never becomes false again. */
  lemma {:induction false} LeaderForever(
      states: seq<System>, who: seq<Id>, reqs: seq<Request>, j: nat, k: nat, i: Id)
    requires SoundRun(states, who, reqs) && j <= k < |states|
    requires i in states[k].nodes && states[k].nodes[i].Live?
    ensures i in states[j].nodes && states[j].nodes[i].Live?
    ensures states[j].nodes[i].client.isLeader ==> states[k].nodes[i].client.isLeader
    decreases k - j
  {
    hide Step, Shaped, SoundAt;
    if j < k {
      RunKeepsShape(states, who, reqs, k - 1, i);
      assert Step(states[k - 1], who[k - 1], reqs[k - 1], states[k]);
      StepKeepsShape(states[k - 1], who[k - 1], reqs[k - 1], states[k], i);
      LeaderForever(states, who, reqs, j, k - 1, i);
    }
  }

  /**
    * How run.go keeps its promises: a handler adds a peer only after the actor told it, at
    * some earlier moment, that the client leads; any requests may be served in between.
    */
  ghost predicate Checked(states: seq<System>, who: seq<Id>, reqs: seq<Request>) {
    Run(states, who, reqs) && forall k :: 0 <= k < |who| ==> CheckedAt(states, who[k], reqs[k], k)
  }

  ghost predicate CheckedAt(states: seq<System>, i: Id, req: Request, k: nat) {
    && (req.Add? ==> req.peer.id != i && exists j :: 0 <= j <= k < |states| && Leads(states[j], i))
    && (req.Follow? && req.leader.Some? ==> req.leader.value.id != i)
  }

  predicate Leads(sys: System, i: Id) {
    i in sys.nodes && sys.nodes[i].Live? && sys.nodes[i].client.isLeader
  }

  /** Since a leader stays one, the check still holds when the request is served. */
  lemma {:induction false} CheckedIsSound(states: seq<System>, who: seq<Id>, reqs: seq<Request>, n: nat)
    requires Checked(states, who, reqs) && n <= |who|
    ensures SoundRun(states[..n + 1], who[..n], reqs[..n])
    decreases n
  {
    hide Step, Init, Sound;
    PrefixRuns(states, who, reqs, n);
    if n > 0 {
      var k := n - 1;
      CheckedIsSound(states, who, reqs, k);
      assert forall m :: 0 <= m < k ==> SoundAt(states[..k + 1][m], who[..k][m], reqs[..k][m]);
      CheckHolds(states, who, reqs, k);
    }
  }

  lemma PrefixRuns(states: seq<System>, who: seq<Id>, reqs: seq<Request>, n: nat)
    requires Run(states, who, reqs) && n <= |who|
    ensures Run(states[..n + 1], who[..n], reqs[..n])
  {
    hide Step, Init;
  }

  lemma CheckHolds(states: seq<System>, who: seq<Id>, reqs: seq<Request>, k: nat)
    requires Checked(states, who, reqs) && k < |who| && SoundRun(states[..k + 1], who[..k], reqs[..k])
    ensures SoundAt(states[k], who[k], reqs[k])
  {
    hide SoundRun;
    var i, req := who[k], reqs[k];
    assert CheckedAt(states, i, req, k);
    assert Step(states[k], i, req, states[k + 1]);
    LiveHasOwnId(states, who, reqs, k, i);
    if req.Add? {
      var j :| 0 <= j <= k && Leads(states[j], i);
      LeaderForever(states[..k + 1], who[..k], reqs[..k], j, k, i);
    }
  }

  lemma LiveHasOwnId(states: seq<System>, who: seq<Id>, reqs: seq<Request>, k: nat, i: Id)
    requires |states| > k && |who| >= k && |reqs| >= k && SoundRun(states[..k + 1], who[..k], reqs[..k])
    ensures i in states[k].nodes && states[k].nodes[i].Live? ==> states[k].nodes[i].client.id == i
  {
    hide SoundRun;
    RunKeepsShape(states[..k + 1], who[..k], reqs[..k], k, i);
  }

  /** So the invariant holds in every run of the event loops, whatever is served in between. */
  lemma EventLoopKeepsShape(states: seq<System>, who: seq<Id>, reqs: seq<Request>, k: nat, i: Id)
    requires Checked(states, who, reqs) && k < |states|
    ensures Shaped(states[k], i)
  {
    hide Shaped;
    CheckedIsSound(states, who, reqs, |who|);
    assert states[..|who| + 1] == states && who[..|who|] == who && reqs[..|who|] == reqs;
    RunKeepsShape(states, who, reqs, k, i);
  }

  /** So in every run a client's rosters never list anybody twice. */
  lemma RostersAreDistinct(states: seq<System>, who: seq<Id>, reqs: seq<Request>, k: nat, i: Id, roster: seq<Entry>)
    requires SoundRun(states, who, reqs) && k < |states|
    requires i in states[k].nodes && states[k].nodes[i].Live? && IsRoster(roster, states[k].nodes[i].client)
    ensures DistinctIds(roster)
  {
    hide SoundRun, IsRoster;
    RunKeepsShape(states, who, reqs, k, i);
    RosterIsDistinct(roster, states[k].nodes[i].client);
  }

  /** The votes that make a leader set another leader. */
  ghost predicate BringsDown(s: ClientState, vote: LeaderVote) {
    && s.isLeader
    && if StartsRound(s, vote) then
      // The round that it starts for the vote has this vote only.
      && (s.round.Some? || vote.n >= s.next)
      && |s.peers| == 1 && vote.vote == Choice(s) && Choice(s) in s.peers
    else
      && vote.n == s.round.value.n
      && var r := s.round.value.(votes := s.round.value.votes[vote.sender := vote.vote]);
        |r.votes| >= s.PeerCount() && Unanimous(r.mine, r.votes) && r.mine in s.peers
  }

  /** Exactly these votes bring a client down: it leads, and the vote concludes a round that a peer won. */
  lemma LeaderPanicsExactly(s: ClientState, vote: LeaderVote)
    requires Shape(s)
    ensures Accept(s, vote, 2).Panicked? <==> BringsDown(s, vote)
  {
    hide Choice, Tally, Leading, Accept, Shape;
    if Stuck(s, vote) {
      StuckForever(s, vote, 2);
      AloneIsNotDown(s, vote);
    } else {
      AcceptReturns(s, vote, 2);
      PanicsWithin(s, vote, CallsLeft(s, vote));
    }
  }

  lemma AloneIsNotDown(s: ClientState, vote: LeaderVote)
    requires Stuck(s, vote)
    ensures !BringsDown(s, vote)
  {
  }

  lemma {:induction false} PanicsWithin(s: ClientState, vote: LeaderVote, calls: nat)
    requires Shape(s) && !Stuck(s, vote) && calls == CallsLeft(s, vote)
    ensures Accept(s, vote, calls).Panicked? <==> BringsDown(s, vote)
    decreases calls
  {
    hide Tally, Leading, Choice, ElectSpecific, Close, BringsDown;
    if StartsRound(s, vote) {
      var u := Catching(s, vote);
      var t := ElectNew(u).0;
      CallsFall(s, vote);
      RoundStarted(s, vote, t);
      PanicsWithin(t, vote, calls - 1);
    } else {
      if vote.n == s.round.value.n {
        ClosingPanics(s, vote);
      } else {
        OutsideRounds(s, vote);
      }
    }
  }

  lemma OutsideRounds(s: ClientState, vote: LeaderVote)
    requires !StartsRound(s, vote) && vote.n != s.round.value.n
    ensures !BringsDown(s, vote)
  {
  }

  /** The round that a client starts before it looks at a vote. */
  predicate Started(s: ClientState, t: ClientState, n: Uint, choice: Id) {
    t == s.(round := Some(VoteRound(n, choice, map[])), next := t.next)
  }

  lemma StartsIt(s: ClientState, vote: LeaderVote)
    requires StartsRound(s, vote) && !Stuck(s, vote)
    ensures Started(s, ElectNew(Catching(s, vote)).0, if s.round.None? then s.next else vote.n, Choice(s))
  {
    hide Choice;
    SameCandidates(s, Catching(s, vote));
  }

  lemma SameCandidates(s: ClientState, t: ClientState)
    requires t == s.(round := t.round, next := t.next)
    ensures Choice(t) == Choice(s)
  {
    assert t.Candidates() == s.Candidates() && t.Directors() == s.Directors();
  }

  /** Starting a round for the vote does not change whether the vote brings the client down. */
  lemma RoundStarted(s: ClientState, vote: LeaderVote, t: ClientState)
    requires Shape(s) && StartsRound(s, vote) && !Stuck(s, vote) && t == ElectNew(Catching(s, vote)).0
    ensures Shape(t)
    ensures BringsDown(t, vote) <==> BringsDown(s, vote)
  {
    hide ElectSpecific, Choice, BringsDown;
    var n, choice := if s.round.None? then s.next else vote.n, Choice(s);
    StartsIt(s, vote);
    SameCandidates(s, t);
    if vote.n > n {
      StillBehind(s, vote, t, n, choice);
    } else {
      OneVoteCloses(s, vote, t, n, choice);
    }
  }

  lemma StillBehind(s: ClientState, vote: LeaderVote, t: ClientState, n: Uint, choice: Id)
    requires StartsRound(s, vote) && Started(s, t, n, choice) && vote.n > n
    requires n == if s.round.None? then s.next else vote.n
    requires Choice(t) == Choice(s)
    ensures BringsDown(t, vote) <==> BringsDown(s, vote)
  {
    hide Choice;
  }

  lemma SingleVote(mine: Id, p: Id, v: Id)
    ensures |map[][p := v]| == 1 && (Unanimous(mine, map[][p := v]) <==> v == mine)
  {
    var votes: map<Id, Id> := map[][p := v];
    assert votes.Keys == {p} && votes[p] == v;
  }

  lemma OneVoteCloses(s: ClientState, vote: LeaderVote, t: ClientState, n: Uint, choice: Id)
    requires Shape(s) && StartsRound(s, vote) && !Stuck(s, vote) && Started(s, t, n, choice) && vote.n <= n
    requires n == if s.round.None? then s.next else vote.n
    requires choice == Choice(s)
    ensures BringsDown(t, vote) <==> BringsDown(s, vote)
  {
    hide Choice, Unanimous;
    SingleVote(choice, vote.sender, vote.vote);
  }

  lemma ClosingPanics(s: ClientState, vote: LeaderVote)
    requires Shape(s) && s.round.Some? && vote.n == s.round.value.n
    ensures Record(s, vote).Panicked? <==> BringsDown(s, vote)
  {
    hide Choice, Tally, Leading, ElectSpecific;
  }

  /** Of all requests, only these votes and an order to follow somebody else bring a client down. */
  lemma RequestPanicsExactly(s: ClientState, req: Request)
    requires Shape(s) && req.WellFormed()
    ensures Serve(s, req).Panicked? <==>
      || (req.Vote? && BringsDown(s, req.vote))
      || (req.Follow? && req.leader.Some? && s.isLeader && req.leader.value.id != s.id)
  {
    hide Choice, Accept, BringsDown, ElectSpecific, Merge;
    if req.Vote? {
      LeaderPanicsExactly(s, req.vote);
    }
  }
}
