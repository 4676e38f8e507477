/**
  * Any number of WeTube clients running elections: every interleaving of the requests that
  * their actors serve, with each vote delivered late, more than once or never.
  */
module Agreement {
  import opened Wrappers
  import opened Members
  import opened Election
  import opened Roster

  // ----- One client -----

  /** The requests that a client's actor takes from its channels. */
  datatype Request =
    | Lead
    | Follow(leader: Option<Entry>)
    | Drop(id: Id)
    | Add(peer: Entry)
    | Update(entry: Entry)
    | Adopt(roster: seq<Entry>, dials: seq<bool>)
    | Vote(vote: LeaderVote)
    | Elect
  {
    predicate WellFormed() {
      Adopt? ==> |dials| == |roster|
    }
  }

  /** A client that is stuck in acceptLeaderVote is still running after any number of calls. */
  ghost function Serve(s: ClientState, req: Request): Outcome
    requires req.WellFormed()
  {
    match req
    case Lead => Returned(BecomeLeader(s), [], None)
    case Follow(leader) =>
      var t := SetLeader(s, leader);
      if t.None? then Panicked else Returned(t.value, [], None)
    case Drop(id) => Returned(DeletePeer(s, id), [], None)
    case Add(peer) => Returned(AddPeer(s, peer), [], None)
    case Update(entry) => Returned(UpdatePeer(s, entry), [], None)
    case Adopt(roster, dials) => Returned(UpdateRoster(s, roster, dials), [], None)
    case Vote(vote) => Accept(s, vote, 2)
    case Elect =>
      var (t, cast) := ElectNew(s);
      Returned(t, cast, None)
  }

  // ----- All clients -----

  datatype Node = Live(client: ClientState) | Dead

  datatype System = System(nodes: map<Id, Node>, sent: set<LeaderVote>, concluded: set<Conclusion>)

  ghost predicate Init(sys: System) {
    && sys.sent == {} && sys.concluded == {}
    && forall i :: i in sys.nodes ==> sys.nodes[i].Live? && Fresh(i, sys.nodes[i].client)
  }

  /** A client as NewClient makes it. */
  predicate Fresh(i: Id, s: ClientState) {
    s.id == i && !s.isLeader && s.leader.None? && s.peers == map[] && s.round.None? && s.next == 0
  }

  function Votes(cast: seq<LeaderVote>): set<LeaderVote> {
    set v | v in cast
  }

  /** Client i serves one request; a client that panics or never returns serves no more. */
  ghost predicate Step(sys: System, i: Id, req: Request, next: System) {
    && i in sys.nodes && sys.nodes[i].Live? && req.WellFormed()
    && (req.Vote? ==> req.vote in sys.sent)
    && var out := Serve(sys.nodes[i].client, req);
      if out.Returned? then
        next == System(
          sys.nodes[i := Live(out.client)],
          sys.sent + Votes(out.cast),
          sys.concluded + if out.concluded.Some? then {out.concluded.value} else {})
      else next == sys.(nodes := sys.nodes[i := Dead])
  }

  /** Any run, with the requests served in each step. */
  ghost predicate Run(states: seq<System>, who: seq<Id>, reqs: seq<Request>) {
    && |states| == |who| + 1 == |reqs| + 1 && Init(states[0])
    && forall k :: 0 <= k < |who| ==> Step(states[k], who[k], reqs[k], states[k + 1])
  }

  /** No vote has the greatest round number, after which a client's counter starts again at zero. */
  ghost predicate NoWrap(sent: set<LeaderVote>) {
    forall v :: v in sent ==> v.n < UINT_MAX
  }

  // ----- The invariant -----

  ghost predicate OwnBelow(s: ClientState, sent: set<LeaderVote>) {
    forall v :: v in sent && v.sender == s.id ==> v.n < s.next
  }

  /** The client's own vote and the votes it has recorded were really cast. */
  ghost predicate RoundTrue(s: ClientState, sent: set<LeaderVote>) {
    s.round.Some? ==>
      && LeaderVote(s.round.value.n, s.round.value.mine, s.id) in sent
      && forall p :: p in s.round.value.votes ==> LeaderVote(s.round.value.n, s.round.value.votes[p], p) in sent
  }

  predicate Current(s: ClientState) {
    s.round.Some? ==> s.next == s.round.value.n + 1
  }

  ghost predicate Good(s: ClientState, sent: set<LeaderVote>) {
    OwnBelow(s, sent) && RoundTrue(s, sent) && Current(s)
  }

  /** Nobody casts two votes in one round. */
  ghost predicate OneVote(sent: set<LeaderVote>) {
    forall v, w :: v in sent && w in sent && v.sender == w.sender && v.n == w.n ==> v == w
  }

  /** Whoever took part in a concluded round cast the vote that it concluded with. */
  ghost predicate ConclusionTrue(c: Conclusion, sent: set<LeaderVote>) {
    && LeaderVote(c.n, c.choice, c.who) in sent
    && (forall p :: p in c.voters ==> LeaderVote(c.n, c.choice, p) in sent)
    && |c.voters| >= |c.known|
  }

  ghost predicate Inv(sys: System) {
    && (forall i :: i in sys.nodes && sys.nodes[i].Live? ==>
      sys.nodes[i].client.id == i && Good(sys.nodes[i].client, sys.sent))
    && OneVote(sys.sent)
    && (forall c :: c in sys.concluded ==> ConclusionTrue(c, sys.sent))
  }

  // ----- One client keeps it -----

  /** Votes in rounds that go up. */
  predicate Rising(cast: seq<LeaderVote>) {
    forall a, b :: 0 <= a < b < |cast| ==> cast[a].n < cast[b].n
  }

  /** What an outcome does to the counter and to the votes cast. */
  ghost predicate KeepsGood(s: ClientState, out: Outcome, sent: set<LeaderVote>) {
    out.Returned? ==>
      && out.client.id == s.id && out.client.next >= s.next
      && Good(out.client, sent + Votes(out.cast)) && OneVote(sent + Votes(out.cast))
      && (forall v :: v in out.cast ==> v.sender == s.id && v.n >= s.next) && Rising(out.cast)
      && (out.concluded.Some? ==>
        ConclusionTrue(out.concluded.value, sent + Votes(out.cast)) && out.concluded.value.who == s.id)
  }

  lemma ElectCasts(s: ClientState, vote: Id, sent: set<LeaderVote>)
    requires OwnBelow(s, sent) && OneVote(sent) && RoundTrue(s, sent)
    requires ElectSpecific(s, vote).1 != [] && NoWrap(sent + Votes(ElectSpecific(s, vote).1))
    ensures var (t, cast) := ElectSpecific(s, vote);
      && t.id == s.id && t.next >= s.next && Good(t, sent + Votes(cast)) && OneVote(sent + Votes(cast))
      && (forall v :: v in cast ==> v.sender == s.id && s.next <= v.n < t.next) && |cast| <= 1
  {
    var (t, cast) := ElectSpecific(s, vote);
    var v := LeaderVote(s.next, vote, s.id);
    assert cast == [v] && v in cast;
    assert Votes(cast) == {v};
    assert v.n < UINT_MAX;
  }

  lemma ElectKeeps(s: ClientState, vote: Id, sent: set<LeaderVote>)
    requires Good(s, sent) && OneVote(sent)
    requires NoWrap(sent + Votes(ElectSpecific(s, vote).1))
    ensures var (t, cast) := ElectSpecific(s, vote); KeepsGood(s, Returned(t, cast, None), sent)
  {
    if ElectSpecific(s, vote).1 == [] {
      assert sent + Votes([]) == sent;
    } else {
      ElectCasts(s, vote, sent);
    }
  }

  lemma QuietKeeps(s: ClientState, t: ClientState, sent: set<LeaderVote>)
    requires Good(s, sent) && OneVote(sent)
    requires t.id == s.id && t.next == s.next && (t.round == s.round || t.round.None?)
    ensures KeepsGood(s, Returned(t, [], None), sent)
  {
    assert sent + Votes([]) == sent;
  }

  lemma ConcludeKeeps(s: ClientState, r: VoteRound, sent: set<LeaderVote>)
    requires Good(s, sent) && OneVote(sent) && s.round == Some(r)
    requires Unanimous(r.mine, r.votes) && |r.votes| >= s.PeerCount()
    ensures KeepsGood(s, Conclude(s, r), sent)
  {
    hide Good, OneVote, ConclusionTrue, KeepsGood, BecomeLeader, SetLeader;
    var out := Conclude(s, r);
    ConclusionIsTrue(s, r, sent);
    if out.Returned? {
      ConcludeChanges(s, r);
      QuietKeeps(s, out.client, sent);
      Concluded(s, out, sent);
    } else {
      NotReturned(s, out, sent);
    }
  }

  lemma ConcludeChanges(s: ClientState, r: VoteRound)
    requires Conclude(s, r).Returned? && s.round == Some(r)
    ensures var out := Conclude(s, r);
      && out.client.id == s.id && out.client.next == s.next && (out.client.round == s.round || out.client.round.None?)
      && out.cast == []
      && (out.concluded.Some? ==> out.concluded.value == Conclusion(s.id, r.n, r.mine, r.votes.Keys, s.Known()))
  {
  }

  lemma ConclusionIsTrue(s: ClientState, r: VoteRound, sent: set<LeaderVote>)
    requires Good(s, sent) && s.round == Some(r) && Unanimous(r.mine, r.votes) && |r.votes| >= s.PeerCount()
    ensures ConclusionTrue(Conclusion(s.id, r.n, r.mine, r.votes.Keys, s.Known()), sent)
  {
    hide OwnBelow;
    KnownBound(s);
  }

  lemma Concluded(s: ClientState, out: Outcome, sent: set<LeaderVote>)
    requires out.Returned? && out.cast == [] && KeepsGood(s, Returned(out.client, [], None), sent)
    requires out.concluded.Some? ==> out.concluded.value.who == s.id && ConclusionTrue(out.concluded.value, sent)
    ensures KeepsGood(s, out, sent)
  {
    hide Good, OneVote, ConclusionTrue;
    assert sent + Votes([]) == sent;
  }

  lemma KnownBound(s: ClientState)
    ensures |s.Known()| <= s.PeerCount()
  {
  }

  lemma RecordKeeps(s: ClientState, vote: LeaderVote, sent: set<LeaderVote>)
    requires Good(s, sent) && OneVote(sent) && vote in sent
    requires s.round.Some? && s.round.value.n == vote.n
    requires Record(s, vote).Returned? ==> NoWrap(sent + Votes(Record(s, vote).cast))
    ensures KeepsGood(s, Record(s, vote), sent)
  {
    hide ElectSpecific, Leading, Tally, Unanimous, Conclude, NoWrap, KeepsGood;
    var r := s.round.value.(votes := s.round.value.votes[vote.sender := vote.vote]);
    var t := s.(round := Some(r));
    RecordedVote(s, vote, r, sent);
    if |r.votes| < t.PeerCount() {
      QuietKeeps(t, t, sent);
    } else if Unanimous(r.mine, r.votes) {
      ConcludeKeeps(t, r, sent);
    } else {
      ElectKeeps(t, Leading(Tally(r.mine, r.votes)), sent);
    }
    SameStart(s, t, Record(s, vote), sent);
  }

  lemma RecordedVote(s: ClientState, vote: LeaderVote, r: VoteRound, sent: set<LeaderVote>)
    requires Good(s, sent) && vote in sent && s.round.Some? && s.round.value.n == vote.n
    requires r == s.round.value.(votes := s.round.value.votes[vote.sender := vote.vote])
    ensures Good(s.(round := Some(r)), sent)
  {
    assert vote == LeaderVote(r.n, vote.vote, vote.sender);
  }

  lemma SameStart(s: ClientState, t: ClientState, out: Outcome, sent: set<LeaderVote>)
    requires KeepsGood(t, out, sent) && t.id == s.id && t.next >= s.next
    ensures KeepsGood(s, out, sent)
  {
  }

  lemma {:induction false} AcceptKeeps(s: ClientState, vote: LeaderVote, calls: nat, sent: set<LeaderVote>)
    requires Good(s, sent) && OneVote(sent) && vote in sent
    requires Accept(s, vote, calls).Returned? ==> NoWrap(sent + Votes(Accept(s, vote, calls).cast))
    ensures KeepsGood(s, Accept(s, vote, calls), sent)
    decreases calls
  {
    hide Good, OneVote, NoWrap, KeepsGood, Record, Votes, ElectSpecific, Choice;
    if StartsRound(s, vote) {
      if Stuck(s, vote) {
        StuckForever(s, vote, calls);
        NotReturned(s, Accept(s, vote, calls), sent);
      } else if Accept(s, vote, calls).Returned? {
        var u := Catching(s, vote);
        var (t, cast) := ElectNew(u);
        var later := Accept(t, vote, calls - 1);
        MoreVotes(sent, cast, later.cast);
        CatchingUp(s, vote, sent, cast);
        AcceptKeeps(t, vote, calls - 1, sent + Votes(cast));
        KeepsAfter(s, t, cast, later, sent);
      } else {
        NotReturned(s, Accept(s, vote, calls), sent);
      }
    } else if vote.n == s.round.value.n {
      RecordKeeps(s, vote, sent);
    } else {
      QuietKeeps(s, s, sent);
    }
  }

  lemma NotReturned(s: ClientState, out: Outcome, sent: set<LeaderVote>)
    requires !out.Returned?
    ensures KeepsGood(s, out, sent)
  {
  }

  lemma MoreVotes(sent: set<LeaderVote>, cast: seq<LeaderVote>, later: seq<LeaderVote>)
    ensures sent + Votes(cast + later) == sent + Votes(cast) + Votes(later)
    ensures NoWrap(sent + Votes(cast + later)) ==> NoWrap(sent + Votes(cast))
  {
    forall v
      ensures v in Votes(cast + later) <==> v in Votes(cast) || v in Votes(later)
    {
    }
  }

  /** Starting the vote's round, a client casts a vote above all its earlier ones. */
  lemma CatchingUp(s: ClientState, vote: LeaderVote, sent: set<LeaderVote>, cast: seq<LeaderVote>)
    requires Good(s, sent) && OneVote(sent) && StartsRound(s, vote) && !Stuck(s, vote)
    requires cast == ElectNew(Catching(s, vote)).1 && NoWrap(sent + Votes(cast))
    ensures var t := ElectNew(Catching(s, vote)).0;
      && t.id == s.id && t.next >= s.next && Good(t, sent + Votes(cast)) && OneVote(sent + Votes(cast))
      && (forall v :: v in cast ==> v.sender == s.id && s.next <= v.n < t.next) && |cast| <= 1
  {
    hide NoWrap;
    var u := Catching(s, vote);
    assert OwnBelow(u, sent) && u.next >= s.next;
    ElectCasts(u, Choice(u), sent);
  }

  lemma KeepsAfter(s: ClientState, t: ClientState, cast: seq<LeaderVote>, later: Outcome, sent: set<LeaderVote>)
    requires later.Returned? && KeepsGood(t, later, sent + Votes(cast))
    requires t.id == s.id && t.next >= s.next && (forall v :: v in cast ==> v.sender == s.id && s.next <= v.n < t.next)
    requires |cast| <= 1
    ensures KeepsGood(s, After(cast, later), sent)
  {
    hide NoWrap, Good, OneVote, ConclusionTrue, Votes;
    MoreVotes(sent, cast, later.cast);
  }

  lemma ServeKeeps(s: ClientState, req: Request, sent: set<LeaderVote>)
    requires Good(s, sent) && OneVote(sent) && req.WellFormed() && (req.Vote? ==> req.vote in sent)
    requires Serve(s, req).Returned? ==> NoWrap(sent + Votes(Serve(s, req).cast))
    ensures KeepsGood(s, Serve(s, req), sent)
  {
    hide Good, OneVote, NoWrap, KeepsGood, Votes, ElectSpecific, Choice, Accept, Merge;
    match req
    case Vote(vote) => AcceptKeeps(s, vote, 2, sent);
    case Elect => ElectKeeps(s, Choice(s), sent);
    case Adopt(roster, dials) =>
      MergeKeepsRound(s, map[], roster, dials);
      QuietKeeps(s, UpdateRoster(s, roster, dials), sent);
    case Follow(leader) =>
      var t := SetLeader(s, leader);
      if t.Some? {
        QuietKeeps(s, t.value, sent);
      } else {
        NotReturned(s, Serve(s, req), sent);
      }
    case _ => QuietKeeps(s, Serve(s, req).client, sent);
  }

  lemma {:induction false} MergeKeepsRound(s: ClientState, kept: map<Id, Entry>, roster: seq<Entry>, dials: seq<bool>)
    requires |dials| == |roster|
    ensures var u := Merge(s, kept, roster, dials); u.id == s.id && u.next == s.next && u.round == s.round
    decreases |roster|
  {
    if roster != [] {
      var (t, more) := MergeOne(s, kept, roster[0], dials[0]);
      MergeKeepsRound(t, more, roster[1..], dials[1..]);
    }
  }

  // ----- Every run keeps it -----

  /** A vote that others cast does not disturb a client. */
  lemma OthersCast(s: ClientState, sent: set<LeaderVote>, cast: seq<LeaderVote>)
    requires Good(s, sent) && forall v :: v in cast ==> v.sender != s.id
    ensures Good(s, sent + Votes(cast))
  {
  }

  lemma StepKeeps(sys: System, i: Id, req: Request, next: System)
    requires Inv(sys) && Step(sys, i, req, next) && NoWrap(next.sent)
    ensures Inv(next)
  {
    hide Good, OneVote, NoWrap, Serve, Votes, ConclusionTrue;
    var s := sys.nodes[i].client;
    var out := Serve(s, req);
    ServeKeeps(s, req, sys.sent);
    if out.Returned? {
      forall j | j in next.nodes && next.nodes[j].Live? && j != i
        ensures Good(next.nodes[j].client, next.sent)
      {
        OthersCast(next.nodes[j].client, sys.sent, out.cast);
      }
      forall c | c in sys.concluded
        ensures ConclusionTrue(c, next.sent)
      {
        StillTrue(c, sys.sent, next.sent);
      }
    }
  }

  lemma StillTrue(c: Conclusion, sent: set<LeaderVote>, more: set<LeaderVote>)
    requires ConclusionTrue(c, sent) && sent <= more
    ensures ConclusionTrue(c, more)
  {
  }

  lemma NoWrapBefore(sent: set<LeaderVote>, more: set<LeaderVote>)
    requires sent <= more && NoWrap(more)
    ensures NoWrap(sent)
  {
  }

  lemma {:induction false} RunKeeps(states: seq<System>, who: seq<Id>, reqs: seq<Request>, k: nat)
    requires Run(states, who, reqs) && k < |states| && NoWrap(states[k].sent)
    ensures Inv(states[k])
    decreases k
  {
    hide Step, NoWrap, Good, OneVote, ConclusionTrue;
    if k == 0 {
      InitIsGood(states[0]);
    } else {
      assert Step(states[k - 1], who[k - 1], reqs[k - 1], states[k]);
      SentGrows(states[k - 1], who[k - 1], reqs[k - 1], states[k]);
      NoWrapBefore(states[k - 1].sent, states[k].sent);
      RunKeeps(states, who, reqs, k - 1);
      StepKeeps(states[k - 1], who[k - 1], reqs[k - 1], states[k]);
    }
  }

  lemma SentGrows(sys: System, i: Id, req: Request, next: System)
    requires Step(sys, i, req, next)
    ensures sys.sent <= next.sent && sys.concluded <= next.concluded
  {
    hide Serve, Votes;
  }

  lemma InitIsGood(sys: System)
    requires Init(sys)
    ensures Inv(sys)
  {
  }

  // ----- What it gives -----

  /**
    * In any run, a client never casts two votes in one round, its counter is above every
    * round it has voted in and above its current one, and each vote it has recorded was
    * cast, in that round, by the client it is recorded for.
    */
  lemma OneVotePerRound(states: seq<System>, who: seq<Id>, reqs: seq<Request>, k: nat, i: Id)
    requires Run(states, who, reqs) && k < |states| && NoWrap(states[k].sent)
    requires i in states[k].nodes && states[k].nodes[i].Live?
    ensures var s, sent := states[k].nodes[i].client, states[k].sent;
      && (forall v, w :: v in sent && w in sent && v.sender == w.sender == i && v.n == w.n ==> v.vote == w.vote)
      && (forall v :: v in sent && v.sender == i ==> v.n < s.next)
      && (s.round.Some? ==> s.round.value.n < s.next)
      && (s.round.Some? ==> forall p :: p in s.round.value.votes ==>
        LeaderVote(s.round.value.n, s.round.value.votes[p], p) in sent)
  {
    RunKeeps(states, who, reqs, k);
  }

  // ----- Every vote that is cast -----

  /** The votes that the client of step k casts in it. */
  ghost function CastAt(states: seq<System>, who: seq<Id>, reqs: seq<Request>, k: nat): seq<LeaderVote>
    requires k < |who| && k < |states| && k < |reqs| && reqs[k].WellFormed()
    requires who[k] in states[k].nodes && states[k].nodes[who[k]].Live?
  {
    var out := Serve(states[k].nodes[who[k]].client, reqs[k]);
    if out.Returned? then out.cast else []
  }

  /** All votes of the first k steps, in the order in which they were cast. */
  ghost function CastBefore(states: seq<System>, who: seq<Id>, reqs: seq<Request>, k: nat): seq<LeaderVote>
    requires Run(states, who, reqs) && k < |states|
    decreases k
  {
    if k == 0 then []
    else
      assert Step(states[k - 1], who[k - 1], reqs[k - 1], states[k]);
      CastBefore(states, who, reqs, k - 1) + CastAt(states, who, reqs, k - 1)
  }

  ghost predicate OncePerRound(cast: seq<LeaderVote>) {
    forall a, b :: 0 <= a < b < |cast| ==> cast[a].sender != cast[b].sender || cast[a].n != cast[b].n
  }

  /** What a step casts was never cast before. */
  lemma NewVotes(s: ClientState, sent: set<LeaderVote>, out: Outcome, before: seq<LeaderVote>)
    requires OwnBelow(s, sent) && out.Returned? && KeepsGood(s, out, sent)
    requires Votes(before) == sent && OncePerRound(before)
    ensures OncePerRound(before + out.cast) && Votes(before + out.cast) == sent + Votes(out.cast)
  {
    hide Good, OneVote, ConclusionTrue;
    var all := before + out.cast;
    forall a, b | 0 <= a < b < |all|
      ensures all[a].sender != all[b].sender || all[a].n != all[b].n
    {
      if a < |before| <= b {
        assert all[a] in Votes(before) && all[b] in out.cast;
      }
    }
    MoreVotes({}, before, out.cast);
  }

  /**
    * In any run, no client ever casts a second vote in a round, not even the same one again;
    * and the votes that were sent are just those cast.
    */
  lemma {:induction false} VotesOncePerRound(states: seq<System>, who: seq<Id>, reqs: seq<Request>, k: nat)
    requires Run(states, who, reqs) && k < |states| && NoWrap(states[k].sent)
    ensures Votes(CastBefore(states, who, reqs, k)) == states[k].sent
    ensures var cast := CastBefore(states, who, reqs, k);
      forall a, b :: 0 <= a < b < |cast| ==> cast[a].sender != cast[b].sender || cast[a].n != cast[b].n
    decreases k
  {
    hide NoWrap, Serve, KeepsGood, OneVote, ConclusionTrue, OwnBelow, RoundTrue, Current, Votes;
    if k == 0 {
      NoVotes();
    } else {
      var sys, next, i := states[k - 1], states[k], who[k - 1];
      assert Step(sys, i, reqs[k - 1], next);
      SentGrows(sys, i, reqs[k - 1], next);
      NoWrapBefore(sys.sent, next.sent);
      RunKeeps(states, who, reqs, k - 1);
      VotesOncePerRound(states, who, reqs, k - 1);
      var s, before := sys.nodes[i].client, CastBefore(states, who, reqs, k - 1);
      var out := Serve(s, reqs[k - 1]);
      if out.Returned? {
        ServeKeeps(s, reqs[k - 1], sys.sent);
        NewVotes(s, sys.sent, out, before);
      } else {
        assert before + [] == before;
      }
    }
  }

  /** The conclusions of a run are those that its steps reached, no more and no less. */
  lemma {:induction false} ConclusionsOfRun(states: seq<System>, who: seq<Id>, reqs: seq<Request>, k: nat, c: Conclusion)
    requires Run(states, who, reqs) && k < |states|
    ensures c in states[k].concluded <==>
      exists j :: 0 <= j < k && Reaches(states[j], who[j], reqs[j], c)
    decreases k
  {
    hide Serve, Votes, Reaches;
    if k > 0 {
      var sys, i := states[k - 1], who[k - 1];
      assert Step(sys, i, reqs[k - 1], states[k]);
      ConclusionsOfRun(states, who, reqs, k - 1, c);
      ReachesInStep(sys, i, reqs[k - 1], states[k], c);
    }
  }

  ghost predicate Reaches(sys: System, i: Id, req: Request, c: Conclusion) {
    && i in sys.nodes && sys.nodes[i].Live? && req.WellFormed()
    && var out := Serve(sys.nodes[i].client, req); out.Returned? && out.concluded == Some(c)
  }

  lemma ReachesInStep(sys: System, i: Id, req: Request, next: System, c: Conclusion)
    requires Step(sys, i, req, next)
    ensures c in next.concluded <==> c in sys.concluded || Reaches(sys, i, req, c)
  {
    hide Serve, Votes;
  }

  lemma NoVotes()
    ensures Votes([]) == {} && OncePerRound([])
  {
  }

  /** The round counter never decreases. */
  lemma CounterNeverFalls(states: seq<System>, who: seq<Id>, reqs: seq<Request>, k: nat, i: Id)
    requires Run(states, who, reqs) && k + 1 < |states| && NoWrap(states[k + 1].sent)
    requires i in states[k + 1].nodes && states[k + 1].nodes[i].Live?
    ensures i in states[k].nodes && states[k].nodes[i].Live?
    ensures states[k].nodes[i].client.next <= states[k + 1].nodes[i].client.next
  {
    hide NoWrap, Good, OneVote, ConclusionTrue, Serve, Votes;
    var sys, next := states[k], states[k + 1];
    assert Step(sys, who[k], reqs[k], next);
    SentGrows(sys, who[k], reqs[k], next);
    NoWrapBefore(sys.sent, next.sent);
    RunKeeps(states, who, reqs, k);
    ServeKeeps(sys.nodes[who[k]].client, reqs[k], sys.sent);
  }

  /**
    * Agreement. If everybody who voted in d was a member that d knew, and d knew c, then c
    * and d, concluding the same round, conclude it with the same choice.
    */
  lemma Agree(states: seq<System>, who: seq<Id>, reqs: seq<Request>, k: nat, c: Conclusion, d: Conclusion)
    requires Run(states, who, reqs) && k < |states| && NoWrap(states[k].sent)
    requires c in states[k].concluded && d in states[k].concluded && c.n == d.n
    requires d.voters <= d.known && c.who in d.known + {d.who}
    ensures c.choice == d.choice
  {
    hide Run;
    RunKeeps(states, who, reqs, k);
    SubsetCardinality(d.voters, d.known);
    var v, w := LeaderVote(c.n, c.choice, c.who), LeaderVote(d.n, d.choice, c.who);
    assert v in states[k].sent && w in states[k].sent;
  }

  /** A round in which the client chose itself is how it becomes leader by accepting a vote. */
  predicate MakesLeader(c: Conclusion) {
    c.choice == c.who
  }

  /** A vote makes a client leader only by such a conclusion, or when it has nobody left to vote. */
  lemma LeaderByVote(s: ClientState, vote: LeaderVote)
    requires !s.isLeader && Accept(s, vote, 2).Returned? && Accept(s, vote, 2).client.isLeader
    ensures var out := Accept(s, vote, 2);
      || (out.concluded.Some? && MakesLeader(out.concluded.value) && out.concluded.value.who == s.id)
      || (s.leader.None? && s.peers == map[])
  {
    LeaderWithin(s, vote, 2);
  }

  /** What a vote that makes a client leader has done, or in which state it met the client. */
  ghost predicate LedByVote(s: ClientState, out: Outcome) {
    || !out.Returned? || !out.client.isLeader
    || (out.concluded.Some? && MakesLeader(out.concluded.value) && out.concluded.value.who == s.id)
    || (s.leader.None? && s.peers == map[])
  }

  lemma {:induction false} LeaderWithin(s: ClientState, vote: LeaderVote, calls: nat)
    requires !s.isLeader
    ensures LedByVote(s, Accept(s, vote, calls))
    decreases calls
  {
    hide Choice, Tally, Leading, Unanimous, Conclude, ElectSpecific, Supporters;
    if StartsRound(s, vote) {
      if calls > 0 && !Stuck(s, vote) {
        var u := Catching(s, vote);
        var (t, cast) := ElectNew(u);
        ElectionLeaves(u, Choice(u));
        LeaderWithin(t, vote, calls - 1);
      }
    } else if vote.n == s.round.value.n {
      var r := s.round.value.(votes := s.round.value.votes[vote.sender := vote.vote]);
      var t := s.(round := Some(r));
      LeaderByConclusion(t, r);
      ElectionLeaves(t, Leading(Tally(r.mine, r.votes)));
    }
  }

  /** With somebody to vote, electing anew does not make a leader. */
  lemma ElectionLeaves(s: ClientState, vote: Id)
    ensures var t := ElectSpecific(s, vote).0;
      (s.leader.None? && s.peers == map[])
      || (t.isLeader == s.isLeader && t.id == s.id && t.leader == s.leader && t.peers == s.peers)
  {
  }

  lemma LeaderByConclusion(s: ClientState, r: VoteRound)
    requires !s.isLeader
    ensures LedByVote(s, Conclude(s, r))
  {
  }

  /** Within one electorate, at most one client becomes leader in a round. */
  lemma OneLeaderPerRound(
      states: seq<System>, who: seq<Id>, reqs: seq<Request>, k: nat, electorate: set<Id>, c: Conclusion, d: Conclusion)
    requires Run(states, who, reqs) && k < |states| && NoWrap(states[k].sent)
    requires c in states[k].concluded && d in states[k].concluded && c.n == d.n
    requires forall e :: e in {c, d} ==> e.who in electorate && e.known == electorate - {e.who} && e.voters <= e.known
    requires MakesLeader(c) && MakesLeader(d)
    ensures c.who == d.who
  {
    hide Run;
    Agree(states, who, reqs, k, c, d);
  }
}
