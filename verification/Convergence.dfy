/**
  * An electorate in which every client serves the votes of a round before those of the next:
  * it agrees at once, or all vote alike in the next round, and one client ends up leader.
  */
module Convergence {
  import opened Wrappers
  import opened Members
  import opened Election
  import opened Roster

  // ----- One tally for all -----

  ghost predicate AllAlike(choice: map<Id, Id>) {
    forall p, q :: p in choice && q in choice ==> choice[p] == choice[q]
  }

  /** The votes of a whole electorate, counted at once. */
  function Whole(choice: map<Id, Id>): map<Id, nat> {
    map v | v in choice.Values :: |Supporters(choice, v)|
  }

  /** Whoever counts, the tally is that of the whole electorate. */
  lemma SameTally(choice: map<Id, Id>, i: Id)
    requires i in choice
    ensures Tally(choice[i], choice - {i}) == Whole(choice)
    ensures Unanimous(choice[i], choice - {i}) <==> AllAlike(choice)
  {
    hide Supporters;
    var others := choice - {i};
    assert choice == others[i := choice[i]];
    ValuesWith(others, i, choice[i]);
    forall v | v in choice.Values
      ensures Tally(choice[i], others)[v] == Whole(choice)[v]
    {
      SupportersWith(others, i, choice[i], v);
    }
  }

  ghost function Winner(choice: map<Id, Id>): (w: Id)
    requires choice != map[]
    ensures w in choice.Values
  {
    var p :| p in choice;
    assert choice[p] in Whole(choice);
    Leading(Whole(choice))
  }

  /** The winner has the most votes, and the lowest ID of those with as many. */
  lemma WinnerHasMostVotes(choice: map<Id, Id>, v: Id)
    requires choice != map[] && v in choice.Values
    ensures var w := Winner(choice);
      var ours, theirs := set p | p in choice && choice[p] == w, set p | p in choice && choice[p] == v;
      |theirs| < |ours| || (|theirs| == |ours| && w <= v)
  {
    var w := Winner(choice);
    assert Supporters(choice, w) == set p | p in choice && choice[p] == w;
    assert Supporters(choice, v) == set p | p in choice && choice[p] == v;
    assert v in Whole(choice) && IsLeading(w, Whole(choice));
  }

  lemma WinnerOfAlike(choice: map<Id, Id>, i: Id)
    requires i in choice && AllAlike(choice)
    ensures Winner(choice) == choice[i]
  {
  }

  // ----- Delivering a round's votes -----

  function Ballots(n: Uint, choice: map<Id, Id>, order: seq<Id>): (ballots: seq<LeaderVote>)
    requires forall p :: p in order ==> p in choice
    ensures |ballots| == |order|
  {
    seq(|order|, k requires 0 <= k < |order| => LeaderVote(n, choice[order[k]], order[k]))
  }

  /** The votes are served one after the other. */
  ghost function AcceptAll(s: ClientState, ballots: seq<LeaderVote>): Outcome
    decreases |ballots|
  {
    if ballots == [] then Returned(s, [], None)
    else Then(AcceptAll(s, ballots[..|ballots| - 1]), ballots[|ballots| - 1])
  }

  ghost function Then(out: Outcome, vote: LeaderVote): Outcome {
    if !out.Returned? then out
    else
      match After(out.cast, Accept(out.client, vote, 2))
      case Returned(client, cast, concluded, elections) =>
        Returned(client, cast, if concluded.None? then out.concluded else concluded, out.elections + elections)
      case failed => failed
  }

  /** A client of the electorate of choice, which knows all the others. */
  ghost predicate Member(s: ClientState, choice: map<Id, Id>) {
    Shape(s) && s.id in choice && s.Known() == choice.Keys - {s.id}
  }

  /** It has just voted in round n, perhaps for an outsider. */
  ghost predicate Voting(s: ClientState, n: Uint, choice: map<Id, Id>) {
    Member(s, choice) && s.round == Some(VoteRound(n, choice[s.id], map[])) && s.next == n + 1
  }

  /** Clients without a leader that start an election are voting in its first round. */
  lemma ElectionStarts(s: ClientState, choice: map<Id, Id>)
    requires Shape(s) && s.leader.None? && s.peers != map[] && s.next < UINT_MAX
    requires s.id in choice && s.Known() == choice.Keys - {s.id} && choice[s.id] == Choice(s)
    ensures Voting(ElectNew(s).0, s.next, choice)
    ensures ElectNew(s).1 == [LeaderVote(s.next, choice[s.id], s.id)] && choice[s.id] in choice
  {
    assert ElectNew(s).0.Known() == s.Known();
  }

  function Heard(choice: map<Id, Id>, order: seq<Id>): map<Id, Id> {
    map p | p in choice && p in order :: choice[p]
  }

  function WithVotes(s: ClientState, votes: map<Id, Id>): ClientState
    requires s.round.Some?
  {
    s.(round := Some(s.round.value.(votes := votes)))
  }

  lemma {:induction false} OrderedCount(order: seq<Id>, ids: set<Id>)
    requires Orders(order, ids)
    ensures |order| == |ids|
    decreases |order|
  {
    if order == [] {
      assert ids == {};
    } else {
      var last := order[|order| - 1];
      assert last in order;
      var front := order[..|order| - 1];
      forall k
        ensures k in ids - {last} <==> k in front
      {
        if k in ids - {last} {
          var j :| 0 <= j < |order| && order[j] == k;
          assert front[j] == k;
        }
      }
      OrderedCount(front, ids - {last});
    }
  }

  lemma HeardCount(choice: map<Id, Id>, order: seq<Id>)
    requires forall p :: p in order ==> p in choice
    requires forall i, j :: 0 <= i < j < |order| ==> order[i] != order[j]
    ensures |Heard(choice, order)| == |order|
  {
    var ids := Heard(choice, order).Keys;
    assert Orders(order, ids);
    OrderedCount(order, ids);
  }

  lemma CountKnown(s: ClientState)
    requires Shape(s)
    ensures s.PeerCount() == |s.Known()|
  {
  }

  lemma Electors(s: ClientState, n: Uint, choice: map<Id, Id>, order: seq<Id>)
    requires Voting(s, n, choice) && Orders(order, s.Known())
    ensures forall p :: p in order ==> p in choice && p != s.id
    ensures |order| == s.PeerCount() == |choice| - 1
  {
    forall p | p in order
      ensures p in choice && p != s.id
    {
      assert p in s.Known();
    }
    OrderedCount(order, s.Known());
    CountKnown(s);
  }

  lemma HeardMore(choice: map<Id, Id>, order: seq<Id>, k: nat)
    requires k < |order| && order[k] in choice
    ensures Heard(choice, order[..k + 1]) == Heard(choice, order[..k])[order[k] := choice[order[k]]]
  {
    assert order[..k + 1] == order[..k] + [order[k]];
  }

  lemma NoneBefore(out: Outcome)
    ensures After([], out) == out
  {
    if out.Returned? {
      assert [] + out.cast == out.cast;
    }
  }

  /** A vote of the current round is recorded, and the round closed if it was the last. */
  lemma OneBallot(s: ClientState, n: Uint, choice: map<Id, Id>, order: seq<Id>, k: nat)
    requires s.round.Some? && s.round.value.n == n && k < |order| && order[k] in choice
    ensures var t := WithVotes(s, Heard(choice, order[..k + 1]));
      Accept(WithVotes(s, Heard(choice, order[..k])), LeaderVote(n, choice[order[k]], order[k]), 2) == Close(t, t.round.value)
  {
    hide Close, Heard;
    HeardMore(choice, order, k);
  }

  lemma NextBallot(s: ClientState, n: Uint, choice: map<Id, Id>, order: seq<Id>, k: nat)
    requires s.round.Some? && s.round.value.n == n && k < |order|
    requires forall p :: p in order ==> p in choice
    requires AcceptAll(s, Ballots(n, choice, order)[..k]) == Returned(WithVotes(s, Heard(choice, order[..k])), [], None)
    ensures var t := WithVotes(s, Heard(choice, order[..k + 1]));
      AcceptAll(s, Ballots(n, choice, order)[..k + 1]) == Close(t, t.round.value)
  {
    hide Close, Heard, Accept;
    var ballots := Ballots(n, choice, order);
    assert ballots[..k + 1][..k] == ballots[..k];
    assert ballots[k] == LeaderVote(n, choice[order[k]], order[k]);
    OneBallot(s, n, choice, order, k);
    NoneBefore(Accept(WithVotes(s, Heard(choice, order[..k])), ballots[k], 2));
  }

  lemma HeardFewer(s: ClientState, n: Uint, choice: map<Id, Id>, order: seq<Id>, k: nat)
    requires Voting(s, n, choice) && Orders(order, s.Known()) && k < |order|
    ensures |Heard(choice, order[..k])| < s.PeerCount()
  {
    hide Shape;
    Electors(s, n, choice, order);
    HeardCount(choice, order[..k]);
  }

  lemma HeardAll(s: ClientState, n: Uint, choice: map<Id, Id>, order: seq<Id>)
    requires Voting(s, n, choice) && Orders(order, s.Known())
    ensures Heard(choice, order) == choice - {s.id}
  {
    hide Shape;
    forall p
      ensures p in Heard(choice, order) <==> p in choice - {s.id}
    {
      assert p in s.Known() <==> p in order;
    }
  }

  lemma JustVoted(s: ClientState, n: Uint, choice: map<Id, Id>)
    requires Voting(s, n, choice)
    ensures s.id in choice && s.round == Some(VoteRound(n, choice[s.id], map[]))
  {
  }

  lemma NotYetClosed(t: ClientState, r: VoteRound)
    requires t.round == Some(r) && |r.votes| < t.PeerCount()
    ensures Close(t, r) == Returned(t, [], None)
  {
  }

  /** Until the last vote arrives, votes are only recorded. */
  lemma {:induction false} Collecting(s: ClientState, n: Uint, choice: map<Id, Id>, order: seq<Id>, k: nat)
    requires Voting(s, n, choice) && Orders(order, s.Known()) && k < |order|
    ensures forall p :: p in order ==> p in choice
    ensures AcceptAll(s, Ballots(n, choice, order)[..k]) == Returned(WithVotes(s, Heard(choice, order[..k])), [], None)
    decreases k
  {
    hide Voting, Orders, Close, Heard, Accept;
    Electors(s, n, choice, order);
    JustVoted(s, n, choice);
    if k == 0 {
      NoneHeard(choice, order);
    } else {
      Collecting(s, n, choice, order, k - 1);
      NextBallot(s, n, choice, order, k - 1);
      HeardFewer(s, n, choice, order, k);
      var t := WithVotes(s, Heard(choice, order[..k]));
      NotYetClosed(t, t.round.value);
    }
  }

  lemma NoneHeard(choice: map<Id, Id>, order: seq<Id>)
    ensures Heard(choice, order[..0]) == map[]
  {
  }

  lemma VotedCloses(s: ClientState, n: Uint, choice: map<Id, Id>, order: seq<Id>)
    requires Voting(s, n, choice) && Orders(order, s.Known()) && order != []
    ensures forall p :: p in order ==> p in choice
    ensures s.round.Some?
    ensures var t := WithVotes(s, choice - {s.id});
      AcceptAll(s, Ballots(n, choice, order)) == Close(t, t.round.value)
  {
    hide Voting, Orders, Close, Heard, Accept, AcceptAll;
    Electors(s, n, choice, order);
    JustVoted(s, n, choice);
    var k := |order| - 1;
    var ballots := Ballots(n, choice, order);
    Collecting(s, n, choice, order, k);
    NextBallot(s, n, choice, order, k);
    assert order[..k + 1] == order && ballots[..k + 1] == ballots;
    HeardAll(s, n, choice, order);
  }

  // ----- Taking part in a round -----

  predicate InRound(s: ClientState, n: Uint) {
    s.round.Some? && s.round.value.n == n
  }

  function HeardOf(s: ClientState, n: Uint): map<Id, Id> {
    if InRound(s, n) then s.round.value.votes else map[]
  }

  /**
    * A client that takes part in round n, with the votes of order still to come: it has voted,
    * and heard some of the votes, or the first vote that reaches it will make it vote.
    */
  ghost predicate Entering(s: ClientState, n: Uint, choice: map<Id, Id>, order: seq<Id>) {
    && Member(s, choice) && n < UINT_MAX && order != [] && Orders(order, s.Known() - HeardOf(s, n).Keys)
    && (forall p :: p in HeardOf(s, n) ==> p in s.Known() && p in choice && HeardOf(s, n)[p] == choice[p])
    && if InRound(s, n) then s.round.value.mine == choice[s.id] && s.next == n + 1
       else Choice(s) == choice[s.id] && if s.round.None? then s.next <= n else s.round.value.n < n
  }

  /** The client when it has just voted in round n. */
  function Entered(s: ClientState, n: Uint, choice: map<Id, Id>): ClientState
    requires s.id in choice && n < UINT_MAX
  {
    s.(round := Some(VoteRound(n, choice[s.id], map[])), next := n + 1)
  }

  /** The votes it still casts to get there: a client in no round starts its own next one first. */
  function EntryCast(s: ClientState, n: Uint, choice: map<Id, Id>): seq<LeaderVote>
    requires s.id in choice
  {
    if InRound(s, n) then []
    else if s.round.None? && s.next < n then
      [LeaderVote(s.next, choice[s.id], s.id), LeaderVote(n, choice[s.id], s.id)]
    else [LeaderVote(n, choice[s.id], s.id)]
  }

  lemma VotingEnters(s: ClientState, n: Uint, choice: map<Id, Id>, order: seq<Id>)
    requires Voting(s, n, choice) && Orders(order, s.Known()) && order != [] && n < UINT_MAX
    ensures Entering(s, n, choice, order) && Entered(s, n, choice) == s && EntryCast(s, n, choice) == []
  {
    hide Shape, Orders;
    assert HeardOf(s, n).Keys == {};
    assert s.Known() - {} == s.Known();
  }

  lemma Entrants(s: ClientState, n: Uint, choice: map<Id, Id>, order: seq<Id>)
    requires Entering(s, n, choice, order)
    ensures forall p :: p in order ==> p in choice && p != s.id
    ensures s.id in choice && n < UINT_MAX && order != [] && (s.leader.Some? || s.peers != map[])
    ensures Voting(Entered(s, n, choice), n, choice)
  {
    hide Choice;
    forall p | p in order
      ensures p in choice && p != s.id
    {
      assert p in s.Known() - HeardOf(s, n).Keys;
    }
    assert order[0] in s.Known();
    assert Entered(s, n, choice).Known() == s.Known();
  }

  lemma SameChoice(s: ClientState, t: ClientState)
    requires s == t.(round := s.round, next := s.next)
    ensures Choice(s) == Choice(t)
  {
    assert s.Candidates() == t.Candidates() && s.Directors() == t.Directors();
  }

  lemma StartsNext(s: ClientState, choice: map<Id, Id>)
    requires s.leader.Some? || s.peers != map[]
    requires s.id in choice && Choice(s) == choice[s.id] && s.next < UINT_MAX
    ensures ElectNew(s) == (Entered(s, s.next, choice), [LeaderVote(s.next, choice[s.id], s.id)])
  {
    hide Choice;
  }

  /** The first vote of the round makes the client vote, and is then recorded as if it had voted before. */
  lemma FirstBallot(s: ClientState, n: Uint, choice: map<Id, Id>, b: LeaderVote)
    requires s.id in choice && Choice(s) == choice[s.id] && n < UINT_MAX && b.n == n && !InRound(s, n)
    requires s.leader.Some? || s.peers != map[]
    requires if s.round.None? then s.next <= n else s.round.value.n < n
    ensures Accept(s, b, 2) == After(EntryCast(s, n, choice), Accept(Entered(s, n, choice), b, 2))
  {
    hide Choice, ElectNew, Record;
    if s.round.None? && s.next < n {
      FirstBallotLate(s, n, choice, b);
    } else {
      SameChoice(Catching(s, b), s);
      StartsNext(Catching(s, b), choice);
    }
  }

  /** In no round, and with a counter below n, the client starts a round of its own first. */
  lemma FirstBallotLate(s: ClientState, n: Uint, choice: map<Id, Id>, b: LeaderVote)
    requires s.id in choice && Choice(s) == choice[s.id] && s.next < n < UINT_MAX && b.n == n && s.round.None?
    requires s.leader.Some? || s.peers != map[]
    ensures Accept(s, b, 2)
         == After([LeaderVote(s.next, choice[s.id], s.id), LeaderVote(n, choice[s.id], s.id)], Accept(Entered(s, n, choice), b, 2))
  {
    hide Choice, ElectNew, Record;
    var mine, later := [LeaderVote(s.next, choice[s.id], s.id)], [LeaderVote(n, choice[s.id], s.id)];
    var t, u := Entered(s, s.next, choice), Entered(s, n, choice);
    StartsNext(s, choice);
    SameChoice(Catching(t, b), s);
    StartsNext(Catching(t, b), choice);
    assert Accept(s, b, 2) == After(mine, Accept(t, b, 1));
    assert Accept(t, b, 1) == After(later, Accept(u, b, 0));
    assert Accept(u, b, 0) == Accept(u, b, 2);
    AfterTwice(mine, later, Accept(u, b, 2));
  }

  lemma AfterTwice(a: seq<LeaderVote>, b: seq<LeaderVote>, out: Outcome)
    ensures After(a, After(b, out)) == After(a + b, out)
  {
    if out.Returned? {
      assert a + (b + out.cast) == a + b + out.cast;
    }
  }

  lemma {:induction false} AcceptAllAfter(s: ClientState, t: ClientState, e: seq<LeaderVote>, ballots: seq<LeaderVote>)
    requires ballots != [] && Accept(s, ballots[0], 2) == After(e, Accept(t, ballots[0], 2))
    ensures AcceptAll(s, ballots) == After(e, AcceptAll(t, ballots))
    decreases |ballots|
  {
    hide Accept;
    var n := |ballots| - 1;
    if n == 0 {
      NoneBefore(Accept(s, ballots[0], 2));
      NoneBefore(Accept(t, ballots[0], 2));
    } else {
      assert ballots[..n][0] == ballots[0];
      AcceptAllAfter(s, t, e, ballots[..n]);
      var out := AcceptAll(t, ballots[..n]);
      if out.Returned? {
        AfterTwice(e, out.cast, Accept(out.client, ballots[n], 2));
      }
    }
  }

  /** Votes that are only recorded can be served before all others. */
  lemma {:induction false} AcceptAllSplit(s: ClientState, t: ClientState, xs: seq<LeaderVote>, ys: seq<LeaderVote>)
    requires AcceptAll(s, xs) == Returned(t, [], None)
    ensures AcceptAll(s, xs + ys) == AcceptAll(t, ys)
    decreases |ys|
  {
    hide Accept;
    if ys == [] {
      assert xs + ys == xs;
    } else {
      var n := |ys| - 1;
      assert (xs + ys)[..|xs + ys| - 1] == xs + ys[..n];
      AcceptAllSplit(s, t, xs, ys[..n]);
    }
  }

  lemma {:induction false} SomeOrder(ids: set<Id>) returns (order: seq<Id>)
    ensures Orders(order, ids)
    decreases |ids|
  {
    if ids == {} {
      order := [];
    } else {
      var k :| k in ids;
      var front := SomeOrder(ids - {k});
      order := front + [k];
      forall j
        ensures j in ids <==> j in order
      {
        assert j in ids <==> j in ids - {k} || j == k;
      }
    }
  }

  lemma OrdersTogether(h: seq<Id>, order: seq<Id>, heard: set<Id>, ids: set<Id>)
    requires Orders(h, heard) && Orders(order, ids - heard) && heard <= ids
    ensures Orders(h + order, ids)
  {
    var all := h + order;
    forall i, j | 0 <= i < j < |all|
      ensures all[i] != all[j]
    {
      if i < |h| <= j {
        assert h[i] in heard && order[j - |h|] in ids - heard;
      }
    }
    forall k
      ensures k in ids <==> k in all
    {
      assert k in ids <==> k in heard || k in ids - heard;
    }
  }

  /** Having heard some of the votes is having just voted and served those first. */
  lemma PartWay(s: ClientState, n: Uint, choice: map<Id, Id>, order: seq<Id>) returns (h: seq<Id>)
    requires Entering(s, n, choice, order) && InRound(s, n)
    ensures s.id in choice && n < UINT_MAX
    ensures Orders(h + order, s.Known()) && forall p :: p in h + order ==> p in choice
    ensures AcceptAll(s, Ballots(n, choice, order)) == AcceptAll(Entered(s, n, choice), Ballots(n, choice, h + order))
  {
    hide Shape, Orders, AcceptAll, Voting, Choice;
    var t, heard := Entered(s, n, choice), HeardOf(s, n);
    Entrants(s, n, choice, order);
    h := SomeOrder(heard.Keys);
    OrdersTogether(h, order, heard.Keys, s.Known());
    assert t.Known() == s.Known();
    Electors(t, n, choice, h + order);
    HeardIs(choice, heard, h, order);
    HeardFirst(t, s, n, choice, h, order);
  }

  lemma HeardFirst(t: ClientState, s: ClientState, n: Uint, choice: map<Id, Id>, h: seq<Id>, order: seq<Id>)
    requires Voting(t, n, choice) && Orders(h + order, t.Known()) && order != []
    requires t.round.Some? && s == WithVotes(t, Heard(choice, (h + order)[..|h|]))
    ensures forall p :: p in h + order ==> p in choice
    ensures AcceptAll(s, Ballots(n, choice, order)) == AcceptAll(t, Ballots(n, choice, h + order))
  {
    hide Voting, Orders, AcceptAll, Heard;
    Electors(t, n, choice, h + order);
    Collecting(t, n, choice, h + order, |h|);
    var all := Ballots(n, choice, h + order);
    assert all == all[..|h|] + Ballots(n, choice, order);
    AcceptAllSplit(t, s, all[..|h|], Ballots(n, choice, order));
  }

  lemma HeardIs(choice: map<Id, Id>, heard: map<Id, Id>, h: seq<Id>, order: seq<Id>)
    requires Orders(h, heard.Keys) && forall p :: p in heard ==> p in choice && heard[p] == choice[p]
    ensures Heard(choice, (h + order)[..|h|]) == heard
  {
    assert (h + order)[..|h|] == h;
  }

  /**
    * The last vote closes the round, whatever the order in which the votes came, whether the
    * client had voted before or entered the round because of one of them.
    */
  lemma Closing(s: ClientState, n: Uint, choice: map<Id, Id>, order: seq<Id>)
    requires Entering(s, n, choice, order)
    ensures forall p :: p in order ==> p in choice
    ensures s.id in choice && n < UINT_MAX
    ensures var t := WithVotes(Entered(s, n, choice), choice - {s.id});
      AcceptAll(s, Ballots(n, choice, order)) == After(EntryCast(s, n, choice), Close(t, t.round.value))
  {
    hide Shape, Orders, Close, AcceptAll, Accept, Choice, Voting;
    Entrants(s, n, choice, order);
    var u, ballots := Entered(s, n, choice), Ballots(n, choice, order);
    assert u.Known() == s.Known();
    if InRound(s, n) {
      var h := PartWay(s, n, choice, order);
      VotedCloses(u, n, choice, h + order);
      var t := WithVotes(u, choice - {s.id});
      NoneBefore(Close(t, t.round.value));
    } else {
      assert HeardOf(s, n).Keys == {};
      assert s.Known() - {} == s.Known();
      FirstBallot(s, n, choice, ballots[0]);
      AcceptAllAfter(s, u, EntryCast(s, n, choice), ballots);
      VotedCloses(u, n, choice, order);
    }
  }

  // ----- The end of an election -----

  /** The client has no vote round, and w is its leader, or it is w and leads. */
  predicate Settled(s: ClientState, w: Id) {
    && s.round.None?
    && if w == s.id then s.isLeader && s.leader.None? else !s.isLeader && s.leader.Some? && s.leader.value.id == w
  }

  /** The client leads already, and another member has won. */
  predicate Deposed(s: ClientState, w: Id) {
    s.isLeader && w != s.id
  }

  /** Round n makes the client settle on w, or brings it down if it led and w is another. */
  ghost predicate SettledBy(s: ClientState, n: Uint, w: Id, e: seq<LeaderVote>, out: Outcome) {
    if Deposed(s, w) then out.Panicked?
    else
      && out.Returned? && out.cast == e && out.elections == 0 && out.client.id == s.id && Settled(out.client, w)
      && out.concluded == Some(Conclusion(s.id, n, w, s.Known(), s.Known()))
  }

  lemma AlikeSettles(s: ClientState, n: Uint, choice: map<Id, Id>, order: seq<Id>)
    requires Entering(s, n, choice, order) && AllAlike(choice)
    requires s.id in choice && choice[s.id] in choice
    ensures forall p :: p in order ==> p in choice
    ensures SettledBy(s, n, choice[s.id], EntryCast(s, n, choice), AcceptAll(s, Ballots(n, choice, order)))
  {
    hide Tally, Leading, AcceptAll, Orders, Accept, Choice, EntryCast;
    Entrants(s, n, choice, order);
    Closing(s, n, choice, order);
    SameTally(choice, s.id);
    var u := Entered(s, n, choice);
    var t := WithVotes(u, choice - {s.id});
    assert (choice - {s.id}).Keys == choice.Keys - {s.id};
    assert u.Known() == s.Known();
    assert |choice - {s.id}| == t.PeerCount() by {
      assert |choice - {s.id}| == |(choice - {s.id}).Keys|;
      CountKnown(u);
    }
    ConcludeSettles(u, t, t.round.value);
    assert EntryCast(s, n, choice) + [] == EntryCast(s, n, choice);
  }

  lemma ConcludeSettles(s: ClientState, t: ClientState, r: VoteRound)
    requires Shape(s) && t == s.(round := Some(r)) && r.votes.Keys == s.Known()
    requires r.mine in s.Known() || r.mine == s.id
    ensures SettledBy(s, r.n, r.mine, [], Conclude(t, r))
  {
    assert t.Known() == s.Known();
  }

  ghost predicate VotesAgain(s: ClientState, n: Uint, w: Id, e: seq<LeaderVote>, choice: map<Id, Id>, out: Outcome)
    requires n < UINT_MAX
  {
    && out.Returned? && out.cast == e + [LeaderVote(n + 1, w, s.id)] && out.concluded.None? && out.elections == 0
    && out.client == s.(round := out.client.round, next := out.client.next) && Voting(out.client, n + 1, choice)
  }

  /** The choice of everybody in the next round. */
  function Everybody(choice: map<Id, Id>, w: Id): map<Id, Id> {
    map p | p in choice :: w
  }

  lemma SplitVotesAgain(s: ClientState, n: Uint, choice: map<Id, Id>, order: seq<Id>)
    requires Entering(s, n, choice, order) && !AllAlike(choice) && n + 1 < UINT_MAX
    ensures forall p :: p in order ==> p in choice
    ensures s.id in choice
    ensures VotesAgain(s, n, Winner(choice), EntryCast(s, n, choice), Everybody(choice, Winner(choice)),
                       AcceptAll(s, Ballots(n, choice, order)))
  {
    hide Tally, AcceptAll, Orders, Accept, Conclude, IsLeading, Shape, Choice, EntryCast;
    Entrants(s, n, choice, order);
    Closing(s, n, choice, order);
    SameTally(choice, s.id);
    var w, u := Winner(choice), Entered(s, n, choice);
    var t := WithVotes(u, choice - {s.id});
    assert Leading(Tally(choice[s.id], choice - {s.id})) == w;
    assert |choice - {s.id}| == u.PeerCount() by {
      assert (choice - {s.id}).Keys == u.Known();
      CountKnown(u);
    }
    RoundReplaced(s, t, n, choice, w);
  }

  lemma RoundReplaced(s: ClientState, t: ClientState, n: Uint, choice: map<Id, Id>, w: Id)
    requires Member(s, choice) && n + 1 < UINT_MAX
    requires t.round.Some? && t == s.(round := t.round, next := n + 1) && (s.leader.Some? || s.peers != map[])
    ensures var (u, cast) := ElectSpecific(t, w);
      VotesAgain(s, n, w, [], Everybody(choice, w), Returned(u, cast, None))
  {
    var (u, cast) := ElectSpecific(t, w);
    assert Everybody(choice, w).Keys == choice.Keys;
    assert u.Known() == s.Known();
    assert [] + cast == cast;
  }

  /** Convergence, when exactly the votes of the two rounds are served. */
  lemma TimelyConverges(s: ClientState, n: Uint, choice: map<Id, Id>, order: seq<Id>, nextOrder: seq<Id>)
    requires Entering(s, n, choice, order) && n + 1 < UINT_MAX && choice != map[] && Winner(choice) in choice
    requires Orders(nextOrder, s.Known())
    ensures forall p :: p in order ==> p in choice
    ensures forall p :: p in nextOrder ==> p in choice
    ensures s.id in choice
    ensures var w, e := Winner(choice), EntryCast(s, n, choice);
      var first := AcceptAll(s, Ballots(n, choice, order));
      if AllAlike(choice) then SettledBy(s, n, w, e, first)
      else
        && VotesAgain(s, n, w, e, Everybody(choice, w), first)
        && SettledBy(first.client, n + 1, w, [], AcceptAll(first.client, Ballots(n + 1, Everybody(choice, w), nextOrder)))
  {
    hide AcceptAll, Entering, Shape, Orders, Settled, EntryCast;
    Entrants(s, n, choice, order);
    NextElectors(s, n, choice, order, nextOrder);
    var w := Winner(choice);
    if AllAlike(choice) {
      WinnerOfAlike(choice, s.id);
      AlikeSettles(s, n, choice, order);
    } else {
      SplitVotesAgain(s, n, choice, order);
      var first := AcceptAll(s, Ballots(n, choice, order));
      assert first.client.Known() == s.Known();
      VotingEnters(first.client, n + 1, Everybody(choice, w), nextOrder);
      AlikeSettles(first.client, n + 1, Everybody(choice, w), nextOrder);
    }
  }

  /** The votes that are not stale when they are served. */
  ghost function Timely(s: ClientState, served: seq<LeaderVote>): seq<LeaderVote>
    decreases |served|
  {
    if served == [] then []
    else
      var n := |served| - 1;
      var out := AcceptAll(s, served[..n]);
      Timely(s, served[..n]) + if out.Returned? && Stale(out.client, served[n]) then [] else [served[n]]
  }

  /** Stale votes, any number of them and anywhere in between, make no difference. */
  lemma {:induction false} StaleChangesNothing(s: ClientState, served: seq<LeaderVote>)
    ensures AcceptAll(s, served) == AcceptAll(s, Timely(s, served))
    decreases |served|
  {
    hide Accept, Stale;
    if served != [] {
      var n := |served| - 1;
      var front, b := Timely(s, served[..n]), served[n];
      StaleChangesNothing(s, served[..n]);
      var out := AcceptAll(s, served[..n]);
      assert (front + [b])[..|front|] == front && front + [] == front;
      if out.Returned? && Stale(out.client, b) {
        ThenStale(out, b);
      }
    }
  }

  lemma ThenStale(out: Outcome, b: LeaderVote)
    requires out.Returned? && Stale(out.client, b)
    ensures Then(out, b) == out
  {
    StaleVoteIsIgnored(out.client, b, 2);
    assert out.cast + [] == out.cast;
  }

  /**
    * Convergence. With every vote of round n served before any vote of the next, in any order
    * and with any number of stale votes among them,
    * a client settles on the winner, or votes for it and settles on it in round n + 1, if the
    * others vote for it too, as the same statement says they do. A client that leads already
    * stays leader if it wins, and panics in the last round if another does. The winner must be
    * one of the electorate; LostLeader has the other case.
    */
  lemma ElectionConverges(s: ClientState, n: Uint, choice: map<Id, Id>, order: seq<Id>, nextOrder: seq<Id>,
                          served: seq<LeaderVote>, nextServed: seq<LeaderVote>)
    requires Entering(s, n, choice, order) && n + 1 < UINT_MAX && choice != map[] && Winner(choice) in choice
    requires Orders(nextOrder, s.Known()) && forall p :: p in order + nextOrder ==> p in choice
    requires Timely(s, served) == Ballots(n, choice, order)
    requires !AllAlike(choice) && AcceptAll(s, served).Returned? ==>
      Timely(AcceptAll(s, served).client, nextServed) == Ballots(n + 1, Everybody(choice, Winner(choice)), nextOrder)
    ensures s.id in choice
    ensures var w, e := Winner(choice), EntryCast(s, n, choice);
      var first := AcceptAll(s, served);
      if AllAlike(choice) then SettledBy(s, n, w, e, first)
      else
        && VotesAgain(s, n, w, e, Everybody(choice, w), first)
        && SettledBy(first.client, n + 1, w, [], AcceptAll(first.client, nextServed))
  {
    hide AcceptAll, Entering, Shape, Orders, Settled, EntryCast, Winner, Timely;
    TimelyConverges(s, n, choice, order, nextOrder);
    StaleChangesNothing(s, served);
    if !AllAlike(choice) {
      StaleChangesNothing(AcceptAll(s, served).client, nextServed);
    }
  }

  lemma NextElectors(s: ClientState, n: Uint, choice: map<Id, Id>, order: seq<Id>, nextOrder: seq<Id>)
    requires Entering(s, n, choice, order) && Orders(nextOrder, s.Known())
    ensures nextOrder != [] && forall p :: p in nextOrder ==> p in choice
  {
    hide Choice, Shape;
    Entrants(s, n, choice, order);
    assert order[0] in s.Known() - HeardOf(s, n).Keys;
    assert order[0] in nextOrder;
    forall p | p in nextOrder
      ensures p in choice
    {
      assert p in s.Known();
    }
  }

  /** What becomes of a client in an election, with all the votes that it casts. */
  ghost function Elected(s: ClientState, n: Uint, choice: map<Id, Id>, order: seq<Id>, nextOrder: seq<Id>): Outcome
    requires n < UINT_MAX && choice != map[]
    requires forall p :: p in order + nextOrder ==> p in choice
  {
    var first := AcceptAll(s, Ballots(n, choice, order));
    if AllAlike(choice) || !first.Returned? then first
    else After(first.cast, AcceptAll(first.client, Ballots(n + 1, Everybody(choice, Winner(choice)), nextOrder)))
  }

  /** The election is over for the client, and it has settled on w, or has panicked because it led and w is another. */
  ghost predicate Ended(s: ClientState, w: Id, out: Outcome) {
    if Deposed(s, w) then out.Panicked?
    else out.Returned? && out.elections == 0 && out.concluded.Some? && out.client.id == s.id && Settled(out.client, w)
  }

  lemma ConvergesToEnded(s: ClientState, n: Uint, choice: map<Id, Id>, order: seq<Id>, nextOrder: seq<Id>)
    requires Entering(s, n, choice, order) && n + 1 < UINT_MAX && choice != map[] && Winner(choice) in choice
    requires Orders(nextOrder, s.Known())
    ensures forall p :: p in order + nextOrder ==> p in choice
    ensures Ended(s, Winner(choice), Elected(s, n, choice, order, nextOrder))
  {
    hide AcceptAll, Entering, Orders, Settled, Winner, Voting, EntryCast;
    TimelyConverges(s, n, choice, order, nextOrder);
  }

  /**
    * Of all clients of the electorate, the winner ends up leader, and all others follow it,
    * except one that led before and did not win: it panics.
    */
  lemma ExactlyOneLeads(
      clients: map<Id, ClientState>, n: Uint, choice: map<Id, Id>,
      orders: map<Id, seq<Id>>, nextOrders: map<Id, seq<Id>>)
    requires n + 1 < UINT_MAX && clients.Keys == orders.Keys == nextOrders.Keys == choice.Keys && choice != map[]
    requires Winner(choice) in choice
    requires forall i :: i in clients ==>
      clients[i].id == i && Entering(clients[i], n, choice, orders[i]) && Orders(nextOrders[i], clients[i].Known())
    ensures Winner(choice) in clients
    ensures forall i :: i in clients ==> forall p :: p in orders[i] + nextOrders[i] ==> p in choice
    ensures forall i :: i in clients ==>
      Ended(clients[i], Winner(choice), Elected(clients[i], n, choice, orders[i], nextOrders[i]))
  {
    hide Elected, Entering, Orders, Winner, Ended;
    forall i | i in clients
      ensures forall p :: p in orders[i] + nextOrders[i] ==> p in choice
      ensures Ended(clients[i], Winner(choice), Elected(clients[i], n, choice, orders[i], nextOrders[i]))
    {
      ConvergesToEnded(clients[i], n, choice, orders[i], nextOrders[i]);
    }
  }
}
