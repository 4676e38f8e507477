/**
  * The client object of WeTube and its actor's operations, each against what Election and
  * Roster say it does to the client's state.
  */
module WeTubeClient {
  import opened Wrappers
  import opened Members
  import E = Election
  import R = Roster
  import A = Agreement

  class Peer {
    const id: Id
    var name: string
    var address: string
    var rank: Rank
    /** How often something was sent on the peer's CloseChannel. */
    var closeSignals: nat

    constructor (entry: Entry)
      ensures id == entry.id && Info() == entry && closeSignals == 0
    {
      id, name, address, rank, closeSignals := entry.id, entry.name, entry.address, entry.rank, 0;
    }

    /** Tells the goroutine that serves the peer's connection to close it. */
    method Close()
      modifies `closeSignals
      ensures closeSignals == old(closeSignals) + 1
    {
      closeSignals := closeSignals + 1;
    }

    method Rename(entry: Entry)
      modifies `name, `rank
      ensures name == entry.name && rank == entry.rank
    {
      name := entry.name;
      rank := entry.rank;
    }

    /** A blank name or address stays as it was. */
    method Update(entry: Entry)
      modifies `name, `address, `rank
      ensures address == if entry.address != "" then entry.address else old(address)
      ensures name == (if entry.name != "" then entry.name else old(name)) && rank == entry.rank
    {
      if entry.name != "" {
        name := entry.name;
      }
      if entry.address != "" {
        address := entry.address;
      }
      rank := entry.rank;
    }

    function Info(): Entry
      reads this
    {
      Entry(id, name, address, rank)
    }
  }

  function InfoOf(peer: Peer?): Option<Entry>
    reads peer
  {
    if peer == null then None else Some(peer.Info())
  }

  lemma SamePeers(peers: map<Id, Peer>, infos: map<Id, Entry>)
    requires peers.Keys == infos.Keys
    ensures |peers| == |infos| && (|peers| == 0 <==> infos == map[])
  {
    assert |peers| == |peers.Keys| && |infos| == |infos.Keys|;
  }

  class Client {
    const id: Id
    var name: string
    var rank: Rank
    var isLeader: bool
    var leader: Peer?
    var peers: map<Id, Peer>
    var voteRound: Option<E.VoteRound>
    var nextVoteRoundN: Uint
    /** The votes broadcast so far. */
    var cast: seq<E.LeaderVote>
    /** How often it has asked its own actor for another election. */
    var electRequests: nat
    /** The rounds concluded so far. */
    ghost var concluded: seq<E.Conclusion>

    /** The state as Election and Roster see it. */
    ghost var state: E.ClientState
    /** At least the objects of all peers. */
    ghost var repr: set<Peer>

    ghost predicate Valid()
      reads this, leader, repr
    {
      && Filed()
      && (forall k :: k in peers ==> peers[k] != leader)
      && state == E.ClientState(id, name, rank, isLeader, InfoOf(leader), state.peers, voteRound, nextVoteRoundN)
      && state.peers.Keys == peers.Keys
      && (forall k :: k in peers ==> peers[k] in repr && state.peers[k] == peers[k].Info())
    }

    /** Peers are filed under their IDs. */
    ghost predicate Filed()
      reads this
    {
      forall k :: k in peers ==> peers[k].id == k
    }

    constructor (id: Id)
      ensures this.id == id && Valid() && cast == [] && concluded == [] && electRequests == 0
      ensures state == E.ClientState(id, "", Unknown, false, None, map[], None, 0)
    {
      this.id := id;
      name, rank, isLeader, leader, peers := "", Unknown, false, null, map[];
      voteRound, nextVoteRoundN := None, 0;
      cast, concluded, electRequests := [], [], 0;
      state := E.ClientState(id, "", Unknown, false, None, map[], None, 0);
      repr := {};
    }

    method BecomeLeader()
      requires Valid()
      modifies this, leader
      ensures Valid() && state == E.BecomeLeader(old(state))
      ensures rank == Director && isLeader && leader == (if old(isLeader) then old(leader) else null)
      ensures name == old(name) && voteRound == old(voteRound) && nextVoteRoundN == old(nextVoteRoundN)
      ensures peers == old(peers) && repr == old(repr) && cast == old(cast) && concluded == old(concluded)
      ensures electRequests == old(electRequests)
      ensures old(leader) != null ==> old(leader).closeSignals == old(leader.closeSignals) + if old(isLeader) then 0 else 1
      ensures old(leader) != null ==> old(leader).Info() == old(leader.Info())
    {
      rank := Director;
      if !isLeader {
        if leader != null {
          leader.Close();
          leader := null;
        }
        isLeader := true;
      }
      state := E.BecomeLeader(state);
    }

    method SetLeader(newLeader: Peer?) returns (panicked: bool)
      requires Valid()
      modifies this, leader
      ensures panicked <==> E.SetLeader(old(state), old(InfoOf(newLeader))).None?
      ensures Valid()
      ensures !panicked ==> state == E.SetLeader(old(state), old(InfoOf(newLeader))).value
      ensures panicked ==> state == old(state)
      ensures newLeader == null ==> !panicked && leader == null && peers == old(peers)
      ensures newLeader != null && old(isLeader) ==>
        (panicked <==> newLeader.id != id) && leader == old(leader) && peers == old(peers)
      ensures newLeader != null && !old(isLeader) ==>
        && !panicked && leader != null && leader.id == newLeader.id && peers == old(peers) - {newLeader.id}
        && leader == (if newLeader.id in old(peers) then old(peers[newLeader.id]) else newLeader)
      ensures isLeader == old(isLeader) && rank == old(rank) && name == old(name)
      ensures voteRound == old(voteRound) && nextVoteRoundN == old(nextVoteRoundN)
      ensures repr == old(repr) && cast == old(cast) && concluded == old(concluded) && electRequests == old(electRequests)
      ensures old(leader) != null ==>
        old(leader).closeSignals == old(leader.closeSignals) + if newLeader != null && old(isLeader) then 0 else 1
      ensures old(leader) != null ==> old(leader).Info() == old(leader.Info())
      ensures forall k :: k in peers ==> k in old(peers) && peers[k] == old(peers[k])
    {
      if newLeader == null {
        if leader != null {
          leader.Close();
        }
        leader := null;
        state := state.(leader := None);
        return false;
      }
      if isLeader {
        return newLeader.id != id;
      }
      TakeLeader(newLeader);
      return false;
    }

    /** The new leader moves out of the peers, if it is one, and the old one is told to close. */
    method TakeLeader(newLeader: Peer)
      requires Valid() && !isLeader
      modifies `leader, `peers, `state, LeaderObject()`closeSignals
      ensures Valid()
      ensures E.SetLeader(old(state), Some(old(newLeader.Info()))) == Some(state)
      ensures leader != null && leader.id == newLeader.id && peers == old(peers) - {newLeader.id}
      ensures leader == (if newLeader.id in old(peers) then old(peers[newLeader.id]) else newLeader)
      ensures old(leader) != null ==> old(leader).closeSignals == old(leader.closeSignals) + 1
    {
      var next := newLeader;
      if next.id in peers {
        next := peers[next.id];
        peers := peers - {next.id};
      }
      if leader != null {
        leader.Close();
      }
      leader := next;
      state := E.SetLeader(state, Some(newLeader.Info())).value;
    }

    method ElectSpecificLeader(vote: Id)
      requires Valid()
      modifies this, leader
      ensures Valid()
      ensures state == E.ElectSpecific(old(state), vote).0 && cast == old(cast) + E.ElectSpecific(old(state), vote).1
      ensures peers == old(peers) && repr == old(repr) && concluded == old(concluded) && electRequests == old(electRequests)
      ensures leader == null || (leader == old(leader) && leader.Info() == old(leader.Info()))
      ensures if old(leader) == null && |old(peers)| == 0 && vote == id then
                isLeader && rank == Director && cast == old(cast)
                && voteRound == old(voteRound) && nextVoteRoundN == old(nextVoteRoundN)
              else
                && voteRound == Some(E.VoteRound(old(nextVoteRoundN), vote, map[]))
                && nextVoteRoundN == (if old(nextVoteRoundN) == UINT_MAX then 0 else old(nextVoteRoundN) + 1)
                && cast == old(cast) + [E.LeaderVote(old(nextVoteRoundN), vote, id)]
                && isLeader == old(isLeader) && leader == old(leader) && rank == old(rank)
    {
      SamePeers(peers, state.peers);
      if leader == null && |peers| == 0 && vote == id {
        BecomeLeader();
        return;
      }
      StartRound(vote);
    }

    method StartRound(vote: Id)
      requires Valid() && !(state.leader.None? && state.peers == map[] && vote == id)
      modifies `voteRound, `nextVoteRoundN, `cast, `state
      ensures Valid()
      ensures state == E.ElectSpecific(old(state), vote).0
      ensures cast == old(cast) + [E.LeaderVote(old(nextVoteRoundN), vote, id)]
      ensures E.ElectSpecific(old(state), vote).1 == [E.LeaderVote(old(nextVoteRoundN), vote, id)]
      ensures voteRound == Some(E.VoteRound(old(nextVoteRoundN), vote, map[]))
      ensures nextVoteRoundN == if old(nextVoteRoundN) == UINT_MAX then 0 else old(nextVoteRoundN) + 1
    {
      state := E.ElectSpecific(state, vote).0;
      voteRound := Some(E.VoteRound(nextVoteRoundN, vote, map[]));
      cast := cast + [E.LeaderVote(nextVoteRoundN, vote, id)];
      nextVoteRoundN := if nextVoteRoundN == UINT_MAX then 0 else nextVoteRoundN + 1;
    }

    method ElectNewLeader()
      requires Valid()
      modifies this, leader
      ensures Valid()
      ensures state == E.ElectNew(old(state)).0 && cast == old(cast) + E.ElectNew(old(state)).1
      ensures peers == old(peers) && repr == old(repr) && concluded == old(concluded) && electRequests == old(electRequests)
      ensures leader == null || (leader == old(leader) && leader.Info() == old(leader.Info()))
    {
      if leader != null {
        ElectSpecificLeader(leader.id);
        return;
      }
      var min := LowestCandidate();
      ElectSpecificLeader(min);
    }

    /** The choice of electNewLeader without a leader. */
    method LowestCandidate() returns (min: Id)
      requires Valid() && leader == null
      ensures min == E.Choice(state)
      ensures rank == Director ==>
        && (min == id || (min in peers && peers[min].rank == Director)) && min <= id
        && forall k :: k in peers && peers[k].rank == Director ==> min <= k
      ensures rank != Director ==> (min == id || min in peers) && min <= id && forall k :: k in peers ==> min <= k
    {
      min := LowestDirector();
      if rank == Director {
        DirectorsLeast(min);
      }
      if min == MIN_ID {
        min := LowestMember();
        assert state.Candidates() == {id} + peers.Keys;
        LeastOfMore(min, state.Directors(), state.Candidates());
      }
    }

    /** Its first loop, over the peers in any order. */
    method LowestDirector() returns (min: Id)
      requires Valid() && leader == null
      ensures if rank == Director then LeastDirector(min, peers.Keys) else min == MIN_ID
    {
      min := MIN_ID;
      if rank == Director {
        min := id;
      }
      var rest := peers.Keys;
      ghost var seen: set<Id> := {};
      while rest != {}
        invariant rest + seen == peers.Keys
        invariant if rank == Director then LeastDirector(min, seen) else min == MIN_ID
        decreases |rest|
      {
        var k :| k in rest;
        if peers[k].rank == Director && peers[k].id < min {
          min := peers[k].id;
        }
        rest, seen := rest - {k}, seen + {k};
      }
      assert seen == peers.Keys;
    }

    /** The least ID among the client, a Director, and the Directors seen. */
    ghost predicate LeastDirector(min: Id, seen: set<Id>)
      reads this, repr
      requires Filed() && seen <= peers.Keys && forall k :: k in peers ==> peers[k] in repr
    {
      && (min == id || (min in seen && peers[min].rank == Director)) && min <= id
      && forall k :: k in seen && peers[k].rank == Director ==> min <= k
    }

    lemma DirectorsLeast(min: Id)
      requires Valid() && rank == Director && LeastDirector(min, peers.Keys)
      ensures IsLeast(min, state.Directors())
    {
    }

    /** Its second loop. */
    method LowestMember() returns (min: Id)
      requires Filed()
      ensures IsLeast(min, {id} + peers.Keys)
    {
      min := id;
      var rest := peers.Keys;
      ghost var seen: set<Id> := {};
      while rest != {}
        invariant rest + seen == peers.Keys
        invariant IsLeast(min, {id} + seen)
        decreases |rest|
      {
        var k :| k in rest;
        if peers[k].id < min {
          min := peers[k].id;
        }
        rest, seen := rest - {k}, seen + {k};
      }
      assert seen == peers.Keys;
    }

    /**
      * acceptLeaderVote. It calls itself again after starting a round, and would do so without
      * end for a client that has nobody to vote.
      */
    method AcceptLeaderVote(vote: E.LeaderVote) returns (panicked: bool)
      requires Valid() && !E.Stuck(state, vote)
      modifies this, leader
      ensures panicked <==> E.Accept(old(state), vote, 2).Panicked?
      ensures !panicked ==> Valid() && Follows(E.Accept(old(state), vote, 2), old(cast), old(concluded), old(electRequests))
      ensures old(voteRound).Some? && vote.n < old(voteRound).value.n ==> !panicked && unchanged(this)
      ensures old(voteRound).Some? && vote.n == old(voteRound).value.n ==>
        var votes := old(voteRound).value.votes[vote.sender := vote.vote];
        |votes| < |old(peers)| + (if old(leader) != null then 1 else 0) ==>
          && !panicked && voteRound == Some(E.VoteRound(vote.n, old(voteRound).value.mine, votes)) && cast == old(cast)
          && nextVoteRoundN == old(nextVoteRoundN) && leader == old(leader) && peers == old(peers) && isLeader == old(isLeader)
      ensures forall k :: k in peers ==> k in old(peers) && peers[k] == old(peers[k])
      ensures repr == old(repr)
      decreases E.CallsLeft(state, vote)
    {
      hide E.ElectNew, E.Accept, E.After, E.Record, E.CallsLeft, E.Stuck, Follows, Valid;
      RoundIsState();
      AcceptUnfolds(state, vote);
      ghost var (t, first) := E.ElectNew(E.Catching(state, vote));
      ghost var out := E.Accept(t, vote, 2);
      if voteRound.None? {
        ElectNewLeader();
        panicked := AcceptLeaderVote(vote);
        FollowsAfter(first, out, old(cast), old(concluded), old(electRequests));
      } else if vote.n > voteRound.value.n {
        CatchUp(vote.n);
        ElectNewLeader();
        panicked := AcceptLeaderVote(vote);
        FollowsAfter(first, out, old(cast), old(concluded), old(electRequests));
      } else if vote.n == voteRound.value.n {
        panicked := HearVote(vote);
      } else {
        FollowsNothing();
        panicked := false;
      }
    }

    lemma FollowsAfter(first: seq<E.LeaderVote>, out: E.Outcome, castBefore: seq<E.LeaderVote>, concludedBefore: seq<E.Conclusion>,
        askedBefore: nat)
      ensures E.After(first, out).Panicked? == out.Panicked?
      ensures Follows(out, castBefore + first, concludedBefore, askedBefore) ==>
        Follows(E.After(first, out), castBefore, concludedBefore, askedBefore)
    {
      if out.Returned? {
        assert castBefore + first + out.cast == castBefore + (first + out.cast);
      }
    }

    lemma FollowsNothing()
      ensures Follows(E.Returned(state, [], None), cast, concluded, electRequests)
    {
      assert cast + [] == cast && concluded + [] == concluded;
    }

    /** A vote of the current round is recorded, and ends the round if it was the last. */
    method HearVote(vote: E.LeaderVote) returns (panicked: bool)
      requires Valid() && voteRound.Some? && vote.n == voteRound.value.n && state.round == voteRound
      modifies this, leader
      ensures panicked <==> E.Record(old(state), vote).Panicked?
      ensures !panicked ==> Valid() && Follows(E.Record(old(state), vote), old(cast), old(concluded), old(electRequests))
      ensures
        var votes := old(voteRound).value.votes[vote.sender := vote.vote];
        |votes| < |old(peers)| + (if old(leader) != null then 1 else 0) ==>
          && !panicked && voteRound == Some(E.VoteRound(vote.n, old(voteRound).value.mine, votes)) && cast == old(cast)
          && nextVoteRoundN == old(nextVoteRoundN) && leader == old(leader) && peers == old(peers) && isLeader == old(isLeader)
      ensures forall k :: k in peers ==> k in old(peers) && peers[k] == old(peers[k])
      ensures repr == old(repr)
    {
      hide E.Close, Follows, Valid;
      RecordVote(vote);
      panicked := EndRound(voteRound.value);
    }

    lemma RoundIsState()
      requires Valid()
      ensures state.round == voteRound
    {
    }

    /** The client's next round is to be the vote's. */
    method CatchUp(n: Uint)
      requires Valid()
      modifies `nextVoteRoundN, `state
      ensures Valid() && state == old(state).(next := n)
    {
      nextVoteRoundN := n;
      state := state.(next := n);
    }

    /** A vote of the current round; a later one of the same sender replaces it. */
    method RecordVote(vote: E.LeaderVote)
      requires Valid() && voteRound.Some?
      modifies `voteRound, `state
      ensures Valid() && voteRound == Some(old(voteRound.value).(votes := old(voteRound.value.votes)[vote.sender := vote.vote]))
      ensures state == old(state).(round := voteRound)
    {
      voteRound := Some(voteRound.value.(votes := voteRound.value.votes[vote.sender := vote.vote]));
      state := state.(round := voteRound);
    }

    /** The client is in the state, and has cast the votes, concluded the rounds and asked for the elections, of an outcome. */
    ghost predicate Follows(out: E.Outcome, castBefore: seq<E.LeaderVote>, concludedBefore: seq<E.Conclusion>, askedBefore: nat)
      reads this
    {
      && out.Returned? && state == out.client && cast == castBefore + out.cast
      && concluded == concludedBefore + (if out.concluded.Some? then [out.concluded.value] else [])
      && electRequests == askedBefore + out.elections
    }

    /** Its tail: the round ends once everybody's vote is in. */
    method EndRound(r: E.VoteRound) returns (panicked: bool)
      requires Valid() && voteRound == Some(r)
      modifies this, leader
      ensures |r.votes| < |old(peers)| + (if old(leader) != null then 1 else 0) ==> !panicked && unchanged(this)
      ensures panicked <==> E.Close(old(state), r).Panicked?
      ensures !panicked ==> Valid() && Follows(E.Close(old(state), r), old(cast), old(concluded), old(electRequests))
      ensures forall k :: k in peers ==> k in old(peers) && peers[k] == old(peers[k])
      ensures repr == old(repr)
    {
      hide E.Conclude, E.Tally, E.Unanimous, E.ElectSpecific, E.Close, IsLeading, Leading, Valid;
      PeersCounted();
      CloseCases(state, r);
      var peerCount := |peers| + if leader != null then 1 else 0;
      if |r.votes| < peerCount {
        NothingCast(cast);
        return false;
      }
      var alike, majority := TallyRound(r);
      if alike {
        panicked := ConcludeRound(r);
      } else {
        ElectSpecificLeader(majority);
        panicked := false;
      }
    }

    lemma PeersCounted()
      requires Valid()
      ensures state.PeerCount() == |peers| + (if leader != null then 1 else 0) && state.round == voteRound
    {
      SamePeers(peers, state.peers);
    }

    /** A round in which everybody voted alike. */
    method ConcludeRound(r: E.VoteRound) returns (panicked: bool)
      requires Valid() && voteRound == Some(r)
      modifies this, leader
      ensures panicked <==> E.Conclude(old(state), r).Panicked?
      ensures !panicked ==> Valid() && Follows(E.Conclude(old(state), r), old(cast), old(concluded), old(electRequests))
      ensures forall k :: k in peers ==> k in old(peers) && peers[k] == old(peers[k])
      ensures repr == old(repr)
    {
      hide E.BecomeLeader, E.SetLeader;
      ghost var c := E.Conclusion(id, r.n, r.mine, r.votes.Keys, state.Known());
      if r.mine == id {
        BecomeLeader();
      } else if r.mine in peers {
        panicked := SetLeader(peers[r.mine]);
        if panicked {
          return;
        }
      } else if leader == null || r.mine != leader.id {
        electRequests := electRequests + 1;
        return false;
      }
      FinishRound(c);
      panicked := false;
    }

    method FinishRound(ghost c: E.Conclusion)
      requires Valid()
      modifies `voteRound, `state, `concluded
      ensures Valid() && state == old(state).(round := None) && concluded == old(concluded) + [c]
    {
      voteRound := None;
      state := state.(round := None);
      concluded := concluded + [c];
    }

    // ----- The roster -----

    method DeletePeer(peerId: Id)
      requires Valid()
      modifies `peers, `state
      ensures Valid() && state == R.DeletePeer(old(state), peerId)
      ensures peers == old(peers) - {peerId}
    {
      peers := peers - {peerId};
      state := R.DeletePeer(state, peerId);
    }

    /** The new peer is an object of its own: it is not the leader's, whatever ID it has. */
    method AddPeer(newPeer: Peer)
      requires Valid() && newPeer != leader
      modifies `peers, `repr, `state
      ensures Valid() && state == R.AddPeer(old(state), newPeer.Info())
      ensures peers == if newPeer.id in old(peers) then old(peers) else old(peers)[newPeer.id := newPeer]
    {
      if newPeer.id !in peers {
        peers := peers[newPeer.id := newPeer];
        repr := repr + {newPeer};
      }
      state := R.AddPeer(state, newPeer.Info());
    }

    method UpdatePeer(entry: Entry)
      requires Valid()
      modifies this`state, repr`name, repr`address, repr`rank
      ensures Valid() && state == R.UpdatePeer(old(state), entry)
      ensures entry.id in peers ==>
        var p := peers[entry.id];
        && p.name == (if entry.name != "" then entry.name else old(p.name))
        && p.address == (if entry.address != "" then entry.address else old(p.address)) && p.rank == entry.rank
      ensures forall k :: k in peers && k != entry.id ==> peers[k].Info() == old(peers[k].Info())
    {
      if entry.id in peers {
        peers[entry.id].Update(entry);
      }
      state := R.UpdatePeer(state, entry);
    }

    /** The roster that answers a request for it, every slot filled, the peers in any order. */
    method GetRoster() returns (roster: seq<Entry>)
      requires Valid()
      ensures R.IsRoster(roster, state)
      ensures |roster| == 1 + (if leader == null then 0 else 1) + |peers|
      ensures roster[0] == Entry(id, name, "", rank) && (leader != null ==> roster[1] == leader.Info())
      ensures forall k :: k in peers ==> peers[k].Info() in roster
    {
      hide R.Orders, R.Lists, Parted, Filled;
      var slots := seq(|peers|, _ => NO_ENTRY);
      ghost var order: seq<Id> := [];
      var i := 0;
      var rest := peers.Keys;
      ghost var seen: set<Id> := {};
      PartedStart(peers.Keys);
      NothingOrdered(slots, state.peers);
      while rest != {}
        invariant Parted(peers.Keys, seen, rest) && R.Orders(order, seen)
        invariant |order| == i && i + |rest| == |peers| == |slots|
        invariant Filled(slots, order, state.peers)
        decreases |rest|
      {
        var k :| k in rest;
        PartedStep(peers.Keys, seen, rest, k);
        OrdersMore(order, seen, k);
        FilledMore(slots, order, state.peers, k);
        slots := slots[i := peers[k].Info()];
        order := order + [k];
        rest, seen := rest - {k}, seen + {k};
        i := i + 1;
      }
      PartedDone(peers.Keys, seen);
      FilledLists(slots, order);
      roster := [Entry(id, name, "", rank)] + (if leader == null then [] else [leader.Info()]) + slots;
    }

    lemma FilledLists(slots: seq<Entry>, order: seq<Id>)
      requires Valid() && R.Orders(order, peers.Keys) && |order| == |slots| && Filled(slots, order, state.peers)
      ensures R.Lists(R.Head(state) + slots, state, order)
      ensures forall k :: k in peers ==> peers[k].Info() in slots
    {
      forall k | k in peers
        ensures peers[k].Info() in slots
      {
        assert k in order;
        var j :| 0 <= j < |order| && order[j] == k;
        assert slots[j] == state.peers[k];
      }
    }

    // ----- Applying a leader's roster -----

    /** Part way through a roster: s and kept are what Roster says, newPeers the objects so far. */
    ghost predicate Merging(s: E.ClientState, kept: map<Id, Entry>, newPeers: map<Id, Peer>, made: set<Peer>)
      reads this, leader, repr, made
    {
      && Filed() && (forall k :: k in peers ==> peers[k] != leader)
      && s == E.ClientState(id, name, rank, isLeader, InfoOf(leader), s.peers, voteRound, nextVoteRoundN)
      && s.peers.Keys == peers.Keys
      && (forall k :: k in peers ==>
        peers[k] in repr && peers[k] !in made && s.peers[k].id == k && s.peers[k].address == peers[k].address)
      && kept.Keys == newPeers.Keys
      && (forall k :: k in newPeers ==>
        && newPeers[k].id == k && k != id && (leader != null ==> k != leader.id)
        && (if k in peers then newPeers[k] == peers[k] else newPeers[k] in made)
        && newPeers[k].Info() == kept[k])
    }

    ghost function LeaderObject(): set<Peer>
      reads this
    {
      if leader == null then {} else {leader}
    }

    method MergeOwn(entry: Entry, newPeers: map<Id, Peer>, ghost s: E.ClientState, ghost kept: map<Id, Entry>, ghost made: set<Peer>)
      requires Merging(s, kept, newPeers, made) && entry.id == id
      modifies `name, `rank
      ensures Merging(s.(name := entry.name, rank := entry.rank), kept, newPeers, made)
    {
      name := entry.name;
      rank := entry.rank;
    }

    method MergeLeader(entry: Entry, newPeers: map<Id, Peer>, ghost s: E.ClientState, ghost kept: map<Id, Entry>, ghost made: set<Peer>)
      requires Merging(s, kept, newPeers, made) && leader != null && entry.id == leader.id
      modifies LeaderObject()`name, LeaderObject()`rank
      ensures s.leader.Some?
      ensures Merging(s.(leader := Some(R.Renamed(s.leader.value, entry))), kept, newPeers, made)
    {
      leader.Rename(entry);
    }

    method MergePeer(entry: Entry, oldPeers: map<Id, Peer>, ghost s: E.ClientState, ghost kept: map<Id, Entry>, ghost made: set<Peer>)
      returns (newPeers: map<Id, Peer>)
      requires Merging(s, kept, oldPeers, made)
      requires entry.id != id && (leader != null ==> entry.id != leader.id) && entry.id in peers
      modifies repr`name, repr`rank
      ensures entry.id in s.peers
      ensures Merging(s, kept[entry.id := R.Renamed(s.peers[entry.id], entry)], newPeers, made)
    {
      var peer := peers[entry.id];
      newPeers := oldPeers[entry.id := peer];
      peer.Rename(entry);
    }

    method MergeDialled(entry: Entry, oldPeers: map<Id, Peer>, ghost s: E.ClientState, ghost kept: map<Id, Entry>, ghost made: set<Peer>)
      returns (newPeers: map<Id, Peer>, ghost newPeer: Peer)
      requires Merging(s, kept, oldPeers, made)
      requires entry.id != id && (leader != null ==> entry.id != leader.id) && entry.id !in peers
      ensures fresh(newPeer) && newPeer.closeSignals == 0
      ensures Merging(s, kept[entry.id := entry], newPeers, made + {newPeer})
    {
      var peer := new Peer(entry);
      newPeers := oldPeers[entry.id := peer];
      newPeer := peer;
    }

    /** One entry of the roster; dial tells whether dialling a member that is not known succeeds. */
    method MergeEntry(entry: Entry, dial: bool, oldPeers: map<Id, Peer>,
                      ghost s: E.ClientState, ghost kept: map<Id, Entry>, ghost made: set<Peer>)
      returns (newPeers: map<Id, Peer>, ghost madeNow: set<Peer>)
      requires Merging(s, kept, oldPeers, made)
      modifies `name, `rank, repr`name, repr`rank, LeaderObject()`name, LeaderObject()`rank
      ensures var (t, more) := R.MergeOne(s, kept, entry, dial); Merging(t, more, newPeers, madeNow)
      ensures made <= madeNow && fresh(madeNow - made)
    {
      hide Merging;
      MergingFacts(s, kept, oldPeers, made);
      newPeers, madeNow := oldPeers, made;
      if entry.id == id {
        MergeOwn(entry, newPeers, s, kept, made);
      } else if leader != null && entry.id == leader.id {
        MergeLeader(entry, newPeers, s, kept, made);
      } else if entry.id in peers {
        newPeers := MergePeer(entry, newPeers, s, kept, made);
      } else if dial {
        ghost var newPeer;
        newPeers, newPeer := MergeDialled(entry, newPeers, s, kept, made);
        madeNow := made + {newPeer};
      }
    }

    lemma MergingFacts(s: E.ClientState, kept: map<Id, Entry>, newPeers: map<Id, Peer>, made: set<Peer>)
      requires Merging(s, kept, newPeers, made)
      ensures s.id == id && s.leader == InfoOf(leader) && s.peers.Keys == peers.Keys
    {
    }

    method MergeEntries(roster: seq<Entry>, dials: seq<bool>)
      returns (newPeers: map<Id, Peer>, ghost s: E.ClientState, ghost kept: map<Id, Entry>, ghost made: set<Peer>)
      requires Valid() && |dials| == |roster|
      modifies `name, `rank, repr`name, repr`rank, LeaderObject()`name, LeaderObject()`rank
      ensures Merging(s, kept, newPeers, made) && fresh(made)
      ensures R.UpdateRoster(old(state), roster, dials) == s.(peers := kept)
    {
      hide Valid, Merging, R.MergeOne, R.Merge;
      ghost var t := state;
      newPeers, s, kept, made := map[], state, map[], {};
      MergingStart();
      var i := 0;
      while i < |roster|
        invariant i <= |roster| && Merging(s, kept, newPeers, made) && fresh(made)
        invariant R.Merge(s, kept, roster[i..], dials[i..]) == R.UpdateRoster(t, roster, dials)
        modifies `name, `rank, repr`name, repr`rank, LeaderObject()`name, LeaderObject()`rank
      {
        MergeUnfolds(s, kept, roster, dials, i);
        ghost var (u, more) := R.MergeOne(s, kept, roster[i], dials[i]);
        newPeers, made := MergeEntry(roster[i], dials[i], newPeers, s, kept, made);
        s, kept := u, more;
        i := i + 1;
      }
      MergeEnds(s, kept, roster[i..], dials[i..]);
    }

    lemma MergingStart()
      requires Valid()
      ensures Merging(state, map[], map[], {})
    {
    }

    predicate IsPeer(p: Peer)
      reads this`peers
    {
      p.id in peers && peers[p.id] == p
    }

    /** Each peer that the roster dropped is told to close, once. */
    method CloseDropped(newPeers: map<Id, Peer>)
      requires Filed() && forall k :: k in peers ==> peers[k] in repr
      modifies repr`closeSignals
      ensures forall k :: k in peers ==>
        peers[k].closeSignals == old(peers[k].closeSignals) + if k in newPeers then 0 else 1
      ensures forall p :: p in repr && !IsPeer(p) ==> p.closeSignals == old(p.closeSignals)
    {
      var rest := peers.Keys;
      while rest != {}
        invariant rest <= peers.Keys
        invariant forall k :: k in peers ==>
          peers[k].closeSignals == old(peers[k].closeSignals) + if k in rest || k in newPeers then 0 else 1
        invariant forall p :: p in repr && !IsPeer(p) ==> p.closeSignals == old(p.closeSignals)
        decreases |rest|
      {
        var k :| k in rest;
        if k !in newPeers {
          peers[k].Close();
        }
        rest := rest - {k};
      }
    }

    method CloseDroppedPeers(newPeers: map<Id, Peer>, ghost s: E.ClientState, ghost kept: map<Id, Entry>, ghost made: set<Peer>)
      requires Merging(s, kept, newPeers, made)
      modifies repr`closeSignals
      ensures Merging(s, kept, newPeers, made)
      ensures forall k :: k in peers ==>
        peers[k].closeSignals == old(peers[k].closeSignals) + if k in newPeers then 0 else 1
      ensures leader != null ==> leader.closeSignals == old(leader.closeSignals)
    {
      CloseDropped(newPeers);
    }

    /** The peers that the roster leaves are the client's from now on. */
    method Install(newPeers: map<Id, Peer>, ghost s: E.ClientState, ghost kept: map<Id, Entry>, ghost made: set<Peer>)
      requires Merging(s, kept, newPeers, made)
      modifies `peers, `repr, `state
      ensures Valid() && state == s.(peers := kept) && peers == newPeers
    {
      peers := newPeers;
      repr := repr + made;
      state := s.(peers := kept);
    }

    /**
      * The actor's answer to a roster of its leader. Peers that stay keep their objects, each
      * peer that goes gets one close signal, and only members that are not known are dialled.
      */
    method UpdateRoster(roster: seq<Entry>, dials: seq<bool>)
      requires Valid() && |dials| == |roster|
      modifies this, repr, leader
      ensures Valid() && state == R.UpdateRoster(old(state), roster, dials)
      ensures forall k :: k in peers ==> if k in old(peers) then peers[k] == old(peers[k]) else fresh(peers[k])
      ensures forall k :: k in old(peers) ==>
        old(peers)[k].closeSignals == old(peers[k].closeSignals) + if k in peers then 0 else 1
      ensures leader == old(leader) && (leader != null ==> leader.closeSignals == old(leader.closeSignals))
      ensures cast == old(cast) && concluded == old(concluded) && electRequests == old(electRequests)
    {
      hide Valid, Merging, R.UpdateRoster;
      ghost var s, kept, made;
      var newPeers;
      newPeers, s, kept, made := MergeEntries(roster, dials);
      CloseDroppedPeers(newPeers, s, kept, made);
      ObjectsKept(s, kept, newPeers, made);
      Install(newPeers, s, kept, made);
    }

    // ----- The actor -----

    /**
      * One turn of the actor: it takes a request from one of its channels and serves it. New
      * leaders and peers come with objects of their own.
      */
    method Serve(req: A.Request) returns (panicked: bool)
      requires Valid() && req.WellFormed() && (req.Vote? ==> !E.Stuck(state, req.vote))
      modifies this, repr, leader
      ensures panicked <==> A.Serve(old(state), req).Panicked?
      ensures !panicked ==> Valid() && Follows(A.Serve(old(state), req), old(cast), old(concluded), old(electRequests))
    {
      hide Valid, E.Accept, E.ElectNew, E.BecomeLeader, E.SetLeader, R.UpdateRoster, R.UpdatePeer, R.AddPeer, R.DeletePeer, E.Stuck;
      panicked := false;
      NothingCast(cast);
      match req {
        case Lead =>
          BecomeLeader();
        case Follow(newLeader) =>
          var peer: Peer? := null;
          if newLeader.Some? {
            peer := new Peer(newLeader.value);
          }
          panicked := SetLeader(peer);
        case Drop(peerId) =>
          DeletePeer(peerId);
        case Add(entry) =>
          var peer := new Peer(entry);
          AddPeer(peer);
        case Update(entry) =>
          UpdatePeer(entry);
        case Adopt(roster, dials) =>
          UpdateRoster(roster, dials);
        case Vote(vote) =>
          panicked := AcceptLeaderVote(vote);
        case Elect =>
          ElectNewLeader();
      }
    }

    lemma NothingCast(votes: seq<E.LeaderVote>)
      ensures votes + [] == votes && concluded + [] == concluded
    {
    }

    lemma ObjectsKept(s: E.ClientState, kept: map<Id, Entry>, newPeers: map<Id, Peer>, made: set<Peer>)
      requires Merging(s, kept, newPeers, made)
      ensures forall k :: k in newPeers ==> if k in peers then newPeers[k] == peers[k] else newPeers[k] in made
    {
    }
  }

  lemma MergeUnfolds(s: E.ClientState, kept: map<Id, Entry>, roster: seq<Entry>, dials: seq<bool>, i: nat)
    requires |dials| == |roster| && i < |roster|
    ensures var (t, more) := R.MergeOne(s, kept, roster[i], dials[i]);
      R.Merge(s, kept, roster[i..], dials[i..]) == R.Merge(t, more, roster[i + 1..], dials[i + 1..])
  {
    hide R.MergeOne;
    assert roster[i..][1..] == roster[i + 1..] && dials[i..][1..] == dials[i + 1..];
  }

  lemma MergeEnds(s: E.ClientState, kept: map<Id, Entry>, roster: seq<Entry>, dials: seq<bool>)
    requires roster == [] && dials == []
    ensures R.Merge(s, kept, roster, dials) == s.(peers := kept)
  {
  }

  /** A slot of a roster that is not filled yet. */
  const NO_ENTRY := Entry(0, "", "", Unknown)

  /** The first slots hold the entries of the peers seen, in order. */
  ghost predicate Filled(slots: seq<Entry>, order: seq<Id>, infos: map<Id, Entry>) {
    |order| <= |slots| && forall k :: 0 <= k < |order| ==> order[k] in infos && slots[k] == infos[order[k]]
  }

  lemma FilledMore(slots: seq<Entry>, order: seq<Id>, infos: map<Id, Entry>, k: Id)
    requires Filled(slots, order, infos) && |order| < |slots| && k in infos
    ensures Filled(slots[|order| := infos[k]], order + [k], infos)
  {
  }

  lemma NothingOrdered(slots: seq<Entry>, infos: map<Id, Entry>)
    ensures R.Orders([], {}) && Filled(slots, [], infos)
  {
  }

  lemma OrdersMore(order: seq<Id>, ids: set<Id>, k: Id)
    requires R.Orders(order, ids) && k !in ids
    ensures R.Orders(order + [k], ids + {k})
  {
  }

  lemma AcceptUnfolds(s: E.ClientState, vote: E.LeaderVote)
    requires !E.Stuck(s, vote)
    ensures E.StartsRound(s, vote) ==>
      var (t, cast) := E.ElectNew(E.Catching(s, vote));
      && !E.Stuck(t, vote) && E.CallsLeft(t, vote) < E.CallsLeft(s, vote)
      && E.Accept(s, vote, 2) == E.After(cast, E.Accept(t, vote, 2))
    ensures !E.StartsRound(s, vote) ==>
      E.Accept(s, vote, 2) == if vote.n == s.round.value.n then E.Record(s, vote) else E.Returned(s, [], None)
  {
    hide E.Record, E.ElectNew;
    if E.StartsRound(s, vote) {
      E.CallsFall(s, vote);
      var t := E.ElectNew(E.Catching(s, vote)).0;
      E.AcceptReturns(s, vote, 2);
      E.AcceptReturns(t, vote, 2);
      E.AcceptReturns(t, vote, 1);
    }
  }

  lemma CloseCases(s: E.ClientState, r: E.VoteRound)
    requires s.round == Some(r)
    ensures E.Close(s, r)
         == if |r.votes| < s.PeerCount() then E.Returned(s, [], None)
            else if E.Unanimous(r.mine, r.votes) then E.Conclude(s, r)
            else
              var (t, cast) := E.ElectSpecific(s, Leading(E.Tally(r.mine, r.votes)));
              E.Returned(t, cast, None)
  {
    hide E.Conclude, E.Tally, E.Unanimous, E.ElectSpecific, Leading;
  }

  /** The tally of a round, and if it has more than one entry, the vote of the majority. */
  method TallyRound(r: E.VoteRound) returns (alike: bool, majority: Id)
    ensures alike <==> E.Unanimous(r.mine, r.votes)
    ensures !alike ==> majority == Leading(E.Tally(r.mine, r.votes))
  {
    var tally := CountVotes(r.mine, r.votes);
    E.OneEntryIsUnanimous(r.mine, r.votes);
    if |tally| == 1 {
      return true, r.mine;
    }
    TallyIsPositive(r.mine, r.votes);
    majority := PickMajority(tally, r.mine);
    alike := false;
  }

  /** The loop of acceptLeaderVote over the votes, in any order. */
  method CountVotes(mine: Id, votes: map<Id, Id>) returns (tally: map<Id, nat>)
    ensures tally == E.Tally(mine, votes)
    ensures forall v :: v in tally <==> v == mine || exists p :: p in votes && votes[p] == v
    ensures forall v :: v in tally ==> tally[v] == |set p | p in votes && votes[p] == v| + if v == mine then 1 else 0
  {
    hide E.Tally, Parted;
    tally := map[mine := 1];
    E.TallyOfNone(mine);
    var rest := votes.Keys;
    ghost var seen: set<Id> := {};
    PartedStart(votes.Keys);
    NoneOf(votes);
    while rest != {}
      invariant Parted(votes.Keys, seen, rest)
      invariant tally == E.Tally(mine, VotesOf(votes, seen))
      decreases |rest|
    {
      var p :| p in rest;
      PartedStep(votes.Keys, seen, rest, p);
      OneMoreOf(votes, seen, p);
      E.TallyStep(mine, VotesOf(votes, seen), p, votes[p]);
      var vote := votes[p];
      if vote in tally {
        tally := tally[vote := tally[vote] + 1];
      } else {
        tally := tally[vote := 1];
      }
      rest, seen := rest - {p}, seen + {p};
    }
    PartedDone(votes.Keys, seen);
    NoneOf(votes);
    TallyInFull(mine, votes);
  }

  lemma TallyInFull(mine: Id, votes: map<Id, Id>)
    ensures forall v :: v in E.Tally(mine, votes) <==> v == mine || exists p :: p in votes && votes[p] == v
    ensures forall v :: v in E.Tally(mine, votes) ==>
      E.Tally(mine, votes)[v] == |set p | p in votes && votes[p] == v| + if v == mine then 1 else 0
  {
    forall v | v in E.Tally(mine, votes)
      ensures E.Tally(mine, votes)[v] == |set p | p in votes && votes[p] == v| + if v == mine then 1 else 0
    {
      assert E.Supporters(votes, v) == set p | p in votes && votes[p] == v;
    }
  }

  function VotesOf(votes: map<Id, Id>, ids: set<Id>): map<Id, Id> {
    map p | p in votes && p in ids :: votes[p]
  }

  lemma NoneOf(votes: map<Id, Id>)
    ensures VotesOf(votes, {}) == map[] && VotesOf(votes, votes.Keys) == votes
  {
  }

  lemma OneMoreOf(votes: map<Id, Id>, ids: set<Id>, p: Id)
    requires p in votes && p !in ids
    ensures VotesOf(votes, ids + {p}) == VotesOf(votes, ids)[p := votes[p]] && p !in VotesOf(votes, ids)
  {
  }

  lemma TallyIsPositive(mine: Id, votes: map<Id, Id>)
    ensures forall v :: v in E.Tally(mine, votes) ==> E.Tally(mine, votes)[v] > 0
  {
    forall v | v in E.Tally(mine, votes) && v != mine
      ensures E.Tally(mine, votes)[v] > 0
    {
      var p :| p in votes && votes[p] == v;
      assert p in E.Supporters(votes, v);
    }
  }

  /** Its loop over the tally: the highest count, the lowest ID on ties, in any order. */
  method PickMajority(tally: map<Id, nat>, mine: Id) returns (majority: Id)
    requires tally != map[] && forall v :: v in tally ==> tally[v] > 0
    ensures majority == Leading(tally) && majority in tally
    ensures forall v :: v in tally ==> tally[v] < tally[majority] || (tally[v] == tally[majority] && majority <= v)
  {
    hide Parted;
    var max := 0;
    majority := mine;
    var rest := tally.Keys;
    ghost var seen: set<Id> := {};
    PartedStart(tally.Keys);
    while rest != {}
      invariant Parted(tally.Keys, seen, rest) && seen <= tally.Keys
      invariant seen == {} ==> max == 0
      invariant seen != {} ==> majority in seen && max == tally[majority]
      invariant forall v :: v in seen ==> tally[v] < max || (tally[v] == max && majority <= v)
      decreases |rest|
    {
      var v :| v in rest;
      PartedStep(tally.Keys, seen, rest, v);
      if tally[v] > max || (tally[v] == max && v < majority) {
        max, majority := tally[v], v;
      }
      rest, seen := rest - {v}, seen + {v};
    }
    PartedDone(tally.Keys, seen);
    assert tally.Keys != {};
    LeadingIsUnique(majority, Leading(tally), tally);
  }

  /** A Director with the least int32 as its ID goes through both loops, to the same end. */
  lemma LeastOfMore(min: Id, few: set<Id>, many: set<Id>)
    requires few <= many
    ensures IsLeast(min, many) && MIN_ID in few ==> IsLeast(min, few)
  {
  }
}
