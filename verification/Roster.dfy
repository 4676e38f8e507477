/** How a client's list of peers changes, and how a follower's list mirrors its leader's. */
module Roster {
  import opened Wrappers
  import opened Members
  import opened Election

  // ----- Requests that change the peers -----

  function DeletePeer(s: ClientState, id: Id): ClientState {
    s.(peers := s.peers - {id})
  }

  function AddPeer(s: ClientState, peer: Entry): ClientState {
    if peer.id in s.peers then s else s.(peers := s.peers[peer.id := peer])
  }

  function UpdatePeer(s: ClientState, entry: Entry): ClientState {
    if entry.id !in s.peers then s
    else
      var p := s.peers[entry.id];
      s.(peers := s.peers[entry.id := Entry(
        p.id,
        if entry.name != "" then entry.name else p.name,
        if entry.address != "" then entry.address else p.address,
        entry.rank)])
  }

  predicate IsLeaderOf(s: ClientState, id: Id) {
    s.leader.Some? && s.leader.value.id == id
  }

  function Renamed(p: Entry, entry: Entry): Entry {
    p.(name := entry.name, rank := entry.rank)
  }

  /**
    * One entry of a leader's roster: the client's own, its leader's, one of a peer that is
    * kept, or one of a member that is dialled and kept if that succeeds.
    */
  function MergeOne(s: ClientState, kept: map<Id, Entry>, entry: Entry, dial: bool): (ClientState, map<Id, Entry>) {
    if entry.id == s.id then (s.(name := entry.name, rank := entry.rank), kept)
    else if IsLeaderOf(s, entry.id) then (s.(leader := Some(Renamed(s.leader.value, entry))), kept)
    else if entry.id in s.peers then (s, kept[entry.id := Renamed(s.peers[entry.id], entry)])
    else if dial then (s, kept[entry.id := entry])
    else (s, kept)
  }

  function Merge(s: ClientState, kept: map<Id, Entry>, roster: seq<Entry>, dials: seq<bool>): ClientState
    requires |dials| == |roster|
    decreases |roster|
  {
    if roster == [] then s.(peers := kept)
    else
      var (t, more) := MergeOne(s, kept, roster[0], dials[0]);
      Merge(t, more, roster[1..], dials[1..])
  }

  /** updateRoster, given for each entry whether dialling it would succeed. */
  function UpdateRoster(s: ClientState, roster: seq<Entry>, dials: seq<bool>): ClientState
    requires |dials| == |roster|
  {
    Merge(s, map[], roster, dials)
  }

  // ----- The shape of a client's state -----

  /** A leader has no leader; peers are filed under their IDs; nobody is listed twice. */
  ghost predicate Shape(s: ClientState) {
    && (s.isLeader ==> s.leader.None?)
    && (forall k :: k in s.peers ==> s.peers[k].id == k && k != s.id)
    && (s.leader.Some? ==> s.leader.value.id != s.id && s.leader.value.id !in s.peers)
  }

  ghost predicate Filed(peers: map<Id, Entry>, s: ClientState) {
    forall k :: k in peers ==> peers[k].id == k && k != s.id && !IsLeaderOf(s, k)
  }

  ghost predicate SameClient(s: ClientState, t: ClientState) {
    && t.id == s.id && t.isLeader == s.isLeader && t.round == s.round && t.next == s.next && t.peers == s.peers
    && t.leader.Some? == s.leader.Some? && (s.leader.Some? ==> t.leader.value.id == s.leader.value.id)
  }

  lemma MergeOneKeepsShape(s: ClientState, kept: map<Id, Entry>, entry: Entry, dial: bool)
    requires Shape(s) && Filed(kept, s)
    ensures var (t, more) := MergeOne(s, kept, entry, dial);
      SameClient(s, t) && Shape(t) && Filed(more, t)
  {
  }

  lemma {:induction false} MergeKeepsShape(s: ClientState, kept: map<Id, Entry>, roster: seq<Entry>, dials: seq<bool>)
    requires |dials| == |roster| && Shape(s) && Filed(kept, s)
    ensures var u := Merge(s, kept, roster, dials);
      && Shape(u) && u.id == s.id && u.isLeader == s.isLeader && u.round == s.round && u.next == s.next
      && u.leader.Some? == s.leader.Some? && (s.leader.Some? ==> u.leader.value.id == s.leader.value.id)
    decreases |roster|
  {
    if roster != [] {
      hide MergeOne;
      var (t, more) := MergeOne(s, kept, roster[0], dials[0]);
      MergeOneKeepsShape(s, kept, roster[0], dials[0]);
      MergeKeepsShape(t, more, roster[1..], dials[1..]);
    }
  }

  // ----- Rosters -----

  function Own(s: ClientState): Entry {
    Entry(s.id, s.name, "", s.rank)
  }

  function Head(s: ClientState): seq<Entry> {
    [Own(s)] + if s.leader.Some? then [s.leader.value] else []
  }

  ghost predicate Orders(order: seq<Id>, ids: set<Id>) {
    && (forall i, j :: 0 <= i < j < |order| ==> order[i] != order[j])
    && (forall k :: k in ids <==> k in order)
  }

  /** A roster: the client, its leader if it has one, then its peers in some order. */
  ghost predicate Lists(roster: seq<Entry>, s: ClientState, order: seq<Id>) {
    && Orders(order, s.peers.Keys)
    && roster == Head(s) + seq(|order|, i requires 0 <= i < |order| && order[i] in s.peers => s.peers[order[i]])
  }

  ghost predicate IsRoster(roster: seq<Entry>, s: ClientState) {
    exists order :: Lists(roster, s, order)
  }

  ghost predicate DistinctIds(roster: seq<Entry>) {
    forall i, j :: 0 <= i < j < |roster| ==> roster[i].id != roster[j].id
  }

  /** No member is listed twice. */
  lemma RosterIsDistinct(roster: seq<Entry>, s: ClientState)
    requires Shape(s) && IsRoster(roster, s)
    ensures DistinctIds(roster)
  {
    var order :| Lists(roster, s, order);
    var h := |Head(s)|;
    forall i | h <= i < |roster|
      ensures roster[i].id == order[i - h] && order[i - h] in s.peers
    {
      assert order[i - h] in order;
    }
  }

  // ----- Mirroring -----

  datatype Label = Label(name: string, rank: Rank)

  /** The names and ranks of all the members that a client lists, itself included. */
  function Listing(s: ClientState): map<Id, Label> {
    map k | k in {s.id} + s.Known() ::
      if k == s.id then Label(s.name, s.rank)
      else if k in s.peers then Label(s.peers[k].name, s.peers[k].rank)
      else Label(s.leader.value.name, s.leader.value.rank)
  }

  /** Entries about others leave what a client holds about a member alone. */
  lemma {:induction false} MergeFrame(s: ClientState, kept: map<Id, Entry>, roster: seq<Entry>, dials: seq<bool>, id: Id)
    requires |dials| == |roster| && forall i :: 0 <= i < |roster| ==> roster[i].id != id
    ensures var u := Merge(s, kept, roster, dials);
      && (id == s.id ==> u.name == s.name && u.rank == s.rank)
      && (IsLeaderOf(s, id) ==> u.leader == s.leader)
      && (id in kept <==> id in u.peers) && (id in kept ==> u.peers[id] == kept[id])
    decreases |roster|
  {
    if roster != [] {
      assert roster[0].id != id;
      var (t, more) := MergeOne(s, kept, roster[0], dials[0]);
      MergeFrame(t, more, roster[1..], dials[1..], id);
    }
  }

  /** How the client's state after a merge reflects one entry. */
  ghost predicate Reflects(s: ClientState, u: ClientState, entry: Entry, dial: bool) {
    if entry.id == s.id then u.name == entry.name && u.rank == entry.rank
    else if IsLeaderOf(s, entry.id) then u.leader == Some(Renamed(s.leader.value, entry))
    else
      && (entry.id in u.peers <==> entry.id in s.peers || dial)
      && (entry.id in s.peers ==> u.peers[entry.id] == Renamed(s.peers[entry.id], entry))
      && (entry.id !in s.peers && dial ==> u.peers[entry.id] == entry)
  }

  lemma MergeOneElsewhere(s: ClientState, kept: map<Id, Entry>, entry: Entry, dial: bool, id: Id)
    requires entry.id != id
    ensures var (t, more) := MergeOne(s, kept, entry, dial);
      && t.id == s.id && t.peers == s.peers && (IsLeaderOf(t, id) <==> IsLeaderOf(s, id))
      && (id == s.id ==> t.name == s.name && t.rank == s.rank)
      && (IsLeaderOf(s, id) ==> t.leader == s.leader)
      && (id in kept <==> id in more) && (id in kept ==> more[id] == kept[id])
  {
  }

  lemma {:induction false} MergeReflects(
      s: ClientState, kept: map<Id, Entry>, roster: seq<Entry>, dials: seq<bool>, i: nat)
    requires |dials| == |roster| && DistinctIds(roster) && i < |roster|
    requires roster[i].id !in kept
    ensures Reflects(s, Merge(s, kept, roster, dials), roster[i], dials[i])
    decreases |roster|
  {
    var (t, more) := MergeOne(s, kept, roster[0], dials[0]);
    if i == 0 {
      MergeFrame(t, more, roster[1..], dials[1..], roster[0].id);
    } else {
      hide MergeOne, DistinctIds;
      DistinctTail(roster, i);
      MergeOneElsewhere(s, kept, roster[0], dials[0], roster[i].id);
      MergeReflects(t, more, roster[1..], dials[1..], i - 1);
    }
  }

  lemma DistinctTail(roster: seq<Entry>, i: nat)
    requires DistinctIds(roster) && 0 < i < |roster|
    ensures roster[0].id != roster[i].id && DistinctIds(roster[1..])
  {
  }

  /**
    * What a roster that lists nobody twice does, entry by entry: the client's own name and rank
    * and its leader's and peers' become those of the roster, unknown members are added as the
    * roster has them if the dial succeeds, and everybody else is dropped.
    */
  lemma RosterEntryByEntry(s: ClientState, roster: seq<Entry>, dials: seq<bool>, i: nat)
    requires |dials| == |roster| && DistinctIds(roster) && i < |roster|
    ensures var u, e := UpdateRoster(s, roster, dials), roster[i];
      && (e.id == s.id ==> u.name == e.name && u.rank == e.rank)
      && (e.id != s.id && s.leader.Some? && s.leader.value.id == e.id ==>
        u.leader == Some(Entry(e.id, e.name, s.leader.value.address, e.rank)))
      && (e.id != s.id && (s.leader.Some? ==> s.leader.value.id != e.id) ==>
        if e.id in s.peers then
          e.id in u.peers && u.peers[e.id] == Entry(s.peers[e.id].id, e.name, s.peers[e.id].address, e.rank)
        else if dials[i] then e.id in u.peers && u.peers[e.id] == e
        else e.id !in u.peers)
      && (forall k :: k in u.peers ==> exists j :: 0 <= j < |roster| && roster[j].id == k)
  {
    hide Merge;
    MergeReflects(s, map[], roster, dials, i);
    var u := UpdateRoster(s, roster, dials);
    forall k | k in u.peers
      ensures exists j :: 0 <= j < |roster| && roster[j].id == k
    {
      MergeDrops(s, map[], roster, dials, k);
    }
  }

  /** Only members on the roster remain. */
  lemma {:induction false} MergeDrops(s: ClientState, kept: map<Id, Entry>, roster: seq<Entry>, dials: seq<bool>, id: Id)
    requires |dials| == |roster| && id in Merge(s, kept, roster, dials).peers && id !in kept
    ensures exists i :: 0 <= i < |roster| && roster[i].id == id
  {
    if forall i :: 0 <= i < |roster| ==> roster[i].id != id {
      MergeFrame(s, kept, roster, dials, id);
    }
  }

  ghost predicate Follows(s: ClientState, leader: ClientState) {
    Shape(s) && Shape(leader) && leader.leader.None? && IsLeaderOf(s, leader.id) && s.id in leader.peers
  }

  lemma Listed(roster: seq<Entry>, s: ClientState, order: seq<Id>, i: nat)
    requires Shape(s) && s.leader.None? && Lists(roster, s, order) && i < |roster|
    ensures roster[i].id in Listing(s) && Listing(s)[roster[i].id] == Label(roster[i].name, roster[i].rank)
  {
    if i > 0 {
      assert order[i - 1] in order;
    }
  }

  lemma PositionOf(roster: seq<Entry>, s: ClientState, order: seq<Id>, id: Id) returns (i: nat)
    requires Shape(s) && s.leader.None? && Lists(roster, s, order) && id in Listing(s)
    ensures i < |roster| && roster[i].id == id
  {
    if id == s.id {
      i := 0;
    } else {
      assert id in order;
      var j :| 0 <= j < |order| && order[j] == id;
      i := j + 1;
    }
  }

  /**
    * A follower that applies its leader's roster lists exactly the leader's members, under
    * the leader's names and ranks, less those that it did not know and could not dial.
    */
  lemma RosterIsMirrored(s: ClientState, leader: ClientState, roster: seq<Entry>, dials: seq<bool>)
    requires Follows(s, leader) && IsRoster(roster, leader) && |dials| == |roster|
    ensures var u := UpdateRoster(s, roster, dials);
      && (forall k :: k in Listing(u) ==> k in Listing(leader) && Listing(u)[k] == Listing(leader)[k])
      && (forall i :: 0 <= i < |roster| ==> (roster[i].id in Listing(u) <==> roster[i].id in Listing(s) || dials[i]))
  {
    hide Lists, Merge;
    var order :| Lists(roster, leader, order);
    var u := UpdateRoster(s, roster, dials);
    RosterIsDistinct(roster, leader);
    MergeKeepsShape(s, map[], roster, dials);
    forall i | 0 <= i < |roster|
      ensures Reflects(s, u, roster[i], dials[i])
      ensures roster[i].id in Listing(leader) && Listing(leader)[roster[i].id] == Label(roster[i].name, roster[i].rank)
    {
      MergeReflects(s, map[], roster, dials, i);
      Listed(roster, leader, order, i);
    }
    forall k | k in Listing(u)
      ensures k in Listing(leader) && Listing(u)[k] == Listing(leader)[k]
    {
      var i: nat;
      if k == s.id || k == leader.id {
        i := PositionOf(roster, leader, order, k);
      } else {
        MergeDrops(s, map[], roster, dials, k);
        i :| 0 <= i < |roster| && roster[i].id == k;
      }
      assert Reflects(s, u, roster[i], dials[i]);
    }
  }

  /** With every dial a success, the two listings are the same. */
  lemma RosterIsMirroredWhole(s: ClientState, leader: ClientState, roster: seq<Entry>, dials: seq<bool>)
    requires Follows(s, leader) && IsRoster(roster, leader) && |dials| == |roster|
    requires forall i :: 0 <= i < |roster| ==> dials[i]
    ensures Listing(UpdateRoster(s, roster, dials)) == Listing(leader)
  {
    hide Lists, UpdateRoster;
    var order :| Lists(roster, leader, order);
    var u := UpdateRoster(s, roster, dials);
    RosterIsMirrored(s, leader, roster, dials);
    forall k | k in Listing(leader)
      ensures k in Listing(u)
    {
      var i := PositionOf(roster, leader, order, k);
    }
  }

  /** The members of a roster that a client has to dial. */
  ghost predicate Dials(s: ClientState, entry: Entry) {
    entry.id != s.id && !IsLeaderOf(s, entry.id) && entry.id !in s.peers
  }

  /** Applied a second time, a roster has nobody left to dial and changes nothing. */
  lemma SecondUpdateIsIdle(
      s: ClientState, leader: ClientState, roster: seq<Entry>, dials: seq<bool>, again: seq<bool>)
    requires Follows(s, leader) && IsRoster(roster, leader) && |dials| == |roster| == |again|
    requires forall i :: 0 <= i < |roster| ==> dials[i]
    ensures var u := UpdateRoster(s, roster, dials);
      && UpdateRoster(u, roster, again) == u
      && forall i :: 0 <= i < |roster| ==> !Dials(u, roster[i])
  {
    hide Lists, Merge;
    var order :| Lists(roster, leader, order);
    var u := UpdateRoster(s, roster, dials);
    var v := UpdateRoster(u, roster, again);
    RosterIsDistinct(roster, leader);
    MergeKeepsShape(s, map[], roster, dials);
    MergeKeepsShape(u, map[], roster, again);
    forall i | 0 <= i < |roster|
      ensures Reflects(s, u, roster[i], dials[i]) && Reflects(u, v, roster[i], again[i])
    {
      MergeReflects(s, map[], roster, dials, i);
      MergeReflects(u, map[], roster, again, i);
    }
    var own := PositionOf(roster, leader, order, s.id);
    var lead := PositionOf(roster, leader, order, leader.id);
    assert Reflects(s, u, roster[own], dials[own]) && Reflects(s, u, roster[lead], dials[lead]);
    forall k
      ensures k in u.peers <==> k in v.peers
      ensures k in u.peers ==> u.peers[k] == v.peers[k]
    {
      if k in u.peers {
        MergeDrops(s, map[], roster, dials, k);
      }
      if k in v.peers {
        MergeDrops(u, map[], roster, again, k);
      }
    }
    assert u.peers == v.peers;
  }
}
