/** The members of a WeTube session, and the least and the leading of some IDs. */
module Members {

  /** Go's int32. */
  type Id = i: int | MIN_ID <= i < 0x8000_0000

  const MIN_ID: int := -0x8000_0000

  /** Go's uint, on a 64-bit platform. */
  type Uint = n: nat | n <= UINT_MAX

  const UINT_MAX: nat := 0xFFFF_FFFF_FFFF_FFFF

  datatype Rank = Unknown | Viewer | Editor | Director

  /** What a roster says of a member, and what a client knows of a peer. */
  datatype Entry = Entry(id: Id, name: string, address: string, rank: Rank)

  ghost predicate IsLeast(x: Id, ids: set<Id>) {
    x in ids && forall y :: y in ids ==> x <= y
  }

  lemma {:induction false} LeastExists(ids: set<Id>)
    requires ids != {}
    ensures exists x :: IsLeast(x, ids)
    decreases |ids|
  {
    var x :| x in ids;
    if ids == {x} {
      assert IsLeast(x, ids);
    } else {
      LeastExists(ids - {x});
      var y :| IsLeast(y, ids - {x});
      assert forall z :: z in ids ==> z == x || z in ids - {x};
      assert IsLeast(if y < x then y else x, ids);
    }
  }

  ghost function Least(ids: set<Id>): (x: Id)
    requires ids != {}
    ensures IsLeast(x, ids)
  {
    LeastExists(ids);
    var x :| IsLeast(x, ids);
    x
  }

  /** The key with the highest count, the lowest such key on ties. */
  ghost predicate IsLeading(x: Id, tally: map<Id, nat>) {
    x in tally && forall y :: y in tally ==> tally[y] < tally[x] || (tally[y] == tally[x] && x <= y)
  }

  lemma {:induction false} LeadingExists(tally: map<Id, nat>)
    requires tally != map[]
    ensures exists x :: IsLeading(x, tally)
    decreases |tally.Keys|
  {
    var x :| x in tally;
    var rest := tally - {x};
    assert rest.Keys == tally.Keys - {x};
    assert forall z :: z in tally ==> z == x || (z in rest && rest[z] == tally[z]);
    if rest == map[] {
      assert IsLeading(x, tally);
    } else {
      LeadingExists(rest);
      var y :| IsLeading(y, rest);
      assert IsLeading(if tally[y] > tally[x] || (tally[y] == tally[x] && y < x) then y else x, tally);
    }
  }

  ghost function Leading(tally: map<Id, nat>): (x: Id)
    requires tally != map[]
    ensures IsLeading(x, tally)
  {
    LeadingExists(tally);
    var x :| IsLeading(x, tally);
    x
  }

  lemma LeadingIsUnique(x: Id, y: Id, tally: map<Id, nat>)
    requires IsLeading(x, tally) && IsLeading(y, tally)
    ensures x == y
  {
  }

  /** A loop over a set in any order, part way. */
  ghost predicate Parted(all: set<Id>, seen: set<Id>, rest: set<Id>) {
    seen + rest == all && seen !! rest
  }

  lemma PartedStep(all: set<Id>, seen: set<Id>, rest: set<Id>, k: Id)
    requires Parted(all, seen, rest) && k in rest
    ensures Parted(all, seen + {k}, rest - {k}) && |rest - {k}| == |rest| - 1
    ensures k !in seen && k in all
  {
  }

  lemma PartedDone(all: set<Id>, seen: set<Id>)
    requires Parted(all, seen, {})
    ensures seen == all
  {
  }

  lemma PartedStart(all: set<Id>)
    ensures Parted(all, {}, all)
  {
  }
}
