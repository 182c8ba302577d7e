/** BatchCount as a function of the store: one pipeline of GETs, one SQL count for each miss, one pipeline of SETs. */
module BatchCounting {
  import opened Collections
  import opened LikeStore

  // The ids whose GET answered nil, in request order and with repetitions.
  function Missed(s: Store, ids: seq<Id>): seq<Id> {
    if ids == [] then []
    else Missed(s, ids[..|ids| - 1]) + if ids[|ids| - 1] in s.likes then [] else [ids[|ids| - 1]]
  }

  // The missed ids that are filled in: not those whose read failed, and not the empty id.
  function Resolved(missed: seq<Id>, failed: set<nat>): seq<Id> {
    if missed == [] then []
    else
      var i := |missed| - 1;
      Resolved(missed[..i], failed) + if i in failed || missed[i] == "" then [] else [missed[i]]
  }

  function FillAll(s: Store, ids: seq<Id>): Store {
    if ids == [] then s
    else SetLikes(FillAll(s, ids[..|ids| - 1]), ids[|ids| - 1], RowCount(s, ids[|ids| - 1]))
  }

  // What Count would answer.
  function CountOf(s: Store, feed: Id): int { if feed in s.likes then s.likes[feed].val else RowCount(s, feed) }

  function Answers(s: Store, ids: seq<Id>, found: seq<Id>): map<Id, int> {
    map id | id in ids && (id in s.likes || id in found) :: CountOf(s, id)
  }

  /** `failed` are the positions among the missed ids whose SQL read fails; `kept` is how many SETs of the last
      pipeline take effect. */
  function BatchStep(s: Store, ids: seq<Id>, pipeErr: bool, failed: set<nat>, kept: nat): (Store, Result<map<Id, int>>) {
    if ids == [] then (s, Ok(map[]))
    else if pipeErr then (s, Err)
    else
      var found := Resolved(Missed(s, ids), failed);
      (FillAll(s, FirstOf(found, kept)), Ok(Answers(s, ids, found)))
  }

  lemma {:induction false} FillLeaves(s: Store, ids: seq<Id>)
    ensures FillAll(s, ids).rows == s.rows && FillAll(s, ids).likedBy == s.likedBy
  {
    if ids != [] { FillLeaves(s, ids[..|ids| - 1]); }
  }

  lemma {:induction false} MissedMembers(s: Store, ids: seq<Id>)
    ensures forall id :: id in Missed(s, ids) <==> id in ids && id !in s.likes
  {
    if ids != [] {
      MissedMembers(s, ids[..|ids| - 1]);
      assert ids == ids[..|ids| - 1] + [ids[|ids| - 1]];
    }
  }

  lemma {:induction false} ResolvedMembers(missed: seq<Id>, failed: set<nat>)
    ensures forall id :: id in Resolved(missed, failed) <==>
      id != "" && exists i :: 0 <= i < |missed| && i !in failed && missed[i] == id
  {
    if missed != [] {
      var rest, m := missed[..|missed| - 1], |missed| - 1;
      ResolvedMembers(rest, failed);
      forall id ensures id in Resolved(missed, failed) <==>
        id != "" && exists i :: 0 <= i < |missed| && i !in failed && missed[i] == id
      {
        if i :| 0 <= i < |missed| && i !in failed && missed[i] == id {
          if i < m { assert rest[i] == id; }
        }
        if i :| 0 <= i < |rest| && i !in failed && rest[i] == id { assert missed[i] == id; }
      }
    }
  }

  lemma FoundAreMisses(s: Store, ids: seq<Id>, failed: set<nat>)
    ensures forall id :: id in Resolved(Missed(s, ids), failed) ==> id in ids && id !in s.likes
  {
    MissedMembers(s, ids);
    ResolvedMembers(Missed(s, ids), failed);
  }

  /** A batch answers for an id what Count would, and leaves out exactly the ids that missed and are empty or had
      every read fail. */
  lemma BatchAnswers(s: Store, ids: seq<Id>, failed: set<nat>, kept: nat, id: Id)
    requires id in ids
    ensures var r := BatchStep(s, ids, false, failed, kept).1.value;
            && (id !in r <==> id !in s.likes && (id == "" || forall i :: 0 <= i < |Missed(s, ids)| && Missed(s, ids)[i] == id ==> i in failed))
            && (id in r ==> Ok(r[id]) == CountStep(s, id, NO_FAULT).1)
  {
    ResolvedMembers(Missed(s, ids), failed);
  }

  function CountAll(s: Store, ids: seq<Id>): Store {
    if ids == [] then s else CountStep(CountAll(s, ids[..|ids| - 1]), ids[|ids| - 1], NO_FAULT).0
  }

  // The counters after filling the missing ones among ids.
  ghost function Filled(s: Store, ids: set<Id>): map<Id, Cell<int>> {
    map id | id in s.likes.Keys + ids :: if id in s.likes then s.likes[id] else Cell(RowCount(s, id), Full)
  }

  lemma FilledMore(s: Store, ids: set<Id>, id: Id)
    ensures CountStep(s.(likes := Filled(s, ids)), id, NO_FAULT).0.likes == Filled(s, ids + {id})
    ensures id !in s.likes ==> Filled(s, ids)[id := Cell(RowCount(s, id), Full)] == Filled(s, ids + {id})
  {
    assert id in Filled(s, ids) ==> Filled(s, ids + {id}) == Filled(s, ids);
  }

  ghost function SetOf(ids: seq<Id>): set<Id> { set id | id in ids }

  lemma SetOfSnoc(ids: seq<Id>)
    requires ids != []
    ensures SetOf(ids) == SetOf(ids[..|ids| - 1]) + {ids[|ids| - 1]}
  {
    assert ids == ids[..|ids| - 1] + [ids[|ids| - 1]];
  }

  lemma {:induction false} CountAllFills(s: Store, ids: seq<Id>)
    ensures CountAll(s, ids) == s.(likes := Filled(s, SetOf(ids)))
  {
    if ids == [] {
      assert Filled(s, SetOf(ids)) == s.likes;
    } else {
      CountAllFills(s, ids[..|ids| - 1]);
      SetOfSnoc(ids);
      FilledMore(s, SetOf(ids[..|ids| - 1]), ids[|ids| - 1]);
    }
  }

  lemma {:induction false} FillAllFills(s: Store, ids: seq<Id>)
    requires forall id :: id in ids ==> id !in s.likes
    ensures FillAll(s, ids) == s.(likes := Filled(s, SetOf(ids)))
  {
    if ids == [] {
      assert Filled(s, SetOf(ids)) == s.likes;
    } else {
      FillAllFills(s, ids[..|ids| - 1]);
      SetOfSnoc(ids);
      FilledMore(s, SetOf(ids[..|ids| - 1]), ids[|ids| - 1]);
    }
  }

  /** With no fault, a batch of non-empty ids leaves Redis as calling Count on each id in turn would. */
  lemma BatchIsCounts(s: Store, ids: seq<Id>, kept: nat)
    requires "" !in ids && kept >= |ids|
    ensures BatchStep(s, ids, false, {}, kept).0 == CountAll(s, ids)
  {
    var found := Resolved(Missed(s, ids), {});
    FoundMembers(s, ids);
    CountAllFills(s, ids);
    FillAllFills(s, found);
    assert s.likes.Keys + SetOf(found) == s.likes.Keys + SetOf(ids);
    assert Filled(s, SetOf(found)) == Filled(s, SetOf(ids));
    assert FirstOf(found, kept) == found;
  }

  lemma FoundMembers(s: Store, ids: seq<Id>)
    requires "" !in ids
    ensures var found := Resolved(Missed(s, ids), {});
            |found| <= |ids| && forall id :: id in found <==> id in ids && id !in s.likes
  {
    var missed := Missed(s, ids);
    MissedMembers(s, ids);
    ResolvedMembers(missed, {});
    ResolvedSize(missed, {});
    MissedSize(s, ids);
    var found := Resolved(missed, {});
    forall id ensures id in found <==> id in ids && id !in s.likes {
      if id in missed { var i :| 0 <= i < |missed| && missed[i] == id; }
    }
  }

  lemma {:induction false} ResolvedSize(missed: seq<Id>, failed: set<nat>)
    ensures |Resolved(missed, failed)| <= |missed|
  {
    if missed != [] { ResolvedSize(missed[..|missed| - 1], failed); }
  }

  lemma {:induction false} MissedSize(s: Store, ids: seq<Id>)
    ensures |Missed(s, ids)| <= |ids|
  {
    if ids != [] { MissedSize(s, ids[..|ids| - 1]); }
  }

  /** What fails is reported and leaves Redis as it was: a failed pipeline of GETs fails the batch, and SETs that are
      all lost lose nothing else. */
  lemma LostBatch(s: Store, ids: seq<Id>, failed: set<nat>)
    ensures ids != [] ==> BatchStep(s, ids, true, failed, 0) == (s, Err)
    ensures BatchStep(s, ids, false, failed, 0).0 == s
    ensures BatchStep(s, ids, false, failed, 0).1 == BatchStep(s, ids, false, failed, |ids|).1
  {
    assert FirstOf(Resolved(Missed(s, ids), failed), 0) == [];
  }

  /** A Count whose GET fails, or misses and cannot read the table, is an error and changes nothing. */
  lemma LostCount(s: Store, feed: Id, f: Fault)
    ensures CountStep(s, feed, f).1.Err? <==> f.get || (feed !in s.likes && f.dbRead)
    ensures CountStep(s, feed, f).1.Err? || feed in s.likes || f.fill ==> CountStep(s, feed, f).0 == s
  {
  }
}
