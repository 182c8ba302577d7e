/** cachedLikeStorage: the calls as the service makes them, command by command, each tied to its step function. */
module LikeStorage {
  import opened Collections
  import opened LikeStore
  import opened BatchCounting

  const BATCH_SIZE: nat := 1000

  // What SISMEMBER answers: 0 or 1, nil, or an error.
  datatype Probe = Answers01 | NilReply | Broken

  /** Where a rebuild breaks off: before which of the two commands of which batch, if at all. */
  datatype Break = NoBreak | Break(batch: nat, applied: nat)

  ghost predicate Breaks(b: Break, n: nat) { b.Break? && b.batch * BATCH_SIZE < n }

  // The membership set once the first `done` likers are in: a short TTL until all are.
  function Rebuilt(s: Store, feed: Id, users: seq<Id>, done: nat): Store
    requires done <= |users|
  {
    if done == 0 then s
    else s.(likedBy := s.likedBy[feed :=
      Cell(Members(s, feed) + ToSet(users[..done]), if done == |users| then Full else Short)])
  }

  // ... once the batches have run up to the break.
  ghost function RebuiltUpTo(s: Store, feed: Id, users: seq<Id>, br: Break): Store {
    if !Breaks(br, |users|) then Rebuilt(s, feed, users, |users|)
    else
      var start := br.batch * BATCH_SIZE;
      var end := End(start, |users|);
      if br.applied == 0 then Rebuilt(s, feed, users, start)
      else if br.applied == 1 then SAdd(Rebuilt(s, feed, users, start), feed, ToSet(users[start..end]))
      else Rebuilt(s, feed, users, end)
  }

  /** That is: a break before batch k leaves the first 1000*k users added, for 30 minutes if there are any; one between
      the SADD and the EXPIRE of batch k, that batch too; one after both, that batch too and its expiry. */
  lemma BreakLeaves(s: Store, feed: Id, users: seq<Id>, br: Break)
    requires br.Break? && 1000 * br.batch < |users|
    ensures var t, start := RebuiltUpTo(s, feed, users, br), 1000 * br.batch;
            var end := if start + 1000 < |users| then start + 1000 else |users|;
            && Members(t, feed) == Members(s, feed) + ToSet(users[..if br.applied == 0 then start else end])
            && (br.applied < 2 ==> TtlOf(t.likedBy, feed) == if start == 0 then TtlOf(s.likedBy, feed) else Short)
            && (br.applied >= 2 ==> TtlOf(t.likedBy, feed) == if end == |users| then Full else Short)
            && t.likes == s.likes && t.rows == s.rows
            && (forall g :: g != feed ==> Members(t, g) == Members(s, g) && TtlOf(t.likedBy, g) == TtlOf(s.likedBy, g))
  {
    var start := 1000 * br.batch;
    var end := End(start, |users|);
    assert users[..end] == users[..start] + users[start..end];
    assert ToSet(users[..end]) == ToSet(users[..start]) + ToSet(users[start..end]);
    assert start == 0 ==> ToSet(users[..start]) == {};
  }

  function ToSet(users: seq<Id>): set<Id> { set u | u in users }

  function End(start: nat, n: nat): nat { if start + BATCH_SIZE < n then start + BATCH_SIZE else n }

  lemma RebuiltNext(s: Store, feed: Id, users: seq<Id>, start: nat)
    requires start < |users|
    ensures var end := End(start, |users|);
            var t := SAdd(Rebuilt(s, feed, users, start), feed, ToSet(users[start..end]));
            ExpireLikedBy(t, feed, if end == |users| then Full else Short) == Rebuilt(s, feed, users, end)
  {
    var end := End(start, |users|);
    assert users[..end] == users[..start] + users[start..end];
    assert ToSet(users[..end]) == ToSet(users[..start]) + ToSet(users[start..end]);
    var m, a, b := Members(s, feed), ToSet(users[..start]), ToSet(users[start..end]);
    assert start == 0 ==> a == {};
    assert m + a + b == m + (a + b);
    var t := SAdd(Rebuilt(s, feed, users, start), feed, b);
    assert Members(t, feed) == m + ToSet(users[..end]);
    var u := ExpireLikedBy(t, feed, if end == |users| then Full else Short);
    var c := Cell(m + ToSet(users[..end]), if end == |users| then Full else Short);
    assert u.likedBy[feed] == c;
    assert u.likedBy == s.likedBy[feed := c];
  }

  // The members of a set, each once.
  ghost predicate Lists(s: seq<Id>, users: set<Id>) {
    ToSet(s) == users && forall i, j :: 0 <= i < j < |s| ==> s[i] != s[j]
  }

  function Flatten(batches: seq<seq<Id>>): seq<Id> {
    if batches == [] then [] else Flatten(batches[..|batches| - 1]) + batches[|batches| - 1]
  }

  ghost function FoundCounts(s: Store, found: seq<Id>): map<Id, int> { map id | id in found :: RowCount(s, id) }

  ghost function FoundPairs(s: Store, found: seq<Id>): seq<(Id, int)> {
    seq(|found|, i requires 0 <= i < |found| => (found[i], RowCount(s, found[i])))
  }

  lemma FoundSnoc(s: Store, found: seq<Id>, id: Id, hits: map<Id, int>)
    ensures hits + FoundCounts(s, found + [id]) == (hits + FoundCounts(s, found))[id := RowCount(s, id)]
    ensures FoundPairs(s, found + [id]) == FoundPairs(s, found) + [(id, RowCount(s, id))]
  {
  }

  lemma ResolvedSnoc(s: Store, missed: seq<Id>, failed: set<nat>, i: nat, hits: map<Id, int>)
    requires i < |missed|
    ensures var before, after := Resolved(missed[..i], failed), Resolved(missed[..i + 1], failed);
            if i in failed || missed[i] == "" then after == before
            else hits + FoundCounts(s, after) == (hits + FoundCounts(s, before))[missed[i] := RowCount(s, missed[i])]
                 && FoundPairs(s, after) == FoundPairs(s, before) + [(missed[i], RowCount(s, missed[i]))]
  {
    assert missed[..i + 1][..i] == missed[..i];
    FoundSnoc(s, Resolved(missed[..i], failed), missed[i], hits);
  }

  lemma AnswersSplit(s: Store, ids: seq<Id>, found: seq<Id>)
    requires forall id :: id in found ==> id in ids && id !in s.likes
    ensures Answers(s, ids, found) == Answers(s, ids, []) + FoundCounts(s, found)
  {
  }

  class Storage {
    var likes: map<Id, Cell<int>>
    var likedBy: map<Id, Cell<set<Id>>>
    var rows: set<(Id, Id)>

    constructor ()
      ensures State() == EMPTY_STORE && Valid()
    {
      likes, likedBy, rows := map[], map[], {};
    }

    function State(): Store
      reads this
    {
      Store(likes, likedBy, rows)
    }

    // The columns of post_likes are UUIDs.
    ghost predicate Valid()
      reads this
    {
      forall r :: r in rows ==> IsValidUuid(r.0) && IsValidUuid(r.1)
    }

    // ----- Like, Unlike, Count -----

    method Count(feed: Id, f: Fault) returns (r: Result<int>)
      modifies this`likes
      ensures (State(), r) == CountStep(old(State()), feed, f)
    {
      if f.get { return Err; }
      if feed in likes { return Ok(likes[feed].val); }
      if f.dbRead { return Err; }
      var n := RowCount(State(), feed);
      if !f.fill { likes := likes[feed := Cell(n, Full)]; }
      return Ok(n);
    }

    // The pipeline of Like and Unlike, cut after k commands; `val` is the answer of INCR or DECR.
    method RunPipeline(user: Id, feed: Id, n: int, k: nat) returns (val: int)
      requires n == 1 || n == -1
      modifies this`likes, this`likedBy
      ensures State() == Pipeline(old(State()), user, feed, n, k)
      ensures k >= 1 ==> val == CounterOf(State(), feed)
    {
      val := 0;
      if k < 1 { return; }
      val := if feed in likes then likes[feed].val + n else n;
      likes := likes[feed := if feed in likes then likes[feed].(val := val) else Cell(val, Forever)];
      if k < 2 { return; }
      if n > 0 { AddMembers(feed, {user}); } else { RemoveMember(feed, user); }
      if k < 3 { return; }
      if feed in likes { likes := likes[feed := likes[feed].(ttl := Full)]; }
      if k < 4 { return; }
      SetTtl(feed, Full);
    }

    // SADD, SREM and EXPIRE on the membership set.
    method AddMembers(feed: Id, users: set<Id>)
      modifies this`likedBy
      ensures State() == SAdd(old(State()), feed, users)
    {
      if feed in likedBy {
        likedBy := likedBy[feed := likedBy[feed].(val := likedBy[feed].val + users)];
      } else {
        assert {} + users == users;
        likedBy := likedBy[feed := Cell(users, Forever)];
      }
    }

    method RemoveMember(feed: Id, user: Id)
      modifies this`likedBy
      ensures State() == SRem(old(State()), feed, user)
    {
      if feed !in likedBy { return; }
      var rest := likedBy[feed].val - {user};
      likedBy := if rest == {} then Remove(likedBy, feed) else likedBy[feed := Cell(rest, likedBy[feed].ttl)];
    }

    method SetTtl(feed: Id, ttl: Ttl)
      modifies this`likedBy
      ensures State() == ExpireLikedBy(old(State()), feed, ttl)
    {
      if feed in likedBy { likedBy := likedBy[feed := Cell(likedBy[feed].val, ttl)]; }
    }

    method Like(user: Id, feed: Id, f: Fault) returns (r: Result<int>)
      requires Plausible(f) && Valid()
      modifies this
      ensures (State(), r) == LikeStep(old(State()), user, feed, f) && Valid()
    {
      if !f.check && user in Members(State(), feed) {
        r := Count(feed, f);
        return;
      }
      var incr := RunPipeline(user, feed, 1, f.applied);
      if f.execErr { return Err; }
      if !f.dbWrite && IsValidUuid(user) && IsValidUuid(feed) { rows := rows + {(user, feed)}; }
      return Ok(incr);
    }

    method Unlike(user: Id, feed: Id, f: Fault) returns (r: Result<int>)
      requires Plausible(f) && Valid()
      modifies this
      ensures (State(), r) == UnlikeStep(old(State()), user, feed, f) && Valid()
    {
      if f.check || user !in Members(State(), feed) {
        r := Count(feed, f);
        return;
      }
      var count := RunPipeline(user, feed, -1, f.applied);
      if f.execErr { return Err; }
      if count < 0 {
        if !f.fill { likes := likes[feed := Cell(0, Full)]; }
        count := 0;
      }
      if !f.dbWrite && IsValidUuid(user) && IsValidUuid(feed) { rows := rows - {(user, feed)}; }
      return Ok(count);
    }

    // ----- BatchCount -----

    method CollectHits(ids: seq<Id>) returns (result: map<Id, int>, missed: seq<Id>)
      ensures result == Answers(State(), ids, []) && missed == Missed(State(), ids)
    {
      result, missed := map[], [];
      for i := 0 to |ids|
        invariant result == Answers(State(), ids[..i], [])
        invariant missed == Missed(State(), ids[..i])
      {
        var id := ids[i];
        assert ids[..i + 1][..i] == ids[..i];
        assert forall x :: x in ids[..i + 1] <==> x in ids[..i] || x == id;
        if id in likes { result := result[id := likes[id].val]; } else { missed := missed + [id]; }
      }
      assert ids[..|ids|] == ids;
    }

    /** One goroutine for each miss, finishing in any order; each fills its own slot, or none if its read fails. */
    method ReadMisses(missed: seq<Id>, failed: set<nat>) returns (slots: seq<(Id, int)>)
      ensures |slots| == |missed|
      ensures forall i :: 0 <= i < |slots| ==>
        slots[i] == if i in failed then ("", 0) else (missed[i], RowCount(State(), missed[i]))
    {
      slots := seq(|missed|, _ => ("", 0));
      var running := FirstNumbers(|missed|);
      while running != {}
        invariant |slots| == |missed|
        invariant forall i :: i in running ==> i < |missed|
        invariant forall i :: 0 <= i < |slots| ==>
          slots[i] == if i in running || i in failed then ("", 0) else (missed[i], RowCount(State(), missed[i]))
        decreases running
      {
        var i :| i in running;
        if i !in failed {
          slots := slots[i := (missed[i], RowCount(State(), missed[i]))];
        }
        running := running - {i};
      }
    }

    // The last loop: a result and a SET for each filled slot.
    method GatherFound(missed: seq<Id>, failed: set<nat>, slots: seq<(Id, int)>, hits: map<Id, int>)
      returns (result: map<Id, int>, sets: seq<(Id, int)>)
      requires |slots| == |missed|
      requires forall i :: 0 <= i < |slots| ==>
        slots[i] == if i in failed then ("", 0) else (missed[i], RowCount(State(), missed[i]))
      ensures result == hits + FoundCounts(State(), Resolved(missed, failed))
      ensures sets == FoundPairs(State(), Resolved(missed, failed))
    {
      result, sets := hits, [];
      for i := 0 to |slots|
        invariant result == hits + FoundCounts(State(), Resolved(missed[..i], failed))
        invariant sets == FoundPairs(State(), Resolved(missed[..i], failed))
      {
        ResolvedSnoc(State(), missed, failed, i, hits);
        var (id, n) := slots[i];
        if id != "" {
          result := result[id := n];
          sets := sets + [(id, n)];
        }
      }
      assert missed[..|missed|] == missed;
    }

    // The pipeline of SETs, of which the first `kept` take effect.
    method SendSets(ghost found: seq<Id>, sets: seq<(Id, int)>, kept: nat)
      requires sets == FoundPairs(State(), found)
      modifies this`likes
      ensures State() == FillAll(old(State()), FirstOf(found, kept))
    {
      ghost var start := State();
      assert found[..0] == [];
      for i := 0 to if kept < |sets| then kept else |sets|
        invariant State() == FillAll(start, found[..i])
      {
        assert found[..i + 1][..i] == found[..i];
        FillLeaves(start, found[..i]);
        likes := likes[sets[i].0 := Cell(sets[i].1, Full)];
      }
      assert found[..|found|] == found;
    }

    /** The contract does not mention the order in which the reads finish. */
    method BatchCount(ids: seq<Id>, pipeErr: bool, failed: set<nat>, kept: nat) returns (r: Result<map<Id, int>>)
      modifies this`likes
      ensures (State(), r) == BatchStep(old(State()), ids, pipeErr, failed, kept)
    {
      if |ids| == 0 { return Ok(map[]); }
      if pipeErr { return Err; }
      var result, missed := CollectHits(ids);
      ghost var start := State();
      ghost var found := Resolved(missed, failed);
      if |missed| == 0 {
        assert FirstOf(found, kept) == [];
        return Ok(result);
      }
      var slots := ReadMisses(missed, failed);
      var sets;
      result, sets := GatherFound(missed, failed, slots, result);
      SendSets(found, sets, kept);
      FoundAreMisses(start, ids, failed);
      AnswersSplit(start, ids, found);
      return Ok(result);
    }

    // ----- IsLiked and the rebuild of the membership set -----

    method ListLikers(feed: Id, err: bool) returns (r: Result<seq<Id>>)
      requires Valid()
      ensures r.Err? <==> err && IsValidUuid(feed)
      ensures r.Ok? ==> Lists(r.value, UsersIn(rows, feed))
    {
      if !IsValidUuid(feed) { return Ok([]); }
      if err { return Err; }
      var users: seq<Id> := [];
      var rest := UsersIn(rows, feed);
      while rest != {}
        invariant ToSet(users) + rest == UsersIn(rows, feed) && ToSet(users) !! rest
        invariant forall i, j :: 0 <= i < j < |users| ==> users[i] != users[j]
        decreases rest
      {
        var u :| u in rest;
        assert u !in ToSet(users);
        users := users + [u];
        rest := rest - {u};
      }
      return Ok(users);
    }

    /** Batches of at most 1000 in list order. A break in batch k leaves exactly the first 1000*k users added, under
        the short TTL if k > 0 and the old one if k = 0, or also those of batch k if its SADD still ran. */
    method AddInBatches(feed: Id, users: seq<Id>, br: Break) returns (ok: bool, sent: seq<seq<Id>>)
      modifies this`likedBy
      ensures ok <==> !Breaks(br, |users|)
      ensures State() == RebuiltUpTo(old(State()), feed, users, br)
      ensures ok ==> Flatten(sent) == users
      ensures forall i :: 0 <= i < |sent| ==> 0 < |sent[i]| <= 1000 && (i < |sent| - 1 ==> |sent[i]| == 1000)
    {
      sent := [];
      var start := 0;
      ghost var k := 0;
      while start < |users|
        invariant start == if k * BATCH_SIZE < |users| then k * BATCH_SIZE else |users|
        invariant State() == Rebuilt(old(State()), feed, users, start) && Flatten(sent) == users[..start]
        invariant forall i :: 0 <= i < |sent| ==> 0 < |sent[i]| <= 1000 && (start < |users| || i < |sent| - 1 ==> |sent[i]| == 1000)
        invariant br.Break? && k > br.batch ==> !Breaks(br, |users|)
        decreases |users| - start
      {
        var end := End(start, |users|);
        var members := users[start..end];
        RebuiltNext(old(State()), feed, users, start);
        var here := br.Break? && br.batch * BATCH_SIZE == start;
        if here && br.applied == 0 { return false, sent; }
        AddMembers(feed, ToSet(members));
        if here && br.applied == 1 { return false, sent; }
        SetTtl(feed, if end >= |users| then Full else Short);
        if here { return false, sent; }
        assert users[..end] == users[..start] + members;
        sent := sent + [members];
        start := end;
        k := k + 1;
      }
      assert users[..|users|] == users;
      ok := true;
    }

    /** `users` are the likers in the order the database listed them; the rebuild runs over them up to the break. */
    method RebuildLikedBy(feed: Id, listErr: bool, br: Break) returns (ok: bool, ghost users: seq<Id>)
      requires Valid()
      modifies this`likedBy
      ensures ok <==> !(listErr && IsValidUuid(feed)) && !Breaks(br, |users|)
      ensures if listErr && IsValidUuid(feed) then users == [] && State() == old(State())
              else Lists(users, UsersIn(rows, feed)) && State() == RebuiltUpTo(old(State()), feed, users, br)
      ensures ok ==> State() == if UsersIn(rows, feed) == {} then old(State())
        else old(State()).(likedBy := old(likedBy)[feed := Cell(Members(old(State()), feed) + UsersIn(rows, feed), Full)])
    {
      users := [];
      var r := ListLikers(feed, listErr);
      if r.Err? { return false, []; }
      users := r.value;
      assert users[..|users|] == users;
      if |users| > 0 { assert users[0] in ToSet(users); }
      if |r.value| == 0 { return true, users; }
      var sent;
      ok, sent := AddInBatches(feed, r.value, br);
    }

    /** An answered SISMEMBER decides. Only a nil reply leads to a rebuild, after which the set, as the rebuild left
        it, answers again; if the rebuild failed the table does. */
    method IsLiked(user: Id, feed: Id, probe: Probe, listErr: bool, br: Break, dbErr: bool, recheckErr: bool)
      returns (r: Result<bool>, ghost users: seq<Id>)
      requires Valid()
      modifies this`likedBy
      ensures probe.Answers01? ==> r == Ok(user in Members(old(State()), feed))
      ensures probe.Broken? ==> r == Err
      ensures !probe.NilReply? ==> State() == old(State())
      ensures probe.NilReply? && r.Ok? && feed !in old(likedBy) ==> (r.value <==> (user, feed) in rows)
      ensures probe.NilReply? && listErr && IsValidUuid(feed) ==> State() == old(State())
      ensures probe.NilReply? && !(listErr && IsValidUuid(feed)) ==>
        Lists(users, UsersIn(rows, feed)) && State() == RebuiltUpTo(old(State()), feed, users, br)
      ensures probe.NilReply? ==>
        var rebuilt := !(listErr && IsValidUuid(feed)) && !Breaks(br, |users|);
        if !rebuilt then r == Ok((user, feed) in rows) || (r == Err && dbErr)
        else r == if recheckErr then Err else Ok(user in Members(old(State()), feed) + UsersIn(rows, feed))
    {
      users := [];
      match probe
      case Broken => return Err, [];
      case Answers01 => return Ok(user in Members(State(), feed)), [];
      case NilReply =>
        UsersInMember(rows, user, feed);
        var ok;
        ok, users := RebuildLikedBy(feed, listErr, br);
        if !ok { r := IsLikedRow(user, feed, dbErr); return; }
        if recheckErr { return Err, users; }
        return Ok(user in Members(State(), feed)), users;
    }

    method IsLikedRow(user: Id, feed: Id, err: bool) returns (r: Result<bool>)
      requires Valid()
      ensures r == Ok((user, feed) in rows) || (r == Err && err)
    {
      if !IsValidUuid(user) || !IsValidUuid(feed) { return Ok(false); }
      if err { return Err; }
      return Ok((user, feed) in rows);
    }
  }
}
