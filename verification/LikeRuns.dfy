/** Runs of the like store, one call after the other and with keys expiring in between, against a plain set of
    (user, feed) pairs. */
module LikeRuns {
  import opened Collections
  import opened LikeStore
  import opened BatchCounting

  datatype Call = Like(user: Id, feed: Id) | Unlike(user: Id, feed: Id) | Count(feed: Id)
                | IsLiked(user: Id, feed: Id) | BatchCount(ids: seq<Id>)

  /** A call with the fault that befalls it, or the expiry of one of a feed's two keys. */
  datatype Event = Called(call: Call, fault: Fault) | CounterExpires(feed: Id) | SetExpires(feed: Id)

  datatype Reply = Number(n: Result<int>) | Flag(b: Result<bool>) | Numbers(m: Result<map<Id, int>>) {
    predicate Failed() { this == Number(Err) || this == Flag(Err) || this == Numbers(Err) }
  }

  function Exec(s: Store, c: Call, f: Fault): (Store, Reply) {
    match c
    case Like(u, g) => var (t, r) := LikeStep(s, u, g, f); (t, Number(r))
    case Unlike(u, g) => var (t, r) := UnlikeStep(s, u, g, f); (t, Number(r))
    case Count(g) => var (t, r) := CountStep(s, g, f); (t, Number(r))
    case IsLiked(u, g) => (s, Flag(if f.check then Err else Ok(u in Members(s, g))))
    case BatchCount(ids) =>
      var failed := if f.dbRead then FirstNumbers(|ids|) else {};
      var (t, r) := BatchStep(s, ids, f.get, failed, if f.fill then 0 else |ids|); (t, Numbers(r))
  }

  function Apply(s: Store, e: Event): Store {
    match e
    case Called(c, f) => Exec(s, c, f).0
    case CounterExpires(g) => s.(likes := Remove(s.likes, g))
    case SetExpires(g) => s.(likedBy := Remove(s.likedBy, g))
  }

  // The same calls on a set of (user, feed) pairs.
  function Ideal(a: set<(Id, Id)>, c: Call): set<(Id, Id)> {
    match c
    case Like(u, g) => a + {(u, g)}
    case Unlike(u, g) => a - {(u, g)}
    case _ => a
  }

  function IdealReply(a: set<(Id, Id)>, c: Call): Reply {
    match c
    case Like(u, g) => Number(Ok(|UsersIn(Ideal(a, c), g)|))
    case Unlike(u, g) => Number(Ok(|UsersIn(Ideal(a, c), g)|))
    case Count(g) => Number(Ok(|UsersIn(a, g)|))
    case IsLiked(u, g) => Flag(Ok((u, g) in a))
    case BatchCount(ids) => Numbers(Ok(map id | id in ids :: |UsersIn(a, id)|))
  }

  /** Whether the call counts as made: it was answered or, having failed, its pipeline had got as far as the
      membership command. */
  predicate TookEffect(s: Store, c: Call, f: Fault) {
    match c
    case Like(u, g) => if LikeReaches(s, u, g, f) then f.applied >= 2 else CountStep(s, g, f).1.Ok?
    case Unlike(u, g) => if UnlikeReaches(s, u, g, f) then f.applied >= 2 else CountStep(s, g, f).1.Ok?
    case _ => true
  }

  function After(s: Store, a: set<(Id, Id)>, e: Event): set<(Id, Id)> {
    if e.Called? && TookEffect(s, e.call, e.fault) then Ideal(a, e.call) else a
  }

  ghost predicate Represents(s: Store, a: set<(Id, Id)>) { forall g :: RepresentsAt(s, a, g) }

  /** Count answers the number of a feed's likers, from the counter or the table, and the set holds no others. */
  ghost predicate RepresentsAt(s: Store, a: set<(Id, Id)>, g: Id) {
    Members(s, g) <= UsersIn(a, g) && CountOf(s, g) == |UsersIn(a, g)|
  }

  /** What an event must meet to leave the counts right. A like or unlike that reaches its pipeline must find the
      counter and a user that counts, or no counter and nobody else; an unlike that does not reach it, nothing to
      remove; the expiry of a counter, a table with as many rows. */
  ghost predicate Harmless(s: Store, a: set<(Id, Id)>, e: Event) {
    match e
    case SetExpires(g) => true
    case CounterExpires(g) => RowCount(s, g) == |UsersIn(a, g)|
    case Called(c, f) =>
      match c
      case Like(u, g) =>
        LikeReaches(s, u, g, f) && f.applied > 0 ==> IncrFits(g in s.likes, UsersIn(a, g), u, f.applied)
      case Unlike(u, g) =>
        if UnlikeReaches(s, u, g, f) then f.applied > 0 ==> DecrFits(g in s.likes, UsersIn(a, g), u, f)
        else CountStep(s, g, f).1.Ok? ==> (u, g) !in a
      case _ => true
  }

  // ----- One event -----

  lemma CountKeeps(s: Store, a: set<(Id, Id)>, feed: Id, f: Fault)
    requires Represents(s, a)
    ensures var (t, r) := CountStep(s, feed, f);
            Represents(t, a) && (r == Ok(|UsersIn(a, feed)|) || (r == Err && (f.get || f.dbRead)))
  {
    assert RepresentsAt(s, a, feed);
    var t := CountStep(s, feed, f).0;
    forall g ensures RepresentsAt(t, a, g) { assert RepresentsAt(s, a, g); }
  }

  lemma RowsOfOthers(rows: set<(Id, Id)>, u: Id, g: Id, h: Id)
    requires h != g
    ensures UsersIn(rows + {(u, g)}, h) == UsersIn(rows - {(u, g)}, h) == UsersIn(rows, h)
  {
    UsersInChange(rows, u, g, h);
  }

  // The other feeds keep their counters and sets, and lose or gain no row.
  ghost predicate OnlyAt(s: Store, t: Store, g: Id) {
    forall h :: h != g ==> SameAt(s, t, h)
  }

  ghost predicate SameAt(s: Store, t: Store, h: Id) { Members(t, h) == Members(s, h) && CountOf(t, h) == CountOf(s, h) }

  lemma MovedOnlyAt(s: Store, t: Store, u: Id, g: Id, n: int, k: nat, c: int)
    requires Moved(s, t, u, g, n, k, c)
    requires t.rows == s.rows || t.rows == s.rows + {(u, g)} || t.rows == s.rows - {(u, g)}
    ensures OnlyAt(s, t, g)
  {
    forall h | h != g ensures SameAt(s, t, h) {
      assert Untouched(s, t, h);
      RowsOfOthers(s.rows, u, g, h);
    }
  }

  // So whether the sets are represented after an event on g is seen at g.
  lemma RepresentsFromAt(s: Store, a: set<(Id, Id)>, t: Store, b: set<(Id, Id)>, u: Id, g: Id)
    requires Represents(s, a) && OnlyAt(s, t, g) && (b == a || b == a + {(u, g)} || b == a - {(u, g)})
    ensures Represents(t, b) <==> RepresentsAt(t, b, g)
  {
    if RepresentsAt(t, b, g) {
      forall h ensures RepresentsAt(t, b, h) {
        if h != g {
          RowsOfOthers(a, u, g, h);
          assert RepresentsAt(s, a, h) && SameAt(s, t, h);
        }
      }
    }
  }

  lemma LikeMovedIff(s: Store, a: set<(Id, Id)>, t: Store, u: Id, g: Id, k: nat)
    requires Represents(s, a) && OnlyAt(s, t, g) && k > 0 && Moved(s, t, u, g, 1, k, Bumped(s, g, 1, k))
    ensures Represents(t, if k >= 2 then a + {(u, g)} else a) <==> IncrFits(g in s.likes, UsersIn(a, g), u, k)
  {
    assert RepresentsAt(s, a, g);
    UsersInChange(a, u, g, g);
    MemberSize(UsersIn(a, g), u);
    SizeFits(UsersIn(a, g), u);
    RepresentsFromAt(s, a, t, if k >= 2 then a + {(u, g)} else a, u, g);
  }

  lemma UnlikeMovedIff(s: Store, a: set<(Id, Id)>, t: Store, u: Id, g: Id, f: Fault)
    requires Represents(s, a) && OnlyAt(s, t, g) && f.applied > 0 && u in Members(s, g) && Plausible(f)
    requires Moved(s, t, u, g, -1, f.applied, Clamped(Bumped(s, g, -1, f.applied), f))
    ensures Represents(t, if f.applied >= 2 then a - {(u, g)} else a) <==> DecrFits(g in s.likes, UsersIn(a, g), u, f)
  {
    assert RepresentsAt(s, a, g);
    UsersInChange(a, u, g, g);
    MemberSize(UsersIn(a, g), u);
    SizeFits(UsersIn(a, g), u);
    RepresentsFromAt(s, a, t, if f.applied >= 2 then a - {(u, g)} else a, u, g);
  }

  lemma LikeIff(s: Store, a: set<(Id, Id)>, u: Id, g: Id, f: Fault)
    requires Represents(s, a) && Plausible(f)
    ensures var e := Called(Like(u, g), f);
            Represents(Apply(s, e), After(s, a, e)) <==> Harmless(s, a, e)
  {
    if !LikeReaches(s, u, g, f) {
      assert RepresentsAt(s, a, g);
      UsersInMember(a, u, g);
      assert a + {(u, g)} == a;
      CountKeeps(s, a, g, f);
    } else if f.applied > 0 {
      LikeEffect(s, u, g, f);
      MovedOnlyAt(s, LikeStep(s, u, g, f).0, u, g, 1, f.applied, Bumped(s, g, 1, f.applied));
      LikeMovedIff(s, a, LikeStep(s, u, g, f).0, u, g, f.applied);
    }
  }

  lemma UnlikeIff(s: Store, a: set<(Id, Id)>, u: Id, g: Id, f: Fault)
    requires Represents(s, a) && Plausible(f)
    ensures var e := Called(Unlike(u, g), f);
            Represents(Apply(s, e), After(s, a, e)) <==> Harmless(s, a, e)
  {
    if !UnlikeReaches(s, u, g, f) {
      CountKeeps(s, a, g, f);
      NotRemovedIff(a, CountStep(s, g, f).0, u, g);
    } else if f.applied > 0 {
      UnlikeEffect(s, u, g, f);
      var c := Clamped(Bumped(s, g, -1, f.applied), f);
      MovedOnlyAt(s, UnlikeStep(s, u, g, f).0, u, g, -1, f.applied, c);
      UnlikeMovedIff(s, a, UnlikeStep(s, u, g, f).0, u, g, f);
    }
  }

  // A like that was not removed counts, and a pair that was not there takes nothing away.
  lemma NotRemovedIff(a: set<(Id, Id)>, t: Store, u: Id, g: Id)
    requires Represents(t, a)
    ensures Represents(t, a - {(u, g)}) <==> (u, g) !in a
  {
    UsersInChange(a, u, g, g);
    MemberSize(UsersIn(a, g), u);
    assert RepresentsAt(t, a, g);
    if (u, g) in a {
      assert !RepresentsAt(t, a - {(u, g)}, g);
    } else {
      assert a - {(u, g)} == a;
    }
  }

  lemma {:induction false} FillKeeps(s: Store, a: set<(Id, Id)>, ids: seq<Id>)
    requires Represents(s, a) && forall id :: id in ids ==> id !in s.likes
    ensures Represents(FillAll(s, ids), a)
  {
    if ids != [] {
      var t, last := FillAll(s, ids[..|ids| - 1]), ids[|ids| - 1];
      FillKeeps(s, a, ids[..|ids| - 1]);
      assert RepresentsAt(s, a, last);
      forall g ensures RepresentsAt(FillAll(s, ids), a, g) { assert RepresentsAt(t, a, g); }
    }
  }

  lemma BatchKeeps(s: Store, a: set<(Id, Id)>, ids: seq<Id>, f: Fault)
    requires Represents(s, a)
    ensures Represents(Exec(s, BatchCount(ids), f).0, a)
  {
    var failed := if f.dbRead then FirstNumbers(|ids|) else {};
    FoundAreMisses(s, ids, failed);
    FillKeeps(s, a, FirstOf(Resolved(Missed(s, ids), failed), if f.fill then 0 else |ids|));
  }

  lemma BatchLeaves(s: Store, ids: seq<Id>, f: Fault)
    ensures var t := Exec(s, BatchCount(ids), f).0; t.rows == s.rows && t.likedBy == s.likedBy
  {
    var failed := if f.dbRead then FirstNumbers(|ids|) else {};
    FillLeaves(s, FirstOf(Resolved(Missed(s, ids), failed), if f.fill then 0 else |ids|));
  }

  /** An event keeps the counts right if and only if it is harmless. */
  lemma StepIff(s: Store, a: set<(Id, Id)>, e: Event)
    requires Represents(s, a) && (e.Called? ==> Plausible(e.fault))
    ensures Represents(Apply(s, e), After(s, a, e)) <==> Harmless(s, a, e)
  {
    match e {
      case SetExpires(g) =>
        forall h ensures RepresentsAt(Apply(s, e), a, h) { assert RepresentsAt(s, a, h); }
      case CounterExpires(g) =>
        assert OnlyAt(s, Apply(s, e), g);
        assert RepresentsAt(s, a, g);
        RepresentsFromAt(s, a, Apply(s, e), a, "", g);
      case Called(c, f) =>
        match c {
          case Like(u, g) => LikeIff(s, a, u, g, f);
          case Unlike(u, g) => UnlikeIff(s, a, u, g, f);
          case Count(g) => CountKeeps(s, a, g, f);
          case IsLiked(u, g) =>
          case BatchCount(ids) => BatchKeeps(s, a, ids, f);
        }
    }
  }

  // ----- Runs -----

  function RunStore(es: seq<Event>): Store {
    if es == [] then EMPTY_STORE else Apply(RunStore(es[..|es| - 1]), es[|es| - 1])
  }

  function RunIdeal(es: seq<Event>): set<(Id, Id)> {
    if es == [] then {}
    else After(RunStore(es[..|es| - 1]), RunIdeal(es[..|es| - 1]), es[|es| - 1])
  }

  ghost predicate PlausibleRun(es: seq<Event>) { forall e :: e in es && e.Called? ==> Plausible(e.fault) }

  ghost predicate RightAt(es: seq<Event>, k: nat)
    requires k <= |es|
  {
    Represents(RunStore(es[..k]), RunIdeal(es[..k]))
  }

  ghost predicate HarmlessAt(es: seq<Event>, k: nat)
    requires k < |es|
  {
    Harmless(RunStore(es[..k]), RunIdeal(es[..k]), es[k])
  }

  ghost predicate HarmlessRun(es: seq<Event>) { forall k: nat :: k < |es| ==> HarmlessAt(es, k) }

  lemma EmptyRepresents()
    ensures Represents(EMPTY_STORE, {})
  {
    forall g ensures RepresentsAt(EMPTY_STORE, {}, g) { assert UsersIn({}, g) == {}; }
  }

  lemma HarmlessBefore(es: seq<Event>)
    requires es != [] && HarmlessRun(es)
    ensures HarmlessRun(es[..|es| - 1])
    ensures Harmless(RunStore(es[..|es| - 1]), RunIdeal(es[..|es| - 1]), es[|es| - 1])
  {
    var before := es[..|es| - 1];
    forall k: nat | k < |before| ensures HarmlessAt(before, k) {
      assert before[..k] == es[..k];
      assert HarmlessAt(es, k);
    }
    assert HarmlessAt(es, |es| - 1);
  }

  /** Along a harmless run the counts are right. */
  lemma {:induction false} HarmlessIsRight(es: seq<Event>)
    requires PlausibleRun(es) && HarmlessRun(es)
    ensures Represents(RunStore(es), RunIdeal(es))
  {
    if es == [] {
      EmptyRepresents();
    } else {
      var before := es[..|es| - 1];
      HarmlessBefore(es);
      assert es[|es| - 1] in es;
      HarmlessIsRight(before);
      StepIff(RunStore(before), RunIdeal(before), es[|es| - 1]);
    }
  }

  lemma HarmlessPrefix(es: seq<Event>, k: nat)
    requires k <= |es| && HarmlessRun(es)
    ensures HarmlessRun(es[..k])
  {
    forall j: nat | j < k ensures HarmlessAt(es[..k], j) {
      assert es[..k][..j] == es[..j];
      assert HarmlessAt(es, j);
    }
  }

  /** From empty stores, whatever calls fail and whichever keys expire: what Count would answer is right all along a
      run if and only if each of its events is harmless when it comes. */
  lemma RunRightIff(es: seq<Event>)
    requires PlausibleRun(es)
    ensures (forall k: nat :: k <= |es| ==> RightAt(es, k)) <==> HarmlessRun(es)
  {
    if HarmlessRun(es) {
      forall k: nat | k <= |es| ensures RightAt(es, k) {
        HarmlessPrefix(es, k);
        HarmlessIsRight(es[..k]);
      }
    }
    if forall k: nat :: k <= |es| ==> RightAt(es, k) {
      forall k: nat | k < |es| ensures HarmlessAt(es, k) {
        assert RightAt(es, k) && RightAt(es, k + 1);
        assert es[..k + 1][..k] == es[..k];
        StepIff(RunStore(es[..k]), RunIdeal(es[..k]), es[k]);
      }
    }
  }

  // ----- Answers -----

  // An error, the ideal answer, or, from a batch whose SQL reads failed, a part of it.
  ghost predicate Answered(r: Reply, c: Call, a: set<(Id, Id)>, f: Fault) {
    || (r.Failed() && (f.execErr || f.get || f.dbRead || f.check))
    || r == IdealReply(a, c)
    || (f.dbRead && c.BatchCount? && r.Numbers? && r.m.Ok?
        && forall id :: id in r.m.value ==> id in c.ids && r.m.value[id] == |UsersIn(a, id)|)
  }

  lemma BatchAnswered(s: Store, a: set<(Id, Id)>, ids: seq<Id>, f: Fault)
    requires Represents(s, a) && "" !in ids
    ensures Answered(Exec(s, BatchCount(ids), f).1, BatchCount(ids), a, f)
  {
    BatchRepliesRefine(s, a, ids, if f.dbRead then FirstNumbers(|ids|) else {}, if f.fill then 0 else |ids|);
  }

  lemma BatchRepliesRefine(s: Store, a: set<(Id, Id)>, ids: seq<Id>, failed: set<nat>, kept: nat)
    requires Represents(s, a) && "" !in ids
    ensures var m := BatchStep(s, ids, false, failed, kept).1.value;
            && (forall id :: id in m ==> id in ids && m[id] == |UsersIn(a, id)|)
            && (failed == {} ==> Numbers(Ok(m)) == IdealReply(a, BatchCount(ids)))
  {
    var found := Resolved(Missed(s, ids), failed);
    AnswersRefine(s, a, ids, found);
    if failed == {} {
      FoundMembers(s, ids);
      AnswersComplete(s, a, ids, found);
    }
  }

  lemma AnswersRefine(s: Store, a: set<(Id, Id)>, ids: seq<Id>, found: seq<Id>)
    requires Represents(s, a)
    ensures forall id :: id in Answers(s, ids, found) ==> id in ids && Answers(s, ids, found)[id] == |UsersIn(a, id)|
  {
    forall id | id in Answers(s, ids, found) ensures Answers(s, ids, found)[id] == |UsersIn(a, id)| {
      assert RepresentsAt(s, a, id);
    }
  }

  lemma AnswersComplete(s: Store, a: set<(Id, Id)>, ids: seq<Id>, found: seq<Id>)
    requires forall id :: id in Answers(s, ids, found) ==> Answers(s, ids, found)[id] == |UsersIn(a, id)|
    requires forall id :: id in found <==> id in ids && id !in s.likes
    ensures Answers(s, ids, found) == map id | id in ids :: |UsersIn(a, id)|
  {
    forall id ensures id in Answers(s, ids, found) <==> id in ids {}
  }

  // A Like or Unlike that succeeds answers what a Count after it would, unless an unlike's clamp was not stored.
  lemma RepliesCount(s: Store, u: Id, g: Id, f: Fault)
    requires Plausible(f)
    ensures var (t, r) := LikeStep(s, u, g, f);
            (r.Ok? ==> r.value == CountOf(t, g)) && (r.Err? ==> f.execErr || f.get || f.dbRead)
    ensures var (t, r) := UnlikeStep(s, u, g, f);
            (r.Ok? && CountOf(t, g) >= 0 ==> r.value == CountOf(t, g)) && (r.Err? ==> f.execErr || f.get || f.dbRead)
  {
    if LikeReaches(s, u, g, f) { LikeEffect(s, u, g, f); }
    if UnlikeReaches(s, u, g, f) { UnlikeEffect(s, u, g, f); }
  }

  lemma WriteAnswered(s: Store, a: set<(Id, Id)>, c: Call, f: Fault)
    requires (c.Like? || c.Unlike?) && Plausible(f)
    requires Represents(Apply(s, Called(c, f)), After(s, a, Called(c, f)))
    ensures Answered(Exec(s, c, f).1, c, a, f)
  {
    RepliesCount(s, c.user, c.feed, f);
    assert RepresentsAt(Apply(s, Called(c, f)), After(s, a, Called(c, f)), c.feed);
  }

  /** Along a harmless run, with failures and expiries, every count is answered as the plain set would, or the call
      reports what failed. */
  lemma RunRefines(es: seq<Event>, k: nat)
    requires PlausibleRun(es) && HarmlessRun(es) && k < |es| && es[k].Called? && !es[k].call.IsLiked?
    requires es[k].Called? && es[k].call.BatchCount? ==> "" !in es[k].call.ids
    ensures Answered(Exec(RunStore(es[..k]), es[k].call, es[k].fault).1, es[k].call, RunIdeal(es[..k]), es[k].fault)
  {
    var s, a, c, f := RunStore(es[..k]), RunIdeal(es[..k]), es[k].call, es[k].fault;
    HarmlessPrefix(es, k);
    HarmlessIsRight(es[..k]);
    assert HarmlessAt(es, k);
    StepIff(s, a, es[k]);
    match c {
      case Count(g) => CountKeeps(s, a, g, f);
      case BatchCount(ids) => BatchAnswered(s, a, ids, f);
      case _ => WriteAnswered(s, a, c, f);
    }
  }

  // ----- IsLiked, and what the set's expiry makes it forget -----

  // The event puts the user into the feed's set.
  predicate Adds(s: Store, e: Event, u: Id, g: Id) {
    e.Called? && e.call == Like(u, g) && LikeReaches(s, u, g, e.fault) && e.fault.applied >= 2
  }

  // The event takes the user out of it.
  predicate Removes(s: Store, e: Event, u: Id, g: Id) {
    e == SetExpires(g)
    || (e.Called? && e.call == Unlike(u, g) && UnlikeReaches(s, u, g, e.fault) && e.fault.applied >= 2)
  }

  // An unlike by a member that was answered although its check had failed.
  predicate Blind(s: Store, e: Event, u: Id, g: Id) {
    e.Called? && e.call == Unlike(u, g) && u in Members(s, g) && e.fault.check && CountStep(s, g, e.fault).1.Ok?
  }

  /** The feed's set has expired since the user's like was last added to it. */
  predicate ExpiredSince(es: seq<Event>, u: Id, g: Id) {
    es != [] &&
    var before, e := es[..|es| - 1], es[|es| - 1];
    e == SetExpires(g) || (!Adds(RunStore(before), e, u, g) && ExpiredSince(before, u, g))
  }

  /** A blind unlike, and since then no like or unlike by the user that took effect, and no expiry of the set. */
  predicate BlindSince(es: seq<Event>, u: Id, g: Id) {
    es != [] &&
    var before, e := es[..|es| - 1], es[|es| - 1];
    var s := RunStore(before);
    || Blind(s, e, u, g)
    || (BlindSince(before, u, g) && !Removes(s, e, u, g)
        && !(e.Called? && e.call == Like(u, g) && TookEffect(s, e.call, e.fault)))
  }

  lemma MemberStep(s: Store, e: Event, u: Id, g: Id)
    requires e.Called? ==> Plausible(e.fault)
    ensures u in Members(Apply(s, e), g) <==> Adds(s, e, u, g) || (u in Members(s, g) && !Removes(s, e, u, g))
  {
    if e.Called? {
      match e.call {
        case Like(v, h) => LikeMembers(s, v, h, e.fault, u, g);
        case Unlike(v, h) => UnlikeMembers(s, v, h, e.fault, u, g);
        case BatchCount(ids) => BatchLeaves(s, ids, e.fault);
        case _ =>
      }
    }
  }

  lemma LikeMembers(s: Store, v: Id, h: Id, f: Fault, u: Id, g: Id)
    ensures var e := Called(Like(v, h), f);
            u in Members(Apply(s, e), g) <==> Adds(s, e, u, g) || u in Members(s, g)
  {
    if LikeReaches(s, v, h, f) {
      LikeEffect(s, v, h, f);
      if g != h { assert Untouched(s, LikeStep(s, v, h, f).0, g); }
    }
  }

  lemma UnlikeMembers(s: Store, v: Id, h: Id, f: Fault, u: Id, g: Id)
    requires Plausible(f)
    ensures var e := Called(Unlike(v, h), f);
            u in Members(Apply(s, e), g) <==> u in Members(s, g) && !Removes(s, e, u, g)
  {
    if UnlikeReaches(s, v, h, f) {
      UnlikeEffect(s, v, h, f);
      if g != h { assert Untouched(s, UnlikeStep(s, v, h, f).0, g); }
    }
  }

  /** Over any run: the set and the plain set differ on a user who likes the feed exactly if the set has expired since,
      and on one who does not exactly after a blind unlike. */
  lemma {:induction false} MembershipIff(es: seq<Event>, u: Id, g: Id)
    requires PlausibleRun(es)
    ensures (u, g) in RunIdeal(es) ==> (u !in Members(RunStore(es), g) <==> ExpiredSince(es, u, g))
    ensures ExpiredSince(es, u, g) ==> u !in Members(RunStore(es), g)
    ensures u in Members(RunStore(es), g) && (u, g) !in RunIdeal(es) <==> BlindSince(es, u, g)
  {
    if es != [] {
      var before, e := es[..|es| - 1], es[|es| - 1];
      assert e in es;
      MembershipIff(before, u, g);
      MemberStep(RunStore(before), e, u, g);
    }
  }

  /** After any run, IsLiked answers as the plain set would if and only if the user does not like the feed or its set
      has not expired since the like, and the user's last unlike was not a blind one: an expired set is not rebuilt. */
  lemma IsLikedRightIff(es: seq<Event>, u: Id, g: Id, f: Fault)
    requires PlausibleRun(es) && !f.check
    ensures Exec(RunStore(es), IsLiked(u, g), f).1 == IdealReply(RunIdeal(es), IsLiked(u, g)) <==>
      !((u, g) in RunIdeal(es) && ExpiredSince(es, u, g)) && !BlindSince(es, u, g)
  {
    MembershipIff(es, u, g);
  }

  // ----- Faults alone -----

  // Without expiry: a like or unlike whose check is answered and whose pipeline is not cut after INCR or DECR.
  ghost predicate Benign(e: Event) {
    && e.Called? && Plausible(e.fault)
    && (e.call.Like? || e.call.Unlike? ==> !e.fault.check && e.fault.applied != 1)
    && (e.call.BatchCount? ==> "" !in e.call.ids)
  }

  // Without expiry, the set holds every liker, and a counter is missing only where there is none.
  ghost predicate Complete(s: Store, a: set<(Id, Id)>) {
    forall g :: Members(s, g) == UsersIn(a, g) && (g !in s.likes ==> UsersIn(a, g) == {})
  }

  lemma BenignIsHarmless(s: Store, a: set<(Id, Id)>, e: Event)
    requires Represents(s, a) && Complete(s, a) && Benign(e)
    ensures Harmless(s, a, e)
  {
    if e.call.Like? || e.call.Unlike? { UsersInMember(a, e.call.user, e.call.feed); }
  }

  lemma StillComplete(s: Store, a: set<(Id, Id)>, e: Event)
    requires Represents(s, a) && Complete(s, a) && Benign(e)
    ensures Complete(Apply(s, e), After(s, a, e))
  {
    var t, b, f := Apply(s, e), After(s, a, e), e.fault;
    BenignIsHarmless(s, a, e);
    forall g ensures Members(t, g) == UsersIn(b, g) {
      forall u ensures u in Members(t, g) <==> u in UsersIn(b, g) {
        MemberStep(s, e, u, g);
        UsersInMember(a, u, g);
        UsersInMember(b, u, g);
      }
    }
    forall g | g !in t.likes ensures UsersIn(b, g) == {} { CounterKept(s, a, e, g); }
  }

  lemma CounterKept(s: Store, a: set<(Id, Id)>, e: Event, g: Id)
    requires Represents(s, a) && Benign(e) && Complete(s, a) && g !in Apply(s, e).likes
    ensures UsersIn(After(s, a, e), g) == {}
  {
    match e.call {
      case Like(u, h) => LikeLeavesCounter(s, a, u, h, e.fault, g);
      case Unlike(u, h) => UnlikeLeavesCounter(s, a, u, h, e.fault, g);
      case BatchCount(ids) =>
        var failed := if e.fault.dbRead then FirstNumbers(|ids|) else {};
        FillKeepsCounters(s, FirstOf(Resolved(Missed(s, ids), failed), if e.fault.fill then 0 else |ids|));
      case _ =>
    }
  }

  lemma LikeLeavesCounter(s: Store, a: set<(Id, Id)>, u: Id, h: Id, f: Fault, g: Id)
    requires Represents(s, a) && Complete(s, a) && Plausible(f) && g !in LikeStep(s, u, h, f).0.likes
    ensures UsersIn(After(s, a, Called(Like(u, h), f)), g) == {}
  {
    UsersInChange(a, u, h, g);
    if LikeReaches(s, u, h, f) {
      LikeEffect(s, u, h, f);
      if g != h { assert Untouched(s, LikeStep(s, u, h, f).0, g); }
    } else {
      UsersInMember(a, u, h);
      assert a + {(u, h)} == a;
    }
  }

  lemma UnlikeLeavesCounter(s: Store, a: set<(Id, Id)>, u: Id, h: Id, f: Fault, g: Id)
    requires Represents(s, a) && Complete(s, a) && Plausible(f) && g !in UnlikeStep(s, u, h, f).0.likes
    ensures UsersIn(After(s, a, Called(Unlike(u, h), f)), g) == {}
  {
    UsersInChange(a, u, h, g);
    if UnlikeReaches(s, u, h, f) {
      UnlikeEffect(s, u, h, f);
      if g != h { assert Untouched(s, UnlikeStep(s, u, h, f).0, g); }
    }
  }

  lemma {:induction false} FillKeepsCounters(s: Store, ids: seq<Id>)
    ensures s.likes.Keys <= FillAll(s, ids).likes.Keys
  {
    if ids != [] { FillKeepsCounters(s, ids[..|ids| - 1]); }
  }

  lemma {:induction false} BenignRun(es: seq<Event>)
    requires forall e :: e in es ==> Benign(e)
    ensures PlausibleRun(es) && HarmlessRun(es) && Complete(RunStore(es), RunIdeal(es))
  {
    if es == [] {
      forall g ensures UsersIn({}, g) == {} {}
    } else {
      var before, e := es[..|es| - 1], es[|es| - 1];
      BenignRun(before);
      HarmlessIsRight(before);
      assert e in es;
      BenignIsHarmless(RunStore(before), RunIdeal(before), e);
      StillComplete(RunStore(before), RunIdeal(before), e);
      forall k: nat | k < |es| ensures HarmlessAt(es, k) {
        if k < |before| {
          assert HarmlessAt(before, k);
          assert before[..k] == es[..k];
        }
      }
    }
  }

  /** From empty stores and without expiry, every call answers as a plain set of pairs would or reports a failed read
      or pipeline; SQL writes and cache fills may fail at will. */
  lemma RunWithoutExpiry(es: seq<Event>, k: nat)
    requires k < |es| && es[k].Called? && forall e :: e in es ==> Benign(e)
    ensures Answered(Exec(RunStore(es[..k]), es[k].call, es[k].fault).1, es[k].call, RunIdeal(es[..k]), es[k].fault)
  {
    BenignRun(es);
    assert es[k] in es;
    match es[k].call {
      case IsLiked(u, g) =>
        BenignRun(es[..k]);
        UsersInMember(RunIdeal(es[..k]), u, g);
      case _ => RunRefines(es, k);
    }
  }

  /** A failed SISMEMBER makes an Unlike by a member report the old count as if it had removed the like: nothing is
      removed, and the counts are wrong from then on. */
  lemma BlindUnlike(s: Store, a: set<(Id, Id)>, u: Id, g: Id, f: Fault)
    requires Represents(s, a) && Plausible(f) && f.check && !f.get && !f.dbRead && u in Members(s, g)
    ensures var (t, r) := Exec(s, Unlike(u, g), f);
            && r == Number(Ok(|UsersIn(a, g)|)) && t.likedBy == s.likedBy && t.rows == s.rows
            && !Represents(t, After(s, a, Called(Unlike(u, g), f)))
  {
    CountKeeps(s, a, g, f);
    assert RepresentsAt(s, a, g);
    UsersInMember(a, u, g);
    UnlikeIff(s, a, u, g, f);
  }

  // ----- Expiry times -----

  /** Every key carries the full expiry of 30 days, so that cold like data does not stay in Redis for good and warm
      data is not dropped early. */
  ghost predicate Expiring(s: Store) { forall g :: ExpiringAt(s, g) }

  ghost predicate ExpiringAt(s: Store, g: Id) {
    (g in s.likes ==> s.likes[g].ttl == Full) && (g in s.likedBy ==> s.likedBy[g].ttl == Full)
  }

  /** A pipeline must not be cut between the command that creates a key and the EXPIRE of that key. */
  predicate LeavesExpiry(s: Store, e: Event) {
    e.Called? ==>
      var k := e.fault.applied;
      match e.call
      case Like(u, g) => LikeReaches(s, u, g, e.fault) && 1 <= k <= 3 ==>
        (k <= 2 ==> g in s.likes) && (k >= 2 ==> g in s.likedBy)
      case Unlike(u, g) => UnlikeReaches(s, u, g, e.fault) && 1 <= k <= 2 ==> g in s.likes
      case _ => true
  }

  // What the first k commands of a pipeline make of the expiries of its feed.
  lemma PipelineExpiry(s: Store, u: Id, g: Id, n: int, k: nat)
    requires Expiring(s) && (n == 1 || n == -1)
    ensures var t := Pipeline(s, u, g, n, k);
            && (forall h :: h != g ==> ExpiringAt(t, h))
            && (g in t.likes ==> (t.likes[g].ttl == Full <==> !(1 <= k <= 2 && g !in s.likes)))
            && (k >= 1 ==> g in t.likes)
            && (g in t.likedBy ==> (t.likedBy[g].ttl == Full <==> !(n == 1 && 2 <= k <= 3 && g !in s.likedBy)))
            && (k >= 2 && n == 1 ==> g in t.likedBy)
  {
    assert ExpiringAt(s, g);
    forall h | h != g ensures ExpiringAt(Pipeline(s, u, g, n, k), h) { assert ExpiringAt(s, h); }
  }

  lemma RowsExpiring(s: Store, u: Id, g: Id)
    ensures Expiring(InsertRow(s, u, g)) <==> Expiring(s)
    ensures Expiring(DeleteRow(s, u, g)) <==> Expiring(s)
    ensures Expiring(s) ==> Expiring(SetLikes(s, g, RowCount(s, g))) && Expiring(SetLikes(s, g, 0))
  {
    forall h ensures ExpiringAt(InsertRow(s, u, g), h) <==> ExpiringAt(s, h) {}
    forall h ensures ExpiringAt(DeleteRow(s, u, g), h) <==> ExpiringAt(s, h) {}
    if Expiring(s) {
      forall h ensures ExpiringAt(SetLikes(s, g, RowCount(s, g)), h) && ExpiringAt(SetLikes(s, g, 0), h) {
        assert ExpiringAt(s, h);
      }
    }
  }

  lemma LikeExpiringIff(s: Store, u: Id, g: Id, f: Fault)
    requires Expiring(s)
    ensures Expiring(LikeStep(s, u, g, f).0) <==> LeavesExpiry(s, Called(Like(u, g), f))
  {
    if LikeReaches(s, u, g, f) {
      var t := Pipeline(s, u, g, 1, f.applied);
      PipelineExpiry(s, u, g, 1, f.applied);
      assert Expiring(t) <==> ExpiringAt(t, g);
      RowsExpiring(t, u, g);
    } else {
      RowsExpiring(s, u, g);
    }
  }

  lemma UnlikeExpiringIff(s: Store, u: Id, g: Id, f: Fault)
    requires Expiring(s) && Plausible(f)
    ensures Expiring(UnlikeStep(s, u, g, f).0) <==> LeavesExpiry(s, Called(Unlike(u, g), f))
  {
    if UnlikeReaches(s, u, g, f) {
      var t := Pipeline(s, u, g, -1, f.applied);
      PipelineExpiry(s, u, g, -1, f.applied);
      assert Expiring(t) <==> ExpiringAt(t, g);
      RowsExpiring(t, u, g);
      if f.applied >= 4 { RowsExpiring(SetLikes(t, g, 0), u, g); }
    } else {
      RowsExpiring(s, u, g);
    }
  }

  lemma {:induction false} FillExpiring(s: Store, ids: seq<Id>)
    requires Expiring(s)
    ensures Expiring(FillAll(s, ids))
  {
    if ids != [] {
      var t, last := FillAll(s, ids[..|ids| - 1]), ids[|ids| - 1];
      FillExpiring(s, ids[..|ids| - 1]);
      forall h ensures ExpiringAt(FillAll(s, ids), h) { assert ExpiringAt(t, h); }
    }
  }

  lemma StepExpiringIff(s: Store, e: Event)
    requires Expiring(s) && (e.Called? ==> Plausible(e.fault))
    ensures Expiring(Apply(s, e)) <==> LeavesExpiry(s, e)
  {
    match e {
      case SetExpires(g) => forall h ensures ExpiringAt(Apply(s, e), h) { assert ExpiringAt(s, h); }
      case CounterExpires(g) => forall h ensures ExpiringAt(Apply(s, e), h) { assert ExpiringAt(s, h); }
      case Called(c, f) =>
        match c {
          case Like(u, g) => LikeExpiringIff(s, u, g, f);
          case Unlike(u, g) => UnlikeExpiringIff(s, u, g, f);
          case Count(g) => RowsExpiring(s, "", g);
          case BatchCount(ids) =>
            var failed := if f.dbRead then FirstNumbers(|ids|) else {};
            FillExpiring(s, FirstOf(Resolved(Missed(s, ids), failed), if f.fill then 0 else |ids|));
          case IsLiked(u, g) =>
        }
    }
  }

  ghost predicate LeavesExpiryAt(es: seq<Event>, k: nat)
    requires k < |es|
  {
    LeavesExpiry(RunStore(es[..k]), es[k])
  }

  ghost predicate ExpiringBy(es: seq<Event>, k: nat)
    requires k <= |es|
  {
    Expiring(RunStore(es[..k]))
  }

  lemma ExpiringStepAt(es: seq<Event>, k: nat)
    requires PlausibleRun(es) && k < |es| && ExpiringBy(es, k)
    ensures ExpiringBy(es, k + 1) <==> LeavesExpiryAt(es, k)
  {
    assert es[..k + 1][..k] == es[..k] && es[k] in es;
    StepExpiringIff(RunStore(es[..k]), es[k]);
  }

  /** All along a run every key carries the full expiry if and only if no pipeline is cut where it leaves one without. */
  lemma RunExpiringIff(es: seq<Event>)
    requires PlausibleRun(es)
    ensures (forall k: nat :: k <= |es| ==> ExpiringBy(es, k)) <==> (forall k: nat :: k < |es| ==> LeavesExpiryAt(es, k))
  {
    var right := (k: nat) => k <= |es| && ExpiringBy(es, k);
    var fine := (k: nat) => k < |es| && LeavesExpiryAt(es, k);
    var side := (k: nat) => true;
    assert Stepwise(|es|, right, fine, side) by {
      forall k: nat | k < |es| && right(k) ensures right(k + 1) <==> fine(k) { ExpiringStepAt(es, k); }
    }
    assert ExpiringBy(es, 0);
    AlongIff(|es|, right, fine, side);
    if forall k: nat :: k < |es| ==> LeavesExpiryAt(es, k) {
      assert forall k: nat :: k < |es| ==> fine(k);
      forall k: nat | k <= |es| ensures ExpiringBy(es, k) { assert right(k); }
    }
    if forall k: nat :: k <= |es| ==> ExpiringBy(es, k) {
      assert forall k: nat :: k <= |es| ==> right(k);
      forall k: nat | k < |es| ensures LeavesExpiryAt(es, k) { assert fine(k); }
    }
  }

  // ----- The table -----

  predicate Valid(u: Id, g: Id) { IsValidUuid(u) && IsValidUuid(g) }

  ghost function ValidPairs(a: set<(Id, Id)>): set<(Id, Id)> { set p | p in a && Valid(p.0, p.1) }

  /** What an event must meet to keep the table equal to the plain set's pairs of UUIDs: if its SQL write is lost, or
      never tried because the unlike stopped at its check, there was nothing to write. */
  ghost predicate RowsHarmless(s: Store, a: set<(Id, Id)>, e: Event) {
    e.Called? ==>
      var f := e.fault;
      var lost := f.applied >= 2 && (f.execErr || f.dbWrite);
      match e.call
      case Like(u, g) => LikeReaches(s, u, g, f) && lost ==> (u, g) in a || !Valid(u, g)
      case Unlike(u, g) =>
        if UnlikeReaches(s, u, g, f) then lost ==> !Valid(u, g)
        else CountStep(s, g, f).1.Ok? ==> (u, g) !in a || !Valid(u, g)
      case _ => true
  }

  // The table is right, and the sets hold no pair of UUIDs that the plain set does not.
  ghost predicate RowsRight(s: Store, a: set<(Id, Id)>) { s.rows == ValidPairs(a) }

  ghost predicate Within(s: Store, a: set<(Id, Id)>) {
    forall u, g :: u in Members(s, g) && Valid(u, g) ==> (u, g) in a
  }

  lemma LikeRowsIff(s: Store, a: set<(Id, Id)>, u: Id, g: Id, f: Fault)
    requires RowsRight(s, a) && Within(s, a) && Plausible(f)
    ensures var e := Called(Like(u, g), f); RowsRight(Apply(s, e), After(s, a, e)) <==> RowsHarmless(s, a, e)
  {
    ValidPairsChange(a, u, g);
    if LikeReaches(s, u, g, f) { LikeEffect(s, u, g, f); }
  }

  lemma UnlikeRowsIff(s: Store, a: set<(Id, Id)>, u: Id, g: Id, f: Fault)
    requires RowsRight(s, a) && Within(s, a) && Plausible(f)
    ensures var e := Called(Unlike(u, g), f); RowsRight(Apply(s, e), After(s, a, e)) <==> RowsHarmless(s, a, e)
  {
    ValidPairsChange(a, u, g);
    if UnlikeReaches(s, u, g, f) { UnlikeEffect(s, u, g, f); }
  }

  lemma ValidPairsChange(a: set<(Id, Id)>, u: Id, g: Id)
    ensures ValidPairs(a + {(u, g)}) == ValidPairs(a) + if Valid(u, g) then {(u, g)} else {}
    ensures ValidPairs(a - {(u, g)}) == ValidPairs(a) - {(u, g)}
  {
  }

  /** An event keeps the table right if and only if it is harmless to it. */
  lemma StepRowsIff(s: Store, a: set<(Id, Id)>, e: Event)
    requires RowsRight(s, a) && Within(s, a) && (e.Called? ==> Plausible(e.fault))
    ensures RowsRight(Apply(s, e), After(s, a, e)) <==> RowsHarmless(s, a, e)
  {
    if e.Called? {
      match e.call {
        case Like(u, g) => LikeRowsIff(s, a, u, g, e.fault);
        case Unlike(u, g) => UnlikeRowsIff(s, a, u, g, e.fault);
        case BatchCount(ids) => BatchLeaves(s, ids, e.fault);
        case _ =>
      }
    }
  }

  lemma StepWithin(s: Store, a: set<(Id, Id)>, e: Event)
    requires Within(s, a) && RowsHarmless(s, a, e) && (e.Called? ==> Plausible(e.fault))
    ensures Within(Apply(s, e), After(s, a, e))
  {
    forall u, g | u in Members(Apply(s, e), g) && Valid(u, g) ensures (u, g) in After(s, a, e) {
      MemberStep(s, e, u, g);
    }
  }

  ghost predicate RowsRightAt(es: seq<Event>, k: nat)
    requires k <= |es|
  {
    RowsRight(RunStore(es[..k]), RunIdeal(es[..k]))
  }

  ghost predicate RowsHarmlessAt(es: seq<Event>, k: nat)
    requires k < |es|
  {
    RowsHarmless(RunStore(es[..k]), RunIdeal(es[..k]), es[k])
  }

  ghost predicate RowsHarmlessRun(es: seq<Event>) { forall k: nat :: k < |es| ==> RowsHarmlessAt(es, k) }

  ghost predicate WithinAt(es: seq<Event>, k: nat)
    requires k <= |es|
  {
    Within(RunStore(es[..k]), RunIdeal(es[..k]))
  }

  lemma RowsStepAt(es: seq<Event>, k: nat)
    requires PlausibleRun(es) && k < |es| && RowsRightAt(es, k) && WithinAt(es, k)
    ensures RowsRightAt(es, k + 1) <==> RowsHarmlessAt(es, k)
    ensures RowsHarmlessAt(es, k) ==> WithinAt(es, k + 1)
  {
    var s, a := RunStore(es[..k]), RunIdeal(es[..k]);
    assert es[..k + 1][..k] == es[..k] && es[k] in es;
    StepRowsIff(s, a, es[k]);
    if RowsHarmless(s, a, es[k]) { StepWithin(s, a, es[k]); }
  }

  lemma RowsStart(es: seq<Event>)
    ensures RowsRightAt(es, 0) && WithinAt(es, 0)
  {
    assert ValidPairs({}) == {};
  }

  /** All along a run, whatever fails or expires, the table holds exactly the likes whose ids are UUIDs if and only if
      each event is harmless to it. */
  lemma RowsFollowIff(es: seq<Event>)
    requires PlausibleRun(es)
    ensures (forall k: nat :: k <= |es| ==> RowsRightAt(es, k)) <==> RowsHarmlessRun(es)
  {
    var right := (k: nat) => k <= |es| && RowsRightAt(es, k);
    var fine := (k: nat) => k < |es| && RowsHarmlessAt(es, k);
    var side := (k: nat) => k <= |es| && WithinAt(es, k);
    RowsStart(es);
    assert Stepwise(|es|, right, fine, side) by {
      forall k: nat | k < |es| && right(k) && side(k)
        ensures (right(k + 1) <==> fine(k)) && (fine(k) ==> side(k + 1))
      {
        RowsStepAt(es, k);
      }
    }
    AlongIff(|es|, right, fine, side);
    if RowsHarmlessRun(es) {
      assert forall k: nat :: k < |es| ==> fine(k);
      forall k: nat | k <= |es| ensures RowsRightAt(es, k) { assert right(k); }
    }
    if forall k: nat :: k <= |es| ==> RowsRightAt(es, k) {
      assert forall k: nat :: k <= |es| ==> right(k);
      forall k: nat | k < |es| ensures RowsHarmlessAt(es, k) { assert fine(k); }
    }
  }

  /** After such a run, a counter may expire without harm if and only if all who like the feed have a row: the ids are
      UUIDs. */
  lemma CounterExpiryIff(es: seq<Event>, g: Id)
    requires PlausibleRun(es) && RowsHarmlessRun(es)
    ensures Harmless(RunStore(es), RunIdeal(es), CounterExpires(g)) <==>
      forall p :: p in RunIdeal(es) && p.1 == g ==> Valid(p.0, g)
  {
    var a := RunIdeal(es);
    RowsFollowIff(es);
    assert RowsRightAt(es, |es|) && es[..|es|] == es;
    forall u ensures u in UsersIn(ValidPairs(a), g) <==> u in UsersIn(a, g) && Valid(u, g) {
      UsersInMember(ValidPairs(a), u, g);
      UsersInMember(a, u, g);
    }
    SubsetSize(UsersIn(ValidPairs(a), g), UsersIn(a, g));
    if Harmless(RunStore(es), a, CounterExpires(g)) {
      forall p | p in a && p.1 == g ensures Valid(p.0, g) { UsersInMember(a, p.0, g); }
    }
    if forall p :: p in a && p.1 == g ==> Valid(p.0, g) {
      forall u | u in UsersIn(a, g) ensures u in UsersIn(ValidPairs(a), g) && IsValidUuid(g) { UsersInMember(a, u, g); }
      assert UsersIn(ValidPairs(a), g) == UsersIn(a, g);
    }
  }
}
