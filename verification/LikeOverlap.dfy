/** Which calls may overlap: for two calls by one user on one feed, each a Like, an Unlike or a Count, the exact
    conditions under which every schedule of their steps leaves the counter equal to the set, and the set equal to
    the table. */
module LikeOverlap {
  import opened Collections
  import opened LikeProtocol

  // Both calls have started and taken no step.
  ghost function TwoCalls(s: State, k0: Kind, k1: Kind, user: Id, feed: Id): State {
    Apply(Apply(s, Start(0, k0, user, feed)), Start(1, k1, user, feed))
  }

  ghost predicate Steps(actions: seq<Action>) { forall a :: a in actions ==> a.Advance? }

  // ... each of whose SQL statements succeeds.
  ghost predicate Effective(actions: seq<Action>) { forall a :: a in actions ==> a.Advance? && a.effective }

  // A schedule on which both calls come to their end.
  ghost predicate Finishes(s: State, actions: seq<Action>) { Steps(actions) && Run(s, actions).ops == map[] }

  ghost predicate CounterRight(s: State, feed: Id) { feed in s.likes ==> s.likes[feed] == |Members(s, feed)| }

  /** On every schedule, whichever SQL statements fail, the counter ends up as large as the set, if it is there; and
      it is there if none fails. */
  ghost predicate CounterSafe(s: State, feed: Id) { forall actions :: Finishes(s, actions) ==> EndsRight(s, actions, feed) }

  ghost predicate EndsRight(s: State, actions: seq<Action>, feed: Id) {
    CounterRight(Run(s, actions), feed) && (Effective(actions) ==> feed in Run(s, actions).likes)
  }

  ghost predicate TableSafe(s: State) {
    forall actions :: Finishes(s, actions) && Effective(actions) ==> Run(s, actions).likedBy == Run(s, actions).rows
  }

  ghost predicate Writing(k: Kind) { k == Like || k == Unlike }

  // A like of a user who does not like the feed, or an unlike of one who does.
  ghost predicate Busy(s: State, k: Kind, p: Pair) { (k == Like && p !in s.likedBy) || (k == Unlike && p in s.likedBy) }

  ghost function First(k: Kind, p: Pair): Op { Op(k, p.0, p.1, if k == Count then Fetch else Check, 0) }

  lemma TwoCallsStart(s: State, k0: Kind, k1: Kind, user: Id, feed: Id)
    requires s.ops == map[]
    ensures TwoCalls(s, k0, k1, user, feed) == s.(ops := map[0 := First(k0, (user, feed)), 1 := First(k1, (user, feed))])
  {
  }

  lemma StepsStartNothing(s: State, actions: seq<Action>)
    requires Steps(actions)
    ensures WarmRun(s, actions) && NoRepeats(s, actions) && NoOpposites(s, actions)
  {
    assert forall k :: 0 <= k < |actions| ==> actions[k] in actions;
  }

  // ----- A call that ends leaves a counter, if its SQL reads succeed -----

  ghost predicate Counting(s: State, t: State, feed: Id) {
    && (forall o :: o in s.ops && o !in t.ops ==> feed in t.likes)
    && (forall o :: o in t.ops ==> t.ops[o].feed == feed && (t.ops[o].pc in {Update, Clamp, Persist} ==> feed in t.likes))
  }

  lemma CountingStep(s: State, t: State, feed: Id, o: nat)
    requires Counting(s, t, feed) && o in t.ops
    ensures Counting(s, Next(t, o, true), feed)
  {
    var u := Next(t, o, true);
    assert o !in u.ops ==> feed in u.likes;
    forall q | q in u.ops ensures u.ops[q].feed == feed && (u.ops[q].pc in {Update, Clamp, Persist} ==> feed in u.likes) {
      if q != o { StepCalls(t, Advance(o, true), q); }
    }
    forall q | q in s.ops && q !in u.ops ensures feed in u.likes {
      if q != o { StepCalls(t, Advance(o, true), q); }
    }
  }

  lemma {:induction false} StaysCounting(s: State, feed: Id, actions: seq<Action>)
    requires Counting(s, s, feed) && Effective(actions)
    ensures Counting(s, Run(s, actions), feed)
  {
    if actions != [] {
      var before, a := actions[..|actions| - 1], actions[|actions| - 1];
      StaysCounting(s, feed, before);
      assert a in actions;
      if a.op in Run(s, before).ops { CountingStep(s, Run(s, before), feed, a.op); }
    }
  }

  lemma CounterIsThere(s: State, k0: Kind, k1: Kind, user: Id, feed: Id, actions: seq<Action>)
    requires s.ops == map[]
    ensures var t := TwoCalls(s, k0, k1, user, feed);
            Effective(actions) && Run(t, actions).ops == map[] ==> feed in Run(t, actions).likes
  {
    var t := TwoCalls(s, k0, k1, user, feed);
    TwoCallsStart(s, k0, k1, user, feed);
    if Effective(actions) {
      StaysCounting(t, feed, actions);
      assert 0 in t.ops;
    }
  }

  // ----- Calls of different kinds on an existing counter: safe -----

  lemma TwoCallsCounterSound(s: State, k0: Kind, k1: Kind, user: Id, feed: Id)
    requires Agreed(s) && feed in s.likes && k0 != k1
    ensures CounterSound(TwoCalls(s, k0, k1, user, feed))
  {
    AgreedCounterSound(s);
    StepCounterSound(s, Start(0, k0, user, feed));
    var t := Apply(s, Start(0, k0, user, feed));
    assert t.ops == map[0 := First(k0, (user, feed))];
    StepCounterSound(t, Start(1, k1, user, feed));
  }

  lemma OpposedCounterSafe(s: State, k0: Kind, k1: Kind, user: Id, feed: Id)
    requires Agreed(s) && feed in s.likes && k0 != k1
    ensures CounterSafe(TwoCalls(s, k0, k1, user, feed), feed)
  {
    var t := TwoCalls(s, k0, k1, user, feed);
    TwoCallsCounterSound(s, k0, k1, user, feed);
    forall actions | Finishes(t, actions) ensures EndsRight(t, actions, feed) {
      StepsStartNothing(t, actions);
      AlwaysCounted(t, actions);
      QuietCounts(Run(t, actions));
    }
  }

  // ----- Calls with nothing to write -----

  ghost predicate IdleCall(s: State, op: Op, p: Pair) {
    && op.Pair() == p && !Busy(s, op.kind, p) && op.pc in {Check, Fetch, Select, Backfill}
    && (op.kind == Count ==> op.pc != Check) && (op.pc == Backfill ==> op.val == |Members(s, p.1)|)
  }

  ghost predicate Idle(s: State, t: State, p: Pair) {
    && t.likedBy == s.likedBy && t.rows == s.rows
    && (t.likes == s.likes || t.likes == s.likes[p.1 := |Members(s, p.1)|])
    && forall o :: o in t.ops ==> IdleCall(s, t.ops[o], p)
  }

  lemma IdleStep(s: State, t: State, p: Pair, o: nat, effective: bool)
    requires s.likedBy == s.rows && Idle(s, t, p) && o in t.ops
    ensures Idle(s, Next(t, o, effective), p)
  {
    var u := Next(t, o, effective);
    assert IdleCall(s, t.ops[o], p);
    assert RowsOf(t, p.1) == Members(s, p.1);
    forall q | q in u.ops ensures IdleCall(s, u.ops[q], p) {
      if q != o { StepCalls(t, Advance(o, effective), q); }
    }
  }

  lemma {:induction false} StaysIdle(s: State, t: State, p: Pair, actions: seq<Action>)
    requires s.likedBy == s.rows && Idle(s, t, p) && Steps(actions)
    ensures Idle(s, Run(t, actions), p)
  {
    if actions != [] {
      var before, a := actions[..|actions| - 1], actions[|actions| - 1];
      StaysIdle(s, t, p, before);
      assert a in actions;
      if a.op in Run(t, before).ops { IdleStep(s, Run(t, before), p, a.op, a.effective); }
    }
  }

  lemma IdleCounterSafe(s: State, k0: Kind, k1: Kind, user: Id, feed: Id)
    requires Agreed(s) && !Busy(s, k0, (user, feed)) && !Busy(s, k1, (user, feed))
    ensures CounterSafe(TwoCalls(s, k0, k1, user, feed), feed)
  {
    var t := TwoCalls(s, k0, k1, user, feed);
    TwoCallsStart(s, k0, k1, user, feed);
    forall actions | Finishes(t, actions) ensures EndsRight(t, actions, feed) {
      StaysIdle(s, t, (user, feed), actions);
      assert Members(Run(t, actions), feed) == Members(s, feed);
      CounterIsThere(s, k0, k1, user, feed, actions);
    }
  }

  // ----- Two unlikes of the only like: the clamp repairs the counter -----

  ghost function Find(t: State, o: nat): Option<Op> { if o in t.ops then Some(t.ops[o]) else None }

  // An unlike that may still DECR.
  ghost predicate Undecided(x: Option<Op>) { x.Some? && x.value.pc in {Check, Bump} }

  // One that has not done its SREM.
  ghost predicate Early(x: Option<Op>) { x.Some? && x.value.pc in {Check, Bump, Update} }

  // One that was answered below zero, and will clamp.
  ghost predicate BelowZero(x: Option<Op>) { x.Some? && x.value.pc in {Update, Clamp} && x.value.val < 0 }

  ghost predicate Unliking(x: Option<Op>, p: Pair) {
    x.Some? ==> x.value.kind.Unlike? && x.value.Pair() == p && x.value.pc !in {Select, Backfill}
  }

  /** As long as the counter is below zero, or is missing or still 1, one of the unlikes has yet to repair it, or both
      to count. */
  ghost predicate Racing(x: Option<Op>, y: Option<Op>, exist: bool, counter: int, member: bool) {
    && counter <= 1
    && (member ==> Early(x) && Early(y))
    && (counter == 1 || !exist ==> member && Undecided(x) && Undecided(y))
    && (counter < 0 ==> BelowZero(x) || BelowZero(y))
  }

  ghost predicate Race(s: State, t: State, p: Pair) {
    && t.ops.Keys <= {0, 1} && Unliking(Find(t, 0), p) && Unliking(Find(t, 1), p)
    && (t.likedBy == s.likedBy || t.likedBy == s.likedBy - {p})
    && Racing(Find(t, 0), Find(t, 1), p.1 in t.likes, Counter(t, p.1), p in t.likedBy)
  }

  lemma UnlikeStep(t: State, o: nat, effective: bool, y: Option<Op>)
    requires o in t.ops && Unliking(Find(t, o), t.ops[o].Pair())
    requires var op := t.ops[o]; Racing(Find(t, o), y, op.feed in t.likes, Counter(t, op.feed), op.Pair() in t.likedBy)
    ensures var u, op := Next(t, o, effective), t.ops[o];
            && Unliking(Find(u, o), op.Pair())
            && Racing(Find(u, o), y, op.feed in u.likes, Counter(u, op.feed), op.Pair() in u.likedBy)
  {
  }

  lemma UnlikeLeaves(t: State, o: nat, effective: bool)
    requires o in t.ops && Unliking(Find(t, o), t.ops[o].Pair())
    ensures var u := Next(t, o, effective);
            && u.ops.Keys <= t.ops.Keys && (forall q :: q != o ==> Find(u, q) == Find(t, q))
            && (u.likedBy == t.likedBy || u.likedBy == t.likedBy - {t.ops[o].Pair()})
  {
  }

  lemma RaceStep(s: State, t: State, p: Pair, o: nat, effective: bool)
    requires Race(s, t, p) && o in t.ops
    ensures Race(s, Next(t, o, effective), p)
  {
    UnlikeLeaves(t, o, effective);
    UnlikeStep(t, o, effective, Find(t, 1 - o));
    assert s.likedBy - {p} - {p} == s.likedBy - {p};
  }

  lemma {:induction false} StaysRace(s: State, t: State, p: Pair, actions: seq<Action>)
    requires Race(s, t, p) && Steps(actions)
    ensures Race(s, Run(t, actions), p)
  {
    if actions != [] {
      var before, a := actions[..|actions| - 1], actions[|actions| - 1];
      StaysRace(s, t, p, before);
      assert a in actions;
      if a.op in Run(t, before).ops { RaceStep(s, Run(t, before), p, a.op, a.effective); }
    }
  }

  lemma LastLikeCounterSafe(s: State, user: Id, feed: Id)
    requires Agreed(s) && Members(s, feed) == {(user, feed)}
    ensures CounterSafe(TwoCalls(s, Unlike, Unlike, user, feed), feed)
  {
    var t, p := TwoCalls(s, Unlike, Unlike, user, feed), (user, feed);
    TwoCallsStart(s, Unlike, Unlike, user, feed);
    assert p in Members(s, feed);
    forall actions | Finishes(t, actions) ensures EndsRight(t, actions, feed) {
      StaysRace(s, t, p, actions);
      var u := Run(t, actions);
      assert Members(u, feed) == Members(s, feed) - {p};
    }
  }

  // ----- Schedules that break it -----

  lemma RunSnoc(s: State, actions: seq<Action>, a: Action)
    ensures Run(s, actions + [a]) == Apply(Run(s, actions), a)
  {
    assert (actions + [a])[..|actions|] == actions;
  }

  // Call o takes n steps.
  ghost function Go(s: State, o: nat, n: nat): State {
    if n == 0 then s else Apply(Go(s, o, n - 1), Advance(o, true))
  }

  lemma {:induction false} GoOn(s: State, before: seq<Action>, o: nat, n: nat) returns (actions: seq<Action>)
    requires Effective(before)
    ensures Effective(actions) && Run(s, actions) == Go(Run(s, before), o, n)
  {
    actions := before;
    if n > 0 {
      actions := GoOn(s, before, o, n - 1);
      RunSnoc(s, actions, Advance(o, true));
      actions := actions + [Advance(o, true)];
    }
  }

  // Calls 0 and 1 each take a step.
  ghost function Lap(s: State): State { Apply(Apply(s, Advance(0, true)), Advance(1, true)) }

  ghost function Laps(s: State, n: nat): State { if n == 0 then s else Lap(Laps(s, n - 1)) }

  lemma {:induction false} LapsRun(s: State, n: nat) returns (actions: seq<Action>)
    ensures Effective(actions) && Run(s, actions) == Laps(s, n)
  {
    actions := [];
    if n > 0 {
      actions := LapsRun(s, n - 1);
      RunSnoc(s, actions, Advance(0, true));
      RunSnoc(s, actions + [Advance(0, true)], Advance(1, true));
      actions := actions + [Advance(0, true)] + [Advance(1, true)];
    }
  }

  // Both calls at the same place.
  ghost function Both(kind: Kind, user: Id, feed: Id, pc: Pc, v: int, w: int): map<nat, Op> {
    map[0 := Op(kind, user, feed, pc, v), 1 := Op(kind, user, feed, pc, w)]
  }

  ghost function Sign(kind: Kind): int { if kind.Like? then 1 else -1 }

  // One step of a call that has something to do, from each place.
  ghost predicate Took(s: State, t: State, o: nat, pc: Pc, val: int, likes: map<Id, int>, likedBy: set<Pair>) {
    o in s.ops && t.ops == s.ops[o := s.ops[o].(pc := pc, val := val)] && t.likes == likes && t.likedBy == likedBy
  }

  lemma CheckStep(s: State, o: nat)
    requires o in s.ops && s.ops[o].pc == Check && (s.ops[o].Pair() in s.likedBy) != s.ops[o].kind.Like?
    ensures Took(s, Apply(s, Advance(o, true)), o, Bump, s.ops[o].val, s.likes, s.likedBy)
  {
  }

  lemma BumpStep(s: State, o: nat)
    requires o in s.ops && s.ops[o].pc == Bump && Writing(s.ops[o].kind)
    ensures var op := s.ops[o];
            var v := Counter(s, op.feed) + Sign(op.kind);
            Took(s, Apply(s, Advance(o, true)), o, Update, v, s.likes[op.feed := v], s.likedBy)
  {
  }

  ghost function Stored(s: set<Pair>, kind: Kind, p: Pair): set<Pair> { if kind.Like? then s + {p} else s - {p} }

  ghost function PcAfterUpdate(kind: Kind): Pc { if kind.Like? then Persist else Clamp }

  lemma UpdateStep(s: State, o: nat)
    requires o in s.ops && s.ops[o].pc == Update && Writing(s.ops[o].kind)
    ensures var op := s.ops[o];
            Took(s, Apply(s, Advance(o, true)), o, PcAfterUpdate(op.kind), op.val, s.likes, Stored(s.likedBy, op.kind, op.Pair()))
  {
  }

  lemma ClampStep(s: State, o: nat)
    requires o in s.ops && s.ops[o].pc == Clamp && s.ops[o].val >= 0
    ensures Took(s, Apply(s, Advance(o, true)), o, Persist, s.ops[o].val, s.likes, s.likedBy)
  {
  }

  lemma BothCheck(s: State, kind: Kind, user: Id, feed: Id)
    requires Writing(kind) && ((user, feed) in s.likedBy) == kind.Unlike?
    requires s.ops == Both(kind, user, feed, Check, 0, 0)
    ensures var t := Lap(s);
            t.ops == Both(kind, user, feed, Bump, 0, 0) && t.likes == s.likes && t.likedBy == s.likedBy
  {
    CheckStep(s, 0);
    CheckStep(Apply(s, Advance(0, true)), 1);
  }

  lemma BothBump(s: State, kind: Kind, user: Id, feed: Id)
    requires Writing(kind) && s.ops == Both(kind, user, feed, Bump, 0, 0)
    ensures var t, n := Lap(s), Counter(s, feed);
            && t.ops == Both(kind, user, feed, Update, n + Sign(kind), n + 2 * Sign(kind))
            && t.likes == s.likes[feed := n + 2 * Sign(kind)] && t.likedBy == s.likedBy
  {
    BumpStep(s, 0);
    BumpStep(Apply(s, Advance(0, true)), 1);
  }

  lemma BothUpdate(s: State, kind: Kind, user: Id, feed: Id, v: int, w: int)
    requires Writing(kind) && s.ops == Both(kind, user, feed, Update, v, w)
    ensures var t := Lap(s);
            && t.ops == Both(kind, user, feed, PcAfterUpdate(kind), v, w) && t.likes == s.likes
            && t.likedBy == Stored(s.likedBy, kind, (user, feed))
  {
    UpdateStep(s, 0);
    UpdateStep(Apply(s, Advance(0, true)), 1);
  }

  lemma BothClamp(s: State, kind: Kind, user: Id, feed: Id, v: int, w: int)
    requires v >= 0 && w >= 0 && s.ops == Both(kind, user, feed, Clamp, v, w)
    ensures var t := Lap(s);
            t.ops == Both(kind, user, feed, Persist, v, w) && t.likes == s.likes && t.likedBy == s.likedBy
  {
    ClampStep(s, 0);
    ClampStep(Apply(s, Advance(0, true)), 1);
  }

  lemma BothPersist(s: State, kind: Kind, user: Id, feed: Id, v: int, w: int)
    requires s.ops == Both(kind, user, feed, Persist, v, w)
    ensures var t := Lap(s); t.ops == map[] && t.likes == s.likes && t.likedBy == s.likedBy
  {
    var t := Apply(s, Advance(0, true));
    assert t.ops == map[1 := Op(kind, user, feed, Persist, w)];
  }

  // How many laps both calls take.
  ghost function Length(kind: Kind): nat { if kind.Like? then 4 else 5 }

  lemma BothCalls(s: State, kind: Kind, user: Id, feed: Id)
    requires Writing(kind) && Counter(s, feed) >= if kind.Unlike? then 2 else 0
    requires s.ops == Both(kind, user, feed, Check, 0, 0) && ((user, feed) in s.likedBy) == kind.Unlike?
    ensures var t := Laps(s, Length(kind));
            && t.ops == map[] && t.likes == s.likes[feed := Counter(s, feed) + 2 * Sign(kind)]
            && t.likedBy == Stored(s.likedBy, kind, (user, feed))
  {
    var n := Counter(s, feed);
    var v, w := n + Sign(kind), n + 2 * Sign(kind);
    var s1 := Lap(s);
    var s2 := Lap(s1);
    var s3 := Lap(s2);
    BothCheck(s, kind, user, feed);
    BothBump(s1, kind, user, feed);
    BothUpdate(s2, kind, user, feed, v, w);
    if kind.Unlike? { BothClamp(s3, kind, user, feed, v, w); }
    BothPersist(if kind.Like? then s3 else Lap(s3), kind, user, feed, v, w);
    LapsUnroll(s);
  }

  lemma LapsUnroll(s: State)
    ensures Laps(s, 4) == Lap(Lap(Lap(Lap(s)))) && Laps(s, 5) == Lap(Lap(Lap(Lap(Lap(s)))))
  {
    assert Laps(s, 1) == Lap(s);
    assert Laps(s, 2) == Lap(Lap(s));
    assert Laps(s, 3) == Lap(Lap(Lap(s)));
  }

  /** Two overlapping likes of a user who does not like the feed, or two overlapping unlikes of one who does and is
      not alone: in some schedule both count, one changes the set. */
  lemma RepeatedCallsDrift(s: State, kind: Kind, user: Id, feed: Id) returns (actions: seq<Action>)
    requires Agreed(s) && Busy(s, kind, (user, feed)) && Counter(s, feed) == |Members(s, feed)|
    requires kind.Unlike? ==> |Members(s, feed)| >= 2
    ensures Effective(actions)
    ensures var t := Run(TwoCalls(s, kind, kind, user, feed), actions);
            t.ops == map[] && feed in t.likes && t.likes[feed] == |Members(t, feed)| + Sign(kind)
  {
    var s0 := TwoCalls(s, kind, kind, user, feed);
    TwoCallsStart(s, kind, kind, user, feed);
    BothCalls(s0, kind, user, feed);
    actions := LapsRun(s0, Length(kind));
    MembersChange(s, (user, feed), feed);
    var t := Run(s0, actions);
    assert Members(t, feed) == Members(s.(likedBy := t.likedBy), feed);
  }

  // ----- One call after the other -----

  lemma CheckAndBump(s: State, o: nat)
    requires o in s.ops && s.ops[o].pc == Check && Busy(s, s.ops[o].kind, s.ops[o].Pair())
    ensures var t, op := Apply(Apply(s, Advance(o, true)), Advance(o, true)), s.ops[o];
            var v := Counter(s, op.feed) + Sign(op.kind);
            Took(s, t, o, Update, v, s.likes[op.feed := v], s.likedBy) && t.rows == s.rows
  {
    var t1 := Apply(s, Advance(o, true));
    CheckStep(s, o);
    BumpStep(t1, o);
    RowsKept(s, o);
    RowsKept(t1, o);
  }

  // A call that has something to do, up to and including its SADD or SREM.
  lemma FirstHalf(s: State, o: nat)
    requires o in s.ops && s.ops[o].pc == Check && Busy(s, s.ops[o].kind, s.ops[o].Pair())
    ensures var t, op := Go(s, o, 3), s.ops[o];
            var v := Counter(s, op.feed) + Sign(op.kind);
            && t.ops == s.ops[o := op.(pc := PcAfterUpdate(op.kind), val := v)] && t.likes == s.likes[op.feed := v]
            && t.likedBy == Stored(s.likedBy, op.kind, op.Pair()) && t.rows == s.rows
  {
    var t2 := Go(s, o, 2);
    assert Go(s, o, 0) == s;
    assert Go(s, o, 1) == Apply(s, Advance(o, true));
    assert Go(s, o, 3) == Apply(t2, Advance(o, true));
    CheckAndBump(s, o);
    UpdateStep(t2, o);
    RowsKept(t2, o);
  }

  lemma RowsKept(s: State, o: nat)
    requires o in s.ops && s.ops[o].pc != Persist
    ensures Apply(s, Advance(o, true)).rows == s.rows
  {
  }

  // What an unlike's clamp makes of a counter.
  ghost function Floor(n: int, kind: Kind): int { if kind == Unlike && n < 0 then 0 else n }

  ghost function Rest(kind: Kind): nat { if kind.Like? then 1 else 2 }

  lemma TestStep(s: State, o: nat)
    requires o in s.ops && s.ops[o].pc == Clamp
    ensures var t, op := Apply(s, Advance(o, true)), s.ops[o];
            && o in t.ops && t.ops == s.ops[o := op.(pc := Persist, val := t.ops[o].val)]
            && t.likes == (if op.val < 0 then s.likes[op.feed := 0] else s.likes)
            && t.likedBy == s.likedBy && t.rows == s.rows
  {
  }

  lemma PersistStep(s: State, o: nat)
    requires o in s.ops && s.ops[o].pc == Persist && Writing(s.ops[o].kind)
    ensures var t, op := Apply(s, Advance(o, true)), s.ops[o];
            && t.ops == Remove(s.ops, o) && t.likes == s.likes && t.likedBy == s.likedBy
            && t.rows == Stored(s.rows, op.kind, op.Pair())
  {
  }

  // The rest of it: the test of an unlike for a negative count, and the SQL write.
  lemma SecondHalf(s: State, o: nat)
    requires o in s.ops && Writing(s.ops[o].kind) && s.ops[o].pc == PcAfterUpdate(s.ops[o].kind)
    ensures var t, op := Go(s, o, Rest(s.ops[o].kind)), s.ops[o];
            && t.ops == Remove(s.ops, o) && t.likedBy == s.likedBy
            && t.likes == (if op.kind == Unlike && op.val < 0 then s.likes[op.feed := 0] else s.likes)
            && t.rows == Stored(s.rows, op.kind, op.Pair())
  {
    var t1 := Apply(s, Advance(o, true));
    assert Go(s, o, 1) == t1 && Go(s, o, 2) == Apply(t1, Advance(o, true));
    if s.ops[o].kind.Like? {
      PersistStep(s, o);
    } else {
      TestStep(s, o);
      PersistStep(t1, o);
      RemoveUpdated(s.ops, o, t1.ops[o]);
    }
  }

  // A missing counter is counted up or down from 0: the write leaves 1 or, clamped, 0.
  lemma WriteCompletes(s: State, o: nat)
    requires o in s.ops && s.ops[o].pc == Check && Busy(s, s.ops[o].kind, s.ops[o].Pair())
    ensures var t, op := Go(Go(s, o, 3), o, Rest(s.ops[o].kind)), s.ops[o];
            && t.ops == Remove(s.ops, o) && t.likedBy == Stored(s.likedBy, op.kind, op.Pair())
            && t.likes == s.likes[op.feed := Floor(Counter(s, op.feed) + Sign(op.kind), op.kind)]
  {
    var op := s.ops[o];
    var v, t := Counter(s, op.feed) + Sign(op.kind), Go(s, o, 3);
    FirstHalf(s, o);
    SecondHalf(t, o);
    RemoveUpdated(s.ops, o, t.ops[o]);
    UpdateTwice(s.likes, op.feed, v, 0);
  }

  // A call with nothing to write, as far as its SET of what it read from the table, on a missing counter.
  lemma ReadsTable(s: State, o: nat, kind: Kind, p: Pair)
    requires o in s.ops && s.ops[o] == First(kind, p) && !Busy(s, kind, p) && p.1 !in s.likes
    ensures var t := Go(s, o, Reading(kind));
            && t.ops == s.ops[o := s.ops[o].(pc := Backfill, val := |RowsOf(s, p.1)|)]
            && t.likes == s.likes && t.likedBy == s.likedBy && t.rows == s.rows
  {
    var n: nat := if kind == Count then 0 else 1;
    var t0 := Go(s, o, n);
    var t1 := Apply(t0, Advance(o, true));
    var t2 := Apply(t1, Advance(o, true));
    assert Go(s, o, 0) == s && Go(s, o, n + 1) == t1 && Go(s, o, n + 2) == t2;
    assert t0.ops == s.ops[o := s.ops[o].(pc := Fetch)] && t0.rows == s.rows;
    assert t1.ops == s.ops[o := s.ops[o].(pc := Select)] && t1.rows == s.rows;
    assert RowsOf(t1, p.1) == RowsOf(s, p.1);
  }

  ghost function Reading(kind: Kind): nat { if kind == Count then 2 else 3 }

  lemma SetsCounter(s: State, o: nat)
    requires o in s.ops && s.ops[o].pc == Backfill
    ensures var t := Go(s, o, 1);
            t.ops == Remove(s.ops, o) && t.likedBy == s.likedBy && t.likes == s.likes[s.ops[o].feed := s.ops[o].val]
  {
    assert Go(s, o, 0) == s;
  }

  // A call with nothing to write, on an existing counter.
  lemma ReadsCounter(s: State, o: nat, kind: Kind, p: Pair)
    requires o in s.ops && s.ops[o] == First(kind, p) && Writing(kind) && !Busy(s, kind, p) && p.1 in s.likes
    ensures var t := Go(s, o, 2); t.ops == Remove(s.ops, o) && t.likedBy == s.likedBy && t.likes == s.likes
  {
    var t1 := Apply(s, Advance(o, true));
    assert Go(s, o, 0) == s && Go(s, o, 1) == t1 && Go(s, o, 2) == Apply(t1, Advance(o, true));
    assert t1.ops == s.ops[o := s.ops[o].(pc := Fetch)];
    RemoveUpdated(s.ops, o, t1.ops[o]);
  }

  /** Without a counter: a call that reads the table, be it a Count or a like or unlike with nothing to do, is overtaken
      by one that writes, and SETs over its counter the size the set had before. */
  lemma ReaderLosesWrite(s: State, o: nat, q: nat, k: Kind, w: Kind, p: Pair) returns (actions: seq<Action>)
    requires s.ops == map[o := First(k, p), q := First(w, p)] && o != q && s.likedBy == s.rows && p.1 !in s.likes
    requires !Busy(s, k, p) && Busy(s, w, p)
    ensures Effective(actions)
    ensures var t := Run(s, actions);
            t.ops == map[] && p.1 in t.likes && t.likes[p.1] == |Members(t, p.1)| - Sign(w)
  {
    var s1 := Go(s, o, Reading(k));
    var s2 := Go(Go(s1, q, 3), q, Rest(w));
    var s3 := Go(s2, o, 1);
    ReadsTable(s, o, k, p);
    WriteCompletes(s1, q);
    SetsCounter(s2, o);
    assert s3.ops == map[];
    assert RowsOf(s, p.1) == Members(s, p.1);
    MembersChange(s, p, p.1);
    assert Members(s3, p.1) == Members(s.(likedBy := s3.likedBy), p.1);
    actions := GoOn(s, [], o, Reading(k));
    actions := GoOn(s, actions, q, 3);
    actions := GoOn(s, actions, q, Rest(w));
    actions := GoOn(s, actions, o, 1);
  }

  // Without a counter, one write already leaves it wrong, unless it is of the first like or of the last.
  lemma WriteMiscounts(s: State, k: Kind, p: Pair) returns (actions: seq<Action>)
    requires s.ops == map[0 := First(k, p), 1 := First(k, p)] && Busy(s, k, p) && p.1 !in s.likes
    requires if k == Like then Members(s, p.1) != {} else Members(s, p.1) != {p}
    ensures Effective(actions)
    ensures var t := Run(s, actions); t.ops == map[] && p.1 in t.likes && t.likes[p.1] != |Members(t, p.1)|
  {
    var s1 := Go(Go(s, 0, 3), 0, Rest(k));
    var s2 := Go(s1, 1, 2);
    WriteCompletes(s, 0);
    ReadsCounter(s1, 1, k, p);
    assert s2.ops == map[];
    MembersChange(s, p, p.1);
    assert Members(s2, p.1) == Members(s.(likedBy := s2.likedBy), p.1);
    if k == Unlike { assert {p} <= Members(s, p.1); SubsetSize({p}, Members(s, p.1)); }
    actions := GoOn(s, [], 0, 3);
    actions := GoOn(s, actions, 0, Rest(k));
    actions := GoOn(s, actions, 1, 2);
  }

  lemma NotCounterSafe(s: State, feed: Id, actions: seq<Action>)
    requires Effective(actions) && Run(s, actions).ops == map[] && !CounterRight(Run(s, actions), feed)
    ensures !CounterSafe(s, feed)
  {
    assert Finishes(s, actions) && !EndsRight(s, actions, feed);
  }

  /** Two calls of one user on one feed leave the counter right on every schedule exactly if both remove the feed's
      only like; or the counter exists, and the kinds differ or there is nothing to write; or it does not exist, and
      neither call has anything to write. */
  lemma TwoCallsCounterIff(s: State, k0: Kind, k1: Kind, user: Id, feed: Id)
    requires Agreed(s)
    ensures var p := (user, feed);
            CounterSafe(TwoCalls(s, k0, k1, user, feed), feed) <==>
              || (k0 == k1 == Unlike && Members(s, feed) == {p})
              || (if feed in s.likes then k0 != k1 || !Busy(s, k0, p) else !Busy(s, k0, p) && !Busy(s, k1, p))
  {
    var p, t := (user, feed), TwoCalls(s, k0, k1, user, feed);
    TwoCallsStart(s, k0, k1, user, feed);
    if k0 == k1 == Unlike && Members(s, feed) == {p} {
      LastLikeCounterSafe(s, user, feed);
    } else if !Busy(s, k0, p) && !Busy(s, k1, p) {
      IdleCounterSafe(s, k0, k1, user, feed);
    } else if k0 == k1 {
      SameKindUnsafe(s, k0, user, feed);
    } else if feed in s.likes {
      OpposedCounterSafe(s, k0, k1, user, feed);
    } else {
      ColdUnsafe(s, k0, k1, user, feed);
    }
  }

  lemma SameKindUnsafe(s: State, kind: Kind, user: Id, feed: Id)
    requires Agreed(s) && Busy(s, kind, (user, feed)) && !(kind == Unlike && Members(s, feed) == {(user, feed)})
    ensures !CounterSafe(TwoCalls(s, kind, kind, user, feed), feed)
  {
    var p, t := (user, feed), TwoCalls(s, kind, kind, user, feed);
    TwoCallsStart(s, kind, kind, user, feed);
    var actions;
    if feed in s.likes || (kind == Like && Members(s, feed) == {}) {
      if kind == Unlike { assert p in Members(s, feed); SubsetSize({p}, Members(s, feed)); }
      actions := RepeatedCallsDrift(s, kind, user, feed);
    } else {
      assert Members(t, feed) == Members(s, feed);
      actions := WriteMiscounts(t, kind, p);
    }
    NotCounterSafe(t, feed, actions);
  }

  lemma ColdUnsafe(s: State, k0: Kind, k1: Kind, user: Id, feed: Id)
    requires Agreed(s) && feed !in s.likes && k0 != k1 && (Busy(s, k0, (user, feed)) || Busy(s, k1, (user, feed)))
    ensures !CounterSafe(TwoCalls(s, k0, k1, user, feed), feed)
  {
    var p, t := (user, feed), TwoCalls(s, k0, k1, user, feed);
    TwoCallsStart(s, k0, k1, user, feed);
    var actions;
    if Busy(s, k1, p) {
      actions := ReaderLosesWrite(t, 0, 1, k0, k1, p);
    } else {
      assert t.ops == map[1 := First(k1, p), 0 := First(k0, p)];
      actions := ReaderLosesWrite(t, 1, 0, k1, k0, p);
    }
    NotCounterSafe(t, feed, actions);
  }

  // ----- Set and table -----

  lemma {:induction false} EffectiveLosesNothing(s: State, actions: seq<Action>)
    requires Effective(actions)
    ensures Run(s, actions).unsynced <= s.unsynced
  {
    if actions != [] {
      EffectiveLosesNothing(s, actions[..|actions| - 1]);
      assert actions[|actions| - 1] in actions;
    }
  }

  ghost predicate Opposed(k0: Kind, k1: Kind) { Writing(k0) && Writing(k1) && k0 != k1 }

  lemma UnopposedTableSound(s: State, k0: Kind, k1: Kind, user: Id, feed: Id)
    requires Agreed(s) && !Opposed(k0, k1)
    ensures TableSound(TwoCalls(s, k0, k1, user, feed))
  {
    StepTableSound(s, Start(0, k0, user, feed));
    var t := Apply(s, Start(0, k0, user, feed));
    assert t.ops == map[0 := First(k0, (user, feed))];
    StepTableSound(t, Start(1, k1, user, feed));
  }

  lemma UnopposedTableSafe(s: State, k0: Kind, k1: Kind, user: Id, feed: Id)
    requires Agreed(s) && !Opposed(k0, k1)
    ensures TableSafe(TwoCalls(s, k0, k1, user, feed))
  {
    var t := TwoCalls(s, k0, k1, user, feed);
    UnopposedTableSound(s, k0, k1, user, feed);
    forall actions | Finishes(t, actions) && Effective(actions) ensures Run(t, actions).likedBy == Run(t, actions).rows {
      var u := Run(t, actions);
      StepsStartNothing(t, actions);
      AlwaysMirrored(t, actions);
      EffectiveLosesNothing(t, actions);
      forall p ensures p in u.likedBy <==> p in u.rows {
        assert Mirrored(u, p);
        assert forall o :: !AtWindow(u, o, p);
      }
    }
  }

  // The call that has something to do goes half its way, the other one all of its, and the first one finishes.
  lemma Overtake(s: State, o: nat, q: nat) returns (actions: seq<Action>)
    requires o in s.ops && q in s.ops && s.ops.Keys == {o, q} && o != q && s.likedBy == s.rows
    requires Writing(s.ops[o].kind) && Writing(s.ops[q].kind) && s.ops[o].kind != s.ops[q].kind
    requires s.ops[o].pc == s.ops[q].pc == Check && s.ops[o].Pair() == s.ops[q].Pair()
    requires (s.ops[o].Pair() in s.likedBy) == s.ops[o].kind.Unlike?
    ensures Effective(actions) && Run(s, actions).ops == map[]
    ensures Run(s, actions).likedBy != Run(s, actions).rows
  {
    var p := s.ops[o].Pair();
    var s1 := Go(s, o, 3);
    FirstHalf(s, o);
    var s2 := Go(s1, q, 3);
    FirstHalf(s1, q);
    var s3 := Go(s2, q, Rest(s.ops[q].kind));
    SecondHalf(s2, q);
    var s4 := Go(s3, o, Rest(s.ops[o].kind));
    SecondHalf(s3, o);
    assert p in s4.likedBy <==> s.ops[q].kind.Like?;
    assert p in s4.rows <==> s.ops[o].kind.Like?;
    assert s4.ops == map[];
    actions := GoOn(s, [], o, 3);
    actions := GoOn(s, actions, q, 3);
    actions := GoOn(s, actions, q, Rest(s.ops[q].kind));
    actions := GoOn(s, actions, o, Rest(s.ops[o].kind));
  }

  /** Every schedule of two calls by one user on one feed leaves the set equal to the table, no SQL write being lost,
      exactly unless one is a like and the other an unlike. */
  lemma TwoCallsTableIff(s: State, k0: Kind, k1: Kind, user: Id, feed: Id)
    requires Agreed(s)
    ensures TableSafe(TwoCalls(s, k0, k1, user, feed)) <==> !Opposed(k0, k1)
  {
    if !Opposed(k0, k1) {
      UnopposedTableSafe(s, k0, k1, user, feed);
    } else {
      var t := TwoCalls(s, k0, k1, user, feed);
      TwoCallsStart(s, k0, k1, user, feed);
      var first: nat := if Busy(s, k0, (user, feed)) then 0 else 1;
      var actions := Overtake(t, first, 1 - first);
      assert Finishes(t, actions);
    }
  }
}
