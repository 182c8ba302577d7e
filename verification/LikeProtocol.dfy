/** The like cache under concurrency: every Redis command and every SQL statement is one atomic step, and the steps
    of any number of Like, Unlike and Count calls interleave. Keys do not expire here, so EXPIRE has no effect. */
module LikeProtocol {
  import opened Collections

  type Id = string
  type Pair = (Id, Id)   // user, feed

  datatype Kind = Like | Unlike | Count

  /** Where a call stands: before SISMEMBER, INCR/DECR, SADD/SREM, the test for a negative count, the SQL write;
      or, reading the count, before GET, SELECT COUNT and the SET that fills the cache. */
  datatype Pc = Check | Bump | Update | Clamp | Persist | Fetch | Select | Backfill

  datatype Op = Op(kind: Kind, user: Id, feed: Id, pc: Pc, val: int) {
    function Pair(): Pair { (user, feed) }
  }

  /** `unsynced` are the pairs whose last SQL write had no effect; `drift` adds up what was counted but not stored
      per feed: an SADD of a member that was there (+1), an SREM of one that was not (-1), a clamp (what it added). */
  datatype State = State(
    likes: map<Id, int>, likedBy: set<Pair>, rows: set<Pair>, ops: map<nat, Op>,
    unsynced: set<Pair>, drift: map<Id, int>)

  datatype Action = Start(op: nat, kind: Kind, user: Id, feed: Id) | Advance(op: nat, effective: bool)

  function Members(s: State, feed: Id): set<Pair> { set p | p in s.likedBy && p.1 == feed }

  function RowsOf(s: State, feed: Id): set<Pair> { set p | p in s.rows && p.1 == feed }

  function Counter(s: State, feed: Id): int { Get(s.likes, feed, 0) }

  function Drift(s: State, feed: Id): int { Get(s.drift, feed, 0) }

  function Moved(s: State, o: nat, op: Op): State { s.(ops := s.ops[o := op]) }

  function Finished(s: State, o: nat): State { s.(ops := Remove(s.ops, o)) }

  function Drifted(s: State, feed: Id, n: int): State { s.(drift := s.drift[feed := Drift(s, feed) + n]) }

  /** The next step of call o; `effective` says whether the SQL statement of this step, if it is one, succeeds. */
  function Next(s: State, o: nat, effective: bool): State
    requires o in s.ops
  {
    var op := s.ops[o];
    match op.pc
    case Check =>
      if (op.Pair() in s.likedBy) == op.kind.Like? then Moved(s, o, op.(pc := Fetch)) else Moved(s, o, op.(pc := Bump))
    case Bump =>
      var v := Counter(s, op.feed) + (if op.kind.Like? then 1 else -1);
      Moved(s.(likes := s.likes[op.feed := v]), o, op.(pc := Update, val := v))
    case Update =>
      if op.kind.Like? then
        Moved(Drifted(s.(likedBy := s.likedBy + {op.Pair()}), op.feed, if op.Pair() in s.likedBy then 1 else 0),
              o, op.(pc := Persist))
      else
        Moved(Drifted(s.(likedBy := s.likedBy - {op.Pair()}), op.feed, if op.Pair() in s.likedBy then 0 else -1),
              o, op.(pc := Clamp))
    case Clamp =>
      if op.val < 0 then
        Moved(Drifted(s.(likes := s.likes[op.feed := 0]), op.feed, 0 - Counter(s, op.feed)),
              o, op.(pc := Persist, val := 0))
      else Moved(s, o, op.(pc := Persist))
    case Persist =>
      var rows := if op.kind.Like? then s.rows + {op.Pair()} else s.rows - {op.Pair()};
      if effective then Finished(s.(rows := rows, unsynced := s.unsynced - {op.Pair()}), o)
      else Finished(s.(unsynced := s.unsynced + {op.Pair()}), o)
    case Fetch =>
      if op.feed in s.likes then Finished(s, o) else Moved(s, o, op.(pc := Select))
    case Select =>
      if effective then Moved(s, o, op.(pc := Backfill, val := |RowsOf(s, op.feed)|)) else Finished(s, o)
    case Backfill => Finished(s.(likes := s.likes[op.feed := op.val]), o)
  }

  function Apply(s: State, a: Action): State {
    match a
    case Start(o, kind, user, feed) =>
      if o in s.ops then s
      else Moved(s, o, Op(kind, user, feed, if kind.Count? then Fetch else Check, 0))
    case Advance(o, effective) => if o in s.ops then Next(s, o, effective) else s
  }

  function Run(s: State, actions: seq<Action>): State {
    if actions == [] then s else Apply(Run(s, actions[..|actions| - 1]), actions[|actions| - 1])
  }

  // ----- Counting the calls in flight -----

  // A call that has changed the counter of the feed and not yet the set.
  ghost predicate Counts(op: Op, kind: Kind, feed: Id) { op.kind == kind && op.feed == feed && op.pc == Update }

  ghost function Counted(ops: map<nat, Op>, kind: Kind, feed: Id): set<nat> {
    set o | o in ops && Counts(ops[o], kind, feed)
  }

  lemma CountedUpdates(ops: map<nat, Op>, o: nat, op: Op, kind: Kind, feed: Id)
    ensures Counted(ops[o := op], kind, feed)
         == Counted(ops, kind, feed) - {o} + if Counts(op, kind, feed) then {o} else {}
  {
  }

  lemma CountedMoves(ops: map<nat, Op>, o: nat, op: Op, kind: Kind, feed: Id)
    ensures |Counted(ops[o := op], kind, feed)| == |Counted(ops, kind, feed)|
              - (if o in Counted(ops, kind, feed) then 1 else 0) + (if Counts(op, kind, feed) then 1 else 0)
  {
    CountedUpdates(ops, o, op, kind, feed);
    ReplaceSize(Counted(ops, kind, feed), o, Counts(op, kind, feed));
  }

  lemma CountedEnds(ops: map<nat, Op>, o: nat, kind: Kind, feed: Id)
    requires o in ops && ops[o].pc != Update
    ensures Counted(Remove(ops, o), kind, feed) == Counted(ops, kind, feed)
  {
  }

  /** The books of a feed: the counter is the size of the set, plus the likes counted and not yet stored, minus the
      unlikes counted and not yet stored, plus the drift. */
  ghost predicate Balanced(s: State, feed: Id) {
    Counter(s, feed) == |Members(s, feed)| + |Counted(s.ops, Like, feed)| - |Counted(s.ops, Unlike, feed)| + Drift(s, feed)
  }

  ghost predicate ShapedOp(op: Op) {
    (op.kind.Count? ==> op.pc in {Fetch, Select, Backfill}) && (op.kind.Like? ==> op.pc != Clamp)
  }

  ghost predicate Shaped(s: State) { forall o :: o in s.ops ==> ShapedOp(s.ops[o]) }

  // The counter key of every feed in use exists, so no call takes the path that reads the table and SETs.
  ghost predicate Warm(s: State) {
    && Shaped(s)
    && forall o :: o in s.ops ==> s.ops[o].feed in s.likes && s.ops[o].pc != Select && s.ops[o].pc != Backfill
  }

  ghost predicate WarmAction(s: State, a: Action) { a.Start? ==> a.feed in s.likes }

  lemma MembersChange(s: State, p: Pair, feed: Id)
    ensures |Members(s.(likedBy := s.likedBy + {p}), feed)|
         == |Members(s, feed)| + if p.1 == feed && p !in s.likedBy then 1 else 0
    ensures |Members(s.(likedBy := s.likedBy - {p}), feed)|
         == |Members(s, feed)| - if p.1 == feed && p in s.likedBy then 1 else 0
  {
    var m := Members(s, feed);
    var more, less := Members(s.(likedBy := s.likedBy + {p}), feed), Members(s.(likedBy := s.likedBy - {p}), feed);
    assert more == if p.1 == feed then m + {p} else m;
    assert less == m - {p};
    if p.1 == feed && p in s.likedBy { assert m == less + {p}; } else { assert less == m; }
  }

  lemma StepBalanced(s: State, a: Action, feed: Id)
    requires Warm(s) && WarmAction(s, a) && feed in s.likes && Balanced(s, feed)
    ensures Balanced(Apply(s, a), feed)
  {
    if a.Advance? && a.op in s.ops {
      var pc := s.ops[a.op].pc;
      if pc == Bump { BumpBalanced(s, a.op, a.effective, feed); }
      else if pc == Update { UpdateBalanced(s, a.op, a.effective, feed); }
      else if pc == Clamp { ClampBalanced(s, a.op, a.effective, feed); }
      else { QuietBalanced(s, a.op, a.effective, feed); }
    } else if a.Start? && a.op !in s.ops {
      BothMove(s, a.op, Apply(s, a).ops[a.op], feed);
    }
  }

  lemma BumpBalanced(s: State, o: nat, effective: bool, feed: Id)
    requires Warm(s) && feed in s.likes && Balanced(s, feed) && o in s.ops && s.ops[o].pc == Bump
    ensures Balanced(Next(s, o, effective), feed)
  {
    BothMove(s, o, Next(s, o, effective).ops[o], feed);
  }

  lemma UpdateBalanced(s: State, o: nat, effective: bool, feed: Id)
    requires Warm(s) && feed in s.likes && Balanced(s, feed) && o in s.ops && s.ops[o].pc == Update
    ensures Balanced(Next(s, o, effective), feed)
  {
    var t := Next(s, o, effective);
    BothMove(s, o, t.ops[o], feed);
    MembersChange(s, s.ops[o].Pair(), feed);
    assert Members(t, feed) == if s.ops[o].kind.Like?
      then Members(s.(likedBy := s.likedBy + {s.ops[o].Pair()}), feed)
      else Members(s.(likedBy := s.likedBy - {s.ops[o].Pair()}), feed);
  }

  lemma ClampBalanced(s: State, o: nat, effective: bool, feed: Id)
    requires Warm(s) && feed in s.likes && Balanced(s, feed) && o in s.ops && s.ops[o].pc == Clamp
    ensures Balanced(Next(s, o, effective), feed)
  {
    BothMove(s, o, Next(s, o, effective).ops[o], feed);
  }

  lemma QuietBalanced(s: State, o: nat, effective: bool, feed: Id)
    requires Warm(s) && feed in s.likes && Balanced(s, feed) && o in s.ops && s.ops[o].pc in {Check, Persist, Fetch}
    ensures Balanced(Next(s, o, effective), feed)
  {
    var t := Next(s, o, effective);
    if o in t.ops {
      BothMove(s, o, t.ops[o], feed);
    } else {
      CountedEnds(s.ops, o, Like, feed);
      CountedEnds(s.ops, o, Unlike, feed);
    }
    assert Members(t, feed) == Members(s, feed);
  }

  lemma BothMove(s: State, o: nat, op: Op, feed: Id)
    ensures forall kind :: kind in {Like, Unlike} ==>
      |Counted(s.ops[o := op], kind, feed)| == |Counted(s.ops, kind, feed)|
        - (if o in Counted(s.ops, kind, feed) then 1 else 0)
        + (if Counts(op, kind, feed) then 1 else 0)
  {
    CountedMoves(s.ops, o, op, Like, feed);
    CountedMoves(s.ops, o, op, Unlike, feed);
  }

  lemma StepWarm(s: State, a: Action)
    requires Warm(s) && WarmAction(s, a)
    ensures Warm(Apply(s, a)) && s.likes.Keys == Apply(s, a).likes.Keys
  {
  }

  lemma OwnShaped(s: State, o: nat, effective: bool)
    requires o in s.ops && ShapedOp(s.ops[o])
    ensures o in Next(s, o, effective).ops ==> ShapedOp(Next(s, o, effective).ops[o])
  {
  }

  lemma StepShaped(s: State, a: Action)
    requires Shaped(s)
    ensures Shaped(Apply(s, a))
  {
    forall o | o in Apply(s, a).ops ensures ShapedOp(Apply(s, a).ops[o]) {
      StepCalls(s, a, o);
      if a.Advance? && o == a.op { OwnShaped(s, o, a.effective); }
    }
  }

  ghost predicate WarmRun(s: State, actions: seq<Action>) {
    forall k :: 0 <= k < |actions| ==> WarmAction(s, actions[k])
  }

  /** On warm counters the books balance in every interleaving, with no hypothesis on who calls what at once; so
      when nothing is in flight the counter is the size of the set if and only if nothing has drifted. */
  lemma {:induction false} AlwaysBalanced(s: State, actions: seq<Action>, feed: Id)
    requires Warm(s) && WarmRun(s, actions) && feed in s.likes && Balanced(s, feed)
    ensures var t := Run(s, actions);
            && Warm(t) && t.likes.Keys == s.likes.Keys && Balanced(t, feed)
            && (t.ops == map[] ==> (Counter(t, feed) == |Members(t, feed)| <==> Drift(t, feed) == 0))
  {
    if actions != [] {
      var before, a := actions[..|actions| - 1], actions[|actions| - 1];
      AlwaysBalanced(s, before, feed);
      assert WarmAction(s, a);
      StepWarm(Run(s, before), a);
      StepBalanced(Run(s, before), a, feed);
    }
  }

  // ----- Which calls overlap -----

  ghost predicate Writes(s: State, o: nat) { o in s.ops && !s.ops[o].kind.Count? }

  // No two likes, and no two unlikes, of one user for one feed are in flight.
  ghost predicate Unrepeated(s: State) {
    forall o, q :: Writes(s, o) && Writes(s, q) && o != q && s.ops[o].kind == s.ops[q].kind ==>
      s.ops[o].Pair() != s.ops[q].Pair()
  }

  // No like and unlike of one user for one feed are in flight.
  ghost predicate Unopposed(s: State) {
    forall o, q :: Writes(s, o) && Writes(s, q) && s.ops[o].kind != s.ops[q].kind ==>
      s.ops[o].Pair() != s.ops[q].Pair()
  }

  // The call that an action starts is on a pair that no call of one of these kinds is on.
  ghost predicate StartsClear(s: State, a: Action, kinds: set<Kind>) {
    a.Start? && !a.kind.Count? && a.op !in s.ops ==>
      forall o :: Writes(s, o) && s.ops[o].kind in kinds ==> s.ops[o].Pair() != (a.user, a.feed)
  }

  ghost function SameKind(a: Action): set<Kind> { if a.Start? then {a.kind} else {} }

  ghost function OtherKind(a: Action): set<Kind> { {Like, Unlike} - SameKind(a) }

  ghost predicate NoRepeats(s: State, actions: seq<Action>) {
    forall k :: 0 <= k < |actions| ==> StartsClear(Run(s, actions[..k]), actions[k], SameKind(actions[k]))
  }

  ghost predicate NoOpposites(s: State, actions: seq<Action>) {
    forall k :: 0 <= k < |actions| ==> StartsClear(Run(s, actions[..k]), actions[k], OtherKind(actions[k]))
  }

  // Call o is in both states with nothing changed, or in neither.
  ghost predicate CallKept(s: State, t: State, o: nat) {
    (o in t.ops <==> o in s.ops) && (o in s.ops ==> t.ops[o] == s.ops[o])
  }

  // ... or has moved on, or finished.
  ghost predicate CallMoved(s: State, t: State, o: nat) {
    o in t.ops ==> o in s.ops && t.ops[o].kind == s.ops[o].kind && t.ops[o].Pair() == s.ops[o].Pair()
  }

  lemma StepCalls(s: State, a: Action, o: nat)
    ensures o != a.op || (a.Start? && o in s.ops) ==> CallKept(s, Apply(s, a), o)
    ensures a.Advance? ==> CallMoved(s, Apply(s, a), o)
    ensures a.Start? && o == a.op && o !in s.ops ==> Apply(s, a).ops[o].pc in {Check, Fetch}
  {
  }

  lemma StepWrites(s: State, a: Action, o: nat)
    requires (a.Advance? || o != a.op || o in s.ops) && Writes(Apply(s, a), o)
    ensures Writes(s, o) && Apply(s, a).ops[o].Pair() == s.ops[o].Pair() && Apply(s, a).ops[o].kind == s.ops[o].kind
  {
    StepCalls(s, a, o);
  }

  lemma StepUnrepeated(s: State, a: Action)
    requires Unrepeated(s) && StartsClear(s, a, SameKind(a))
    ensures Unrepeated(Apply(s, a))
  {
    var t := Apply(s, a);
    forall o, q | Writes(t, o) && Writes(t, q) && o != q && t.ops[o].kind == t.ops[q].kind
      ensures t.ops[o].Pair() != t.ops[q].Pair()
    {
      if o in s.ops || a.Advance? { StepWrites(s, a, o); }
      if q in s.ops || a.Advance? { StepWrites(s, a, q); }
    }
  }

  lemma StepUnopposed(s: State, a: Action)
    requires Unopposed(s) && StartsClear(s, a, OtherKind(a))
    ensures Unopposed(Apply(s, a))
  {
    var t := Apply(s, a);
    forall o, q | Writes(t, o) && Writes(t, q) && t.ops[o].kind != t.ops[q].kind
      ensures t.ops[o].Pair() != t.ops[q].Pair()
    {
      if o in s.ops || a.Advance? { StepWrites(s, a, o); }
      if q in s.ops || a.Advance? { StepWrites(s, a, q); }
    }
  }

  // ----- Counter and set: no two calls of one kind on one pair -----

  // A call past its check, and not past its SADD or SREM, still finds what the check found.
  ghost predicate Decided(s: State, op: Op) {
    op.pc in {Bump, Update} ==> ((op.Pair() in s.likedBy) == op.kind.Unlike?)
  }

  ghost predicate AllDecided(s: State) { forall o :: Writes(s, o) ==> Decided(s, s.ops[o]) }

  // An unlike's DECR never answered below zero.
  ghost predicate NothingToClamp(s: State) {
    forall o :: Writes(s, o) && s.ops[o].kind.Unlike? && s.ops[o].pc in {Update, Clamp} ==> s.ops[o].val >= 0
  }

  ghost predicate NoDrift(s: State) {
    forall feed :: feed in s.likes ==> Balanced(s, feed) && Drift(s, feed) == 0
  }

  ghost predicate CounterSound(s: State) {
    Warm(s) && Unrepeated(s) && AllDecided(s) && NothingToClamp(s) && NoDrift(s)
  }

  // The pairs of the pending unlikes are distinct members of the set.
  lemma PendingUnlikesAreMembers(s: State, feed: Id)
    requires Unrepeated(s) && AllDecided(s)
    ensures |Counted(s.ops, Unlike, feed)| <= |Members(s, feed)|
  {
    var c := Counted(s.ops, Unlike, feed);
    forall x, y | x in c && y in c && x != y ensures s.ops[x].Pair() != s.ops[y].Pair() {
      assert Writes(s, x) && Writes(s, y);
    }
    forall x | x in c ensures s.ops[x].Pair() in Members(s, feed) {
      assert Writes(s, x);
    }
    InjectionSize(c, Members(s, feed), o requires o in s.ops => s.ops[o].Pair());
  }

  lemma CounterNotNegative(s: State, feed: Id)
    requires Unrepeated(s) && AllDecided(s) && NoDrift(s) && feed in s.likes
    ensures Counter(s, feed) >= 0
  {
    PendingUnlikesAreMembers(s, feed);
  }

  lemma OwnDecided(s: State, o: nat, effective: bool)
    requires Writes(s, o) && Decided(s, s.ops[o])
    ensures var t := Next(s, o, effective); Writes(t, o) ==> Decided(t, t.ops[o])
  {
  }

  lemma OthersDecided(s: State, o: nat, effective: bool, q: nat)
    requires Shaped(s) && o in s.ops && Writes(s, q) && q != o && Decided(s, s.ops[q])
    requires Writes(s, o) && s.ops[o].kind == s.ops[q].kind ==> s.ops[o].Pair() != s.ops[q].Pair()
    ensures var t := Next(s, o, effective); q in t.ops && t.ops[q] == s.ops[q] && Decided(t, t.ops[q])
  {
    StepCalls(s, Advance(o, effective), q);
    StepLikedBy(s, o, effective);
    DecidedKept(s, Next(s, o, effective), o, q);
  }

  // A step changes the set only at SADD or SREM, and only by its own pair.
  ghost predicate LikedByMoved(s: State, t: State, o: nat)
    requires o in s.ops
  {
    t.likedBy == if s.ops[o].pc != Update then s.likedBy
                 else if s.ops[o].kind.Like? then s.likedBy + {s.ops[o].Pair()} else s.likedBy - {s.ops[o].Pair()}
  }

  lemma StepLikedBy(s: State, o: nat, effective: bool)
    requires o in s.ops
    ensures LikedByMoved(s, Next(s, o, effective), o)
  {
  }

  lemma DecidedKept(s: State, t: State, o: nat, q: nat)
    requires Shaped(s) && o in s.ops && Writes(s, q) && q != o && Decided(s, s.ops[q])
    requires CallKept(s, t, q) && LikedByMoved(s, t, o)
    requires Writes(s, o) && s.ops[o].kind == s.ops[q].kind ==> s.ops[o].Pair() != s.ops[q].Pair()
    ensures Decided(t, t.ops[q])
  {
  }

  lemma StepDecided(s: State, a: Action)
    requires Shaped(s) && Unrepeated(s) && AllDecided(s)
    ensures AllDecided(Apply(s, a))
  {
    var t := Apply(s, a);
    forall q | Writes(t, q) ensures Decided(t, t.ops[q]) {
      if a.Start? {
        assert q in s.ops ==> Writes(s, q) && Decided(s, s.ops[q]);
      } else if a.op in s.ops {
        StepWrites(s, a, q);
        assert Decided(s, s.ops[q]);
        if q == a.op { OwnDecided(s, q, a.effective); } else { OthersDecided(s, a.op, a.effective, q); }
      }
    }
  }

  lemma StepDrift(s: State, a: Action, feed: Id)
    requires Warm(s) && AllDecided(s) && NothingToClamp(s) && Drift(s, feed) == 0
    ensures Drift(Apply(s, a), feed) == 0
  {
    if a.Advance? && Writes(s, a.op) { assert Decided(s, s.ops[a.op]); }
  }

  lemma StepNoDrift(s: State, a: Action)
    requires CounterSound(s) && WarmAction(s, a)
    ensures NoDrift(Apply(s, a))
  {
    var t := Apply(s, a);
    StepWarm(s, a);
    forall feed | feed in t.likes ensures Balanced(t, feed) && Drift(t, feed) == 0 {
      StepBalanced(s, a, feed);
      StepDrift(s, a, feed);
    }
  }

  // What a DECR answers is the counter it leaves.
  lemma BumpValue(s: State, o: nat, effective: bool)
    requires o in s.ops && s.ops[o].pc == Bump
    ensures var t := Next(s, o, effective); t.ops[o].val == Counter(t, t.ops[o].feed) && t.ops[o].feed == s.ops[o].feed
  {
  }

  lemma StepNothingToClamp(s: State, a: Action)
    requires NothingToClamp(s) && Warm(s) && Warm(Apply(s, a))
    requires Unrepeated(Apply(s, a)) && AllDecided(Apply(s, a)) && NoDrift(Apply(s, a))
    ensures NothingToClamp(Apply(s, a))
  {
    var t := Apply(s, a);
    if a.Advance? && a.op in s.ops && s.ops[a.op].pc == Bump {
      BumpValue(s, a.op, a.effective);
      CounterNotNegative(t, t.ops[a.op].feed);
    }
    forall o | Writes(t, o) && t.ops[o].kind.Unlike? && t.ops[o].pc in {Update, Clamp} ensures t.ops[o].val >= 0 {
      if !(o == a.op && a.Advance? && s.ops[o].pc == Bump) {
        ValKept(s, a, o);
        assert Writes(s, o);
      }
    }
  }

  lemma ValKept(s: State, a: Action, o: nat)
    requires Warm(s) && o in Apply(s, a).ops && Apply(s, a).ops[o].kind.Unlike?
    requires Apply(s, a).ops[o].pc in {Update, Clamp}
    requires o == a.op && a.Advance? ==> o in s.ops && s.ops[o].pc != Bump
    ensures o in s.ops && s.ops[o].kind.Unlike? && s.ops[o].pc in {Update, Clamp}
    ensures Apply(s, a).ops[o].val == s.ops[o].val
  {
  }

  lemma StepCounterSound(s: State, a: Action)
    requires CounterSound(s) && WarmAction(s, a) && StartsClear(s, a, SameKind(a))
    ensures CounterSound(Apply(s, a))
  {
    StepWarm(s, a);
    StepUnrepeated(s, a);
    StepDecided(s, a);
    StepNoDrift(s, a);
    StepNothingToClamp(s, a);
  }

  // Nothing in flight, and counter, set and table agree for every feed that has a counter.
  ghost predicate Agreed(s: State) {
    && s.ops == map[] && s.likedBy == s.rows && s.drift == map[] && s.unsynced == {}
    && forall feed :: feed in s.likes ==> s.likes[feed] == |Members(s, feed)|
  }

  lemma AgreedCounterSound(s: State)
    requires Agreed(s)
    ensures CounterSound(s)
  {
    forall feed ensures Counted(s.ops, Like, feed) == Counted(s.ops, Unlike, feed) == {} {}
  }

  /** With no two likes and no two unlikes of one user for one feed in flight, whatever else overlaps: the books
      balance without drift and no DECR answers below zero, so no clamp fires. */
  lemma {:induction false} AlwaysCounted(s: State, actions: seq<Action>)
    requires CounterSound(s) && WarmRun(s, actions) && NoRepeats(s, actions)
    ensures CounterSound(Run(s, actions)) && Run(s, actions).likes.Keys == s.likes.Keys
  {
    if actions != [] {
      var before, a := actions[..|actions| - 1], actions[|actions| - 1];
      forall k | 0 <= k < |before| ensures StartsClear(Run(s, before[..k]), before[k], SameKind(before[k])) {
        assert before[..k] == actions[..k];
      }
      AlwaysCounted(s, before);
      assert StartsClear(Run(s, before), a, SameKind(a)) && WarmAction(s, a);
      StepWarm(Run(s, before), a);
      StepCounterSound(Run(s, before), a);
    }
  }

  lemma QuietCounts(s: State)
    requires CounterSound(s) && s.ops == map[]
    ensures forall feed :: feed in s.likes ==> Counter(s, feed) == |Members(s, feed)|
  {
    forall feed | feed in s.likes ensures Counter(s, feed) == |Members(s, feed)| {
      assert Counted(s.ops, Like, feed) == Counted(s.ops, Unlike, feed) == {};
      assert Balanced(s, feed);
    }
  }

  /** So when everything has finished, counter and set agree again. */
  lemma CounterAgreement(s: State, actions: seq<Action>)
    requires Agreed(s) && WarmRun(s, actions) && NoRepeats(s, actions) && Run(s, actions).ops == map[]
    ensures forall feed :: feed in s.likes ==> Counter(Run(s, actions), feed) == |Members(Run(s, actions), feed)|
  {
    AgreedCounterSound(s);
    AlwaysCounted(s, actions);
    QuietCounts(Run(s, actions));
  }

  // ----- Set and table: no like and unlike on one pair -----

  // A call past its SADD or SREM still finds what that did.
  ghost predicate Settled(s: State, op: Op) {
    && (op.pc == Clamp ==> op.Pair() !in s.likedBy)
    && (op.pc == Persist ==> ((op.Pair() in s.likedBy) == op.kind.Like?))
  }

  ghost predicate AllSettled(s: State) { forall o :: Writes(s, o) ==> Settled(s, s.ops[o]) }

  // Between the change of the set and the SQL write.
  ghost predicate AtWindow(s: State, o: nat, p: Pair) {
    Writes(s, o) && s.ops[o].Pair() == p && (s.ops[o].pc == Clamp || s.ops[o].pc == Persist)
  }

  ghost predicate InWindow(s: State, p: Pair) { exists o :: AtWindow(s, o, p) }

  /** Unless its last SQL write had no effect, a pair is in the set and not in the table, or the other way round,
      only while a call on it is in that window. */
  ghost predicate Mirrored(s: State, p: Pair) {
    p !in s.unsynced && (p in s.likedBy) != (p in s.rows) ==> InWindow(s, p)
  }

  // ... exactly while a call on it is.
  ghost predicate InSync(s: State, p: Pair) {
    p !in s.unsynced ==> ((p in s.likedBy) != (p in s.rows) <==> InWindow(s, p))
  }

  ghost predicate TableSound(s: State) {
    Shaped(s) && Unopposed(s) && AllSettled(s) && forall p :: Mirrored(s, p)
  }

  lemma OwnSettled(s: State, o: nat, effective: bool)
    requires Shaped(s) && Writes(s, o) && Settled(s, s.ops[o])
    ensures var t := Next(s, o, effective); Writes(t, o) ==> Settled(t, t.ops[o])
  {
  }

  lemma OthersSettled(s: State, o: nat, effective: bool, q: nat)
    requires Shaped(s) && o in s.ops && Writes(s, q) && q != o && Settled(s, s.ops[q])
    requires Writes(s, o) && s.ops[o].kind != s.ops[q].kind ==> s.ops[o].Pair() != s.ops[q].Pair()
    ensures var t := Next(s, o, effective); q in t.ops && t.ops[q] == s.ops[q] && Settled(t, t.ops[q])
  {
    StepCalls(s, Advance(o, effective), q);
    StepLikedBy(s, o, effective);
    SettledKept(s, Next(s, o, effective), o, q);
  }

  lemma SettledKept(s: State, t: State, o: nat, q: nat)
    requires Shaped(s) && o in s.ops && Writes(s, q) && q != o && Settled(s, s.ops[q])
    requires CallKept(s, t, q) && LikedByMoved(s, t, o)
    requires Writes(s, o) && s.ops[o].kind != s.ops[q].kind ==> s.ops[o].Pair() != s.ops[q].Pair()
    ensures Settled(t, t.ops[q])
  {
  }

  lemma StepSettled(s: State, a: Action)
    requires Shaped(s) && Unopposed(s) && AllSettled(s)
    ensures AllSettled(Apply(s, a))
  {
    var t := Apply(s, a);
    forall q | Writes(t, q) ensures Settled(t, t.ops[q]) {
      if a.Start? {
        assert q in s.ops ==> Writes(s, q) && Settled(s, s.ops[q]);
      } else if a.op in s.ops {
        StepWrites(s, a, q);
        assert Settled(s, s.ops[q]);
        if q == a.op { OwnSettled(s, q, a.effective); } else { OthersSettled(s, a.op, a.effective, q); }
      }
    }
  }

  // A step of a call on another pair, or of a Count.
  ghost predicate Elsewhere(s: State, a: Action, p: Pair) {
    a.op in s.ops ==> s.ops[a.op].Pair() != p || s.ops[a.op].kind.Count?
  }

  lemma PlaceOfOthers(s: State, t: State, p: Pair, o: nat)
    requires CallKept(s, t, o) || (CallMoved(s, t, o) && o in s.ops && (s.ops[o].Pair() != p || s.ops[o].kind.Count?))
          || (o !in s.ops && o in t.ops && t.ops[o].pc in {Check, Fetch})
    ensures AtWindow(t, o, p) <==> AtWindow(s, o, p)
  {
  }

  lemma PairOfOthers(s: State, a: Action, p: Pair)
    requires Elsewhere(s, a, p) && Shaped(s)
    ensures var t := Apply(s, a);
            && (p in t.likedBy <==> p in s.likedBy) && (p in t.rows <==> p in s.rows)
            && (p in t.unsynced <==> p in s.unsynced)
  {
  }

  lemma WindowOfOthers(s: State, a: Action, p: Pair)
    requires Elsewhere(s, a, p) && Shaped(s)
    ensures InWindow(Apply(s, a), p) <==> InWindow(s, p)
    ensures Mirrored(s, p) ==> Mirrored(Apply(s, a), p)
    ensures InSync(s, p) ==> InSync(Apply(s, a), p)
  {
    forall o ensures AtWindow(Apply(s, a), o, p) <==> AtWindow(s, o, p) {
      StepCalls(s, a, o);
      PlaceOfOthers(s, Apply(s, a), p, o);
    }
    PairOfOthers(s, a, p);
  }

  lemma OwnMirrored(s: State, o: nat, effective: bool)
    requires Shaped(s) && Writes(s, o) && Settled(s, s.ops[o]) && Mirrored(s, s.ops[o].Pair())
    ensures Mirrored(Next(s, o, effective), s.ops[o].Pair())
  {
    var t, p, pc := Next(s, o, effective), s.ops[o].Pair(), s.ops[o].pc;
    if pc in {Update, Clamp} {
      assert AtWindow(t, o, p);
    } else if pc != Persist && InWindow(s, p) {
      var q :| AtWindow(s, q, p);
      assert AtWindow(t, q, p);
    }
  }

  lemma StepMirrored(s: State, a: Action, p: Pair)
    requires TableSound(s)
    ensures Mirrored(Apply(s, a), p)
  {
    assert Mirrored(s, p);
    if a.Advance? && Writes(s, a.op) && s.ops[a.op].Pair() == p {
      assert Settled(s, s.ops[a.op]);
      OwnMirrored(s, a.op, a.effective);
    } else if a.Advance? || a.op !in s.ops {
      WindowOfOthers(s, a, p);
    }
  }

  lemma StepTableSound(s: State, a: Action)
    requires TableSound(s) && StartsClear(s, a, OtherKind(a))
    ensures TableSound(Apply(s, a))
  {
    StepShaped(s, a);
    StepUnopposed(s, a);
    StepSettled(s, a);
    forall p ensures Mirrored(Apply(s, a), p) { StepMirrored(s, a, p); }
  }

  /** With no like and unlike of one user for one feed in flight at once, and with or without counters: set and
      table differ on a pair only between a call's change of the set and its SQL write, or after a lost write. */
  lemma {:induction false} AlwaysMirrored(s: State, actions: seq<Action>)
    requires TableSound(s) && NoOpposites(s, actions)
    ensures TableSound(Run(s, actions))
  {
    if actions != [] {
      var before, a := actions[..|actions| - 1], actions[|actions| - 1];
      forall k | 0 <= k < |before| ensures StartsClear(Run(s, before[..k]), before[k], OtherKind(before[k])) {
        assert before[..k] == actions[..k];
      }
      AlwaysMirrored(s, before);
      assert StartsClear(Run(s, before), a, OtherKind(a));
      StepTableSound(Run(s, before), a);
    }
  }

  /** So when everything has finished, they agree on every pair whose last SQL write had effect. */
  lemma TableAgreement(s: State, actions: seq<Action>)
    requires s.ops == map[] && s.likedBy == s.rows && NoOpposites(s, actions) && Run(s, actions).ops == map[]
    ensures var t := Run(s, actions); forall p :: p !in t.unsynced ==> (p in t.likedBy <==> p in t.rows)
  {
    var t := Run(s, actions);
    AlwaysMirrored(s, actions);
    forall p | p !in t.unsynced ensures p in t.likedBy <==> p in t.rows {
      assert Mirrored(t, p);
      assert forall o :: !AtWindow(t, o, p);
    }
  }

  // ----- At most one like or unlike in flight for each user and feed -----

  ghost predicate Sound(s: State) { CounterSound(s) && TableSound(s) && forall p :: InSync(s, p) }

  lemma WindowOfOwn(s: State, o: nat)
    requires Unrepeated(s) && Unopposed(s) && Writes(s, o)
    ensures InWindow(s, s.ops[o].Pair()) <==> s.ops[o].pc == Clamp || s.ops[o].pc == Persist
  {
    assert AtWindow(s, o, s.ops[o].Pair()) <==> s.ops[o].pc == Clamp || s.ops[o].pc == Persist;
    if q :| AtWindow(s, q, s.ops[o].Pair()) { assert q == o; }
  }

  // What a step on its own pair does to the pair: set and table differ after it exactly if it is in the window.
  lemma OwnDiffers(s: State, o: nat, effective: bool)
    requires Shaped(s) && Writes(s, o) && Decided(s, s.ops[o]) && Settled(s, s.ops[o])
    requires var p := s.ops[o].Pair(); p !in s.unsynced ==>
      ((p in s.likedBy) != (p in s.rows) <==> s.ops[o].pc == Clamp || s.ops[o].pc == Persist)
    ensures var t, p := Next(s, o, effective), s.ops[o].Pair(); p !in t.unsynced ==>
      ((p in t.likedBy) != (p in t.rows) <==> o in t.ops && (t.ops[o].pc == Clamp || t.ops[o].pc == Persist))
    ensures o in Next(s, o, effective).ops ==> Writes(Next(s, o, effective), o) && Next(s, o, effective).ops[o].Pair() == s.ops[o].Pair()
  {
  }

  lemma OwnInSync(s: State, o: nat, effective: bool)
    requires Sound(s) && Writes(s, o) && Unrepeated(Next(s, o, effective)) && Unopposed(Next(s, o, effective))
    ensures InSync(Next(s, o, effective), s.ops[o].Pair())
  {
    var t, p := Next(s, o, effective), s.ops[o].Pair();
    assert InSync(s, p) && Decided(s, s.ops[o]) && Settled(s, s.ops[o]);
    WindowOfOwn(s, o);
    OwnDiffers(s, o, effective);
    if o in t.ops {
      WindowOfOwn(t, o);
    } else {
      forall q ensures !AtWindow(t, q, p) { OthersStay(s, o, effective, q); }
    }
  }

  lemma OthersStay(s: State, o: nat, effective: bool, q: nat)
    requires Unrepeated(s) && Unopposed(s) && Writes(s, o) && o !in Next(s, o, effective).ops
    ensures !AtWindow(Next(s, o, effective), q, s.ops[o].Pair())
  {
    StepCalls(s, Advance(o, effective), q);
    assert Writes(s, q) && q != o ==> s.ops[q].Pair() != s.ops[o].Pair();
  }

  lemma StepInSync(s: State, a: Action, p: Pair)
    requires Sound(s) && Unrepeated(Apply(s, a)) && Unopposed(Apply(s, a))
    ensures InSync(Apply(s, a), p)
  {
    assert InSync(s, p);
    if a.Advance? && Writes(s, a.op) && s.ops[a.op].Pair() == p {
      OwnInSync(s, a.op, a.effective);
    } else if a.Advance? || a.op !in s.ops {
      WindowOfOthers(s, a, p);
    }
  }

  lemma StepSound(s: State, a: Action)
    requires Sound(s) && WarmAction(s, a) && StartsClear(s, a, SameKind(a)) && StartsClear(s, a, OtherKind(a))
    ensures Sound(Apply(s, a))
  {
    var t := Apply(s, a);
    StepCounterSound(s, a);
    StepTableSound(s, a);
    forall p ensures InSync(t, p) { StepInSync(s, a, p); }
  }

  /** From agreement, in every interleaving with at most one like or unlike in flight per user and feed: both of the
      above, and a pair differs from the table exactly while its call is in that window. */
  lemma {:induction false} AlwaysSound(s: State, actions: seq<Action>)
    requires Agreed(s) && WarmRun(s, actions) && NoRepeats(s, actions) && NoOpposites(s, actions)
    ensures Sound(Run(s, actions)) && Run(s, actions).likes.Keys == s.likes.Keys
  {
    if actions == [] {
      AgreedCounterSound(s);
      forall p ensures InSync(s, p) { assert forall o :: !AtWindow(s, o, p); }
    } else {
      var before, a := actions[..|actions| - 1], actions[|actions| - 1];
      forall k | 0 <= k < |before|
        ensures StartsClear(Run(s, before[..k]), before[k], SameKind(before[k]))
             && StartsClear(Run(s, before[..k]), before[k], OtherKind(before[k]))
      {
        assert before[..k] == actions[..k];
      }
      AlwaysSound(s, before);
      assert StartsClear(Run(s, before), a, SameKind(a)) && StartsClear(Run(s, before), a, OtherKind(a));
      assert WarmAction(s, a);
      StepWarm(Run(s, before), a);
      StepSound(Run(s, before), a);
    }
  }
}
