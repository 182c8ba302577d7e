/** The like store called by one client at a time: Redis counters and membership sets in front of the post_likes
    table, with the ways its commands can fail. */
module LikeStore {
  import opened Collections

  type Id = string

  // No expiry, likeTTL (30 days) or rebuildTTL (30 minutes).
  datatype Ttl = Forever | Full | Short

  datatype Cell<T> = Cell(val: T, ttl: Ttl)

  datatype Result<T> = Ok(value: T) | Err

  datatype Store = Store(likes: map<Id, Cell<int>>, likedBy: map<Id, Cell<set<Id>>>, rows: set<(Id, Id)>)

  const EMPTY_STORE := Store(map[], map[], {})

  // ----- Commands -----

  predicate IsHex(c: char) { '0' <= c <= '9' || 'a' <= c <= 'f' }

  predicate IsValidUuid(id: Id) {
    |id| == 36 && forall i :: 0 <= i < 36 ==> if i in {8, 13, 18, 23} then id[i] == '-' else IsHex(id[i])
  }

  predicate HexOfLength(s: string, n: nat) { |s| == n && forall i :: 0 <= i < n ==> s[i] in "0123456789abcdef" }

  /** Five groups of 8, 4, 4, 4 and 12 lower-case hex digits, joined by hyphens. */
  lemma UuidIff(id: Id)
    ensures IsValidUuid(id) <==> exists a, b, c, d, e ::
      && HexOfLength(a, 8) && HexOfLength(b, 4) && HexOfLength(c, 4) && HexOfLength(d, 4) && HexOfLength(e, 12)
      && id == a + "-" + b + "-" + c + "-" + d + "-" + e
  {
    if IsValidUuid(id) {
      var a, b, c, d, e := id[..8], id[9..13], id[14..18], id[19..23], id[24..];
      forall i | 0 <= i < 36 && i !in {8, 13, 18, 23} ensures id[i] in "0123456789abcdef" { HexDigit(id[i]); }
      assert id == a + "-" + b + "-" + c + "-" + d + "-" + e;
      assert HexOfLength(a, 8) && HexOfLength(b, 4) && HexOfLength(c, 4) && HexOfLength(d, 4) && HexOfLength(e, 12);
    }
    if a, b, c, d, e :| HexOfLength(a, 8) && HexOfLength(b, 4) && HexOfLength(c, 4) && HexOfLength(d, 4)
                        && HexOfLength(e, 12) && id == a + "-" + b + "-" + c + "-" + d + "-" + e
    {
      GroupsAreUuid(a, b, c, d, e);
    }
  }

  lemma GroupsAreUuid(a: string, b: string, c: string, d: string, e: string)
    requires HexOfLength(a, 8) && HexOfLength(b, 4) && HexOfLength(c, 4) && HexOfLength(d, 4) && HexOfLength(e, 12)
    ensures IsValidUuid(a + "-" + b + "-" + c + "-" + d + "-" + e)
  {
    var id := a + "-" + b + "-" + c + "-" + d + "-" + e;
    forall i | 0 <= i < 36 ensures if i in {8, 13, 18, 23} then id[i] == '-' else IsHex(id[i]) {
      if i !in {8, 13, 18, 23} {
        var x := if i < 8 then a[i] else if i < 13 then b[i - 9] else if i < 18 then c[i - 14]
                 else if i < 23 then d[i - 19] else e[i - 24];
        assert id[i] == x;
        HexDigit(x);
      }
    }
  }

  lemma HexDigit(c: char)
    ensures IsHex(c) <==> c in "0123456789abcdef"
  {
    var digits := "0123456789abcdef";
    assert forall i :: 0 <= i < 16 ==> digits[i] == (if i < 10 then '0' + i as char else 'a' + (i - 10) as char);
    if '0' <= c <= '9' { assert digits[(c - '0') as int] == c; }
    if 'a' <= c <= 'f' { assert digits[10 + (c - 'a') as int] == c; }
  }

  function Members(s: Store, feed: Id): set<Id> { if feed in s.likedBy then s.likedBy[feed].val else {} }

  function TtlOf<T>(m: map<Id, Cell<T>>, feed: Id): Ttl { if feed in m then m[feed].ttl else Forever }

  function IncrBy(s: Store, feed: Id, n: int): Store {
    s.(likes := s.likes[feed := Cell(Get(s.likes, feed, Cell(0, Forever)).val + n, TtlOf(s.likes, feed))])
  }

  function SAdd(s: Store, feed: Id, users: set<Id>): Store {
    s.(likedBy := s.likedBy[feed := Cell(Members(s, feed) + users, TtlOf(s.likedBy, feed))])
  }

  // A set that becomes empty loses its key.
  function SRem(s: Store, feed: Id, user: Id): Store {
    if feed !in s.likedBy then s
    else if s.likedBy[feed].val - {user} == {} then s.(likedBy := Remove(s.likedBy, feed))
    else s.(likedBy := s.likedBy[feed := s.likedBy[feed].(val := s.likedBy[feed].val - {user})])
  }

  function SetLikes(s: Store, feed: Id, n: int): Store { s.(likes := s.likes[feed := Cell(n, Full)]) }

  // EXPIRE does nothing to a missing key.
  function ExpireLikes(s: Store, feed: Id): Store {
    if feed in s.likes then s.(likes := s.likes[feed := s.likes[feed].(ttl := Full)]) else s
  }

  function ExpireLikedBy(s: Store, feed: Id, ttl: Ttl): Store {
    if feed in s.likedBy then s.(likedBy := s.likedBy[feed := s.likedBy[feed].(ttl := ttl)]) else s
  }

  function InsertRow(s: Store, user: Id, feed: Id): Store {
    if IsValidUuid(user) && IsValidUuid(feed) then s.(rows := s.rows + {(user, feed)}) else s
  }

  function DeleteRow(s: Store, user: Id, feed: Id): Store {
    if IsValidUuid(user) && IsValidUuid(feed) then s.(rows := s.rows - {(user, feed)}) else s
  }

  function UsersIn(rows: set<(Id, Id)>, feed: Id): set<Id> { set r | r in rows && r.1 == feed :: r.0 }

  function RowCount(s: Store, feed: Id): int { if IsValidUuid(feed) then |UsersIn(s.rows, feed)| else 0 }

  // ----- Faults -----

  /** What goes wrong during a call: the SISMEMBER, the pipeline (how many of its four commands ran, and whether
      Exec reports an error), the SQL write, the GET, the SQL read, the SET that fills the cache. */
  datatype Fault = Fault(check: bool, applied: nat, execErr: bool, dbWrite: bool, get: bool, dbRead: bool, fill: bool)

  const NO_FAULT := Fault(false, 4, false, false, false, false, false)

  // Redis runs a pipeline in order, and a cut one is reported.
  predicate Plausible(f: Fault) { f.applied <= 4 && (f.applied < 4 ==> f.execErr) }

  // ----- The calls -----

  function CountStep(s: Store, feed: Id, f: Fault): (Store, Result<int>) {
    if f.get then (s, Err)
    else if feed in s.likes then (s, Ok(s.likes[feed].val))
    else if f.dbRead then (s, Err)
    else (if f.fill then s else SetLikes(s, feed, RowCount(s, feed)), Ok(RowCount(s, feed)))
  }

  // The first k commands of the pipeline of Like (n = 1) or Unlike (n = -1).
  function Pipeline(s: Store, user: Id, feed: Id, n: int, k: nat): Store {
    var s1 := if k >= 1 then IncrBy(s, feed, n) else s;
    var s2 := if k >= 2 then (if n > 0 then SAdd(s1, feed, {user}) else SRem(s1, feed, user)) else s1;
    var s3 := if k >= 3 then ExpireLikes(s2, feed) else s2;
    if k >= 4 then ExpireLikedBy(s3, feed, Full) else s3
  }

  function CounterOf(s: Store, feed: Id): int { Get(s.likes, feed, Cell(0, Forever)).val }

  function LikeStep(s: Store, user: Id, feed: Id, f: Fault): (Store, Result<int>) {
    if !f.check && user in Members(s, feed) then CountStep(s, feed, f)
    else
      var t := Pipeline(s, user, feed, 1, f.applied);
      if f.execErr then (t, Err)
      else (if f.dbWrite then t else InsertRow(t, user, feed), Ok(CounterOf(t, feed)))
  }

  function UnlikeStep(s: Store, user: Id, feed: Id, f: Fault): (Store, Result<int>) {
    if f.check || user !in Members(s, feed) then CountStep(s, feed, f)
    else
      var t := Pipeline(s, user, feed, -1, f.applied);
      if f.execErr then (t, Err)
      else
        var n := CounterOf(t, feed);
        var u := if n < 0 && !f.fill then SetLikes(t, feed, 0) else t;
        (if f.dbWrite then u else DeleteRow(u, user, feed), Ok(if n < 0 then 0 else n))
  }

  // Whether the call goes on to its pipeline. A failed SISMEMBER reads as "not a member".
  predicate LikeReaches(s: Store, user: Id, feed: Id, f: Fault) { f.check || user !in Members(s, feed) }

  predicate UnlikeReaches(s: Store, user: Id, feed: Id, f: Fault) { !f.check && user in Members(s, feed) }

  // ----- Agreement of counter and set, call by call -----

  ghost predicate Agree(s: Store, feed: Id) {
    feed in s.likes && s.likes[feed].val == |Members(s, feed)|
  }

  /** t is s after the first k commands of a pipeline, rows aside, with `counter` in the feed's counter. */
  ghost predicate Moved(s: Store, t: Store, user: Id, feed: Id, n: int, k: nat, counter: int) {
    && CounterOf(t, feed) == counter
    && (feed in t.likes <==> feed in s.likes || k >= 1)
    && Members(t, feed) == (if k < 2 then Members(s, feed)
                            else if n > 0 then Members(s, feed) + {user} else Members(s, feed) - {user})
    && (forall g :: g != feed ==> Untouched(s, t, g))
  }

  ghost predicate Untouched(s: Store, t: Store, g: Id) {
    && Members(t, g) == Members(s, g) && (g in t.likes <==> g in s.likes)
    && (g in s.likes ==> t.likes[g] == s.likes[g])
  }

  function Bumped(s: Store, feed: Id, n: int, k: nat): int { CounterOf(s, feed) + if k >= 1 then n else 0 }

  lemma IncrEffect(s: Store, user: Id, feed: Id, n: int)
    ensures var t := IncrBy(s, feed, n); Moved(s, t, user, feed, n, 1, Bumped(s, feed, n, 1)) && t.rows == s.rows
  {
  }

  lemma MemberEffect(s: Store, t: Store, user: Id, feed: Id, n: int, c: int)
    requires Moved(s, t, user, feed, n, 1, c) && (n == 1 || n == -1)
    ensures var u := if n > 0 then SAdd(t, feed, {user}) else SRem(t, feed, user);
            Moved(s, u, user, feed, n, 2, c) && u.rows == t.rows
  {
    var u := if n > 0 then SAdd(t, feed, {user}) else SRem(t, feed, user);
    forall g | g != feed ensures Untouched(s, u, g) { assert Untouched(s, t, g); }
  }

  lemma ExpireEffect(s: Store, t: Store, user: Id, feed: Id, n: int, k: nat, c: int)
    requires Moved(s, t, user, feed, n, k, c) && k >= 2
    ensures Moved(s, ExpireLikes(t, feed), user, feed, n, k + 1, c) && ExpireLikes(t, feed).rows == t.rows
    ensures Moved(s, ExpireLikedBy(t, feed, Full), user, feed, n, k + 1, c) && ExpireLikedBy(t, feed, Full).rows == t.rows
  {
    forall g | g != feed
      ensures Untouched(s, ExpireLikes(t, feed), g) && Untouched(s, ExpireLikedBy(t, feed, Full), g)
    {
      assert Untouched(s, t, g);
    }
  }

  lemma PipelineEffect(s: Store, user: Id, feed: Id, n: int, k: nat)
    requires n == 1 || n == -1
    ensures var t := Pipeline(s, user, feed, n, k);
            Moved(s, t, user, feed, n, k, Bumped(s, feed, n, k)) && t.rows == s.rows
  {
    if k >= 1 {
      var c, s1 := Bumped(s, feed, n, 1), IncrBy(s, feed, n);
      IncrEffect(s, user, feed, n);
      var s2 := if n > 0 then SAdd(s1, feed, {user}) else SRem(s1, feed, user);
      MemberEffect(s, s1, user, feed, n, c);
      ExpireEffect(s, s2, user, feed, n, 2, c);
      ExpireEffect(s, ExpireLikes(s2, feed), user, feed, n, 3, c);
    }
  }

  // A change of the rows, or a SET of the counter, after a pipeline.
  lemma MovedOn(s: Store, t: Store, user: Id, feed: Id, n: int, k: nat, c: int)
    requires Moved(s, t, user, feed, n, k, c)
    ensures Moved(s, InsertRow(t, user, feed), user, feed, n, k, c)
    ensures Moved(s, DeleteRow(t, user, feed), user, feed, n, k, c)
    ensures k >= 1 ==> Moved(s, SetLikes(t, feed, 0), user, feed, n, k, 0)
  {
    forall g | g != feed
      ensures Untouched(s, InsertRow(t, user, feed), g) && Untouched(s, DeleteRow(t, user, feed), g)
           && Untouched(s, SetLikes(t, feed, 0), g)
    {
      assert Untouched(s, t, g);
    }
  }

  lemma LikeEffect(s: Store, user: Id, feed: Id, f: Fault)
    requires LikeReaches(s, user, feed, f)
    ensures var (t, r) := LikeStep(s, user, feed, f);
            && Moved(s, t, user, feed, 1, f.applied, Bumped(s, feed, 1, f.applied))
            && t.rows == (if f.execErr || f.dbWrite then s.rows else InsertRow(s, user, feed).rows)
            && r == if f.execErr then Err else Ok(CounterOf(t, feed))
  {
    PipelineEffect(s, user, feed, 1, f.applied);
    MovedOn(s, Pipeline(s, user, feed, 1, f.applied), user, feed, 1, f.applied, Bumped(s, feed, 1, f.applied));
  }

  // The clamp writes 0 if the DECR answered less, the call got that far and its SET did not fail.
  function Clamped(n: int, f: Fault): int { if n < 0 && !f.execErr && !f.fill then 0 else n }

  lemma UnlikeEffect(s: Store, user: Id, feed: Id, f: Fault)
    requires UnlikeReaches(s, user, feed, f) && Plausible(f)
    ensures var (t, r) := UnlikeStep(s, user, feed, f);
            var n := Bumped(s, feed, -1, f.applied);
            && Moved(s, t, user, feed, -1, f.applied, Clamped(n, f))
            && t.rows == (if f.execErr || f.dbWrite then s.rows else DeleteRow(s, user, feed).rows)
            && r == if f.execErr then Err else Ok(if n < 0 then 0 else n)
  {
    var p, n := Pipeline(s, user, feed, -1, f.applied), Bumped(s, feed, -1, f.applied);
    PipelineEffect(s, user, feed, -1, f.applied);
    MovedOn(s, p, user, feed, -1, f.applied, n);
    if Clamped(n, f) != n { MovedOn(s, SetLikes(p, feed, 0), user, feed, -1, f.applied, 0); }
  }

  lemma MemberSize(m: set<Id>, user: Id)
    ensures |m + {user}| == |m| + if user in m then 0 else 1
    ensures |m - {user}| == |m| - if user in m then 1 else 0
  {
    if user in m {
      assert m + {user} == m;
      assert m == m - {user} + {user};
    } else {
      assert m - {user} == m;
    }
  }

  /** The first k > 0 commands of a like's pipeline move a counter that is the number of `users`, or missing and read
      as 0, to the number of users after the call. */
  predicate IncrFits(exist: bool, users: set<Id>, user: Id, k: nat) {
    if exist then k >= 2 && user !in users else if k == 1 then |users| == 1 else users <= {user}
  }

  /** ... of an unlike's pipeline: on a missing counter, only by the clamp and for the only user. */
  predicate DecrFits(exist: bool, users: set<Id>, user: Id, f: Fault) {
    f.applied >= 2 && (exist || (users == {user} && !f.execErr && !f.fill))
  }

  lemma SizeFits(users: set<Id>, user: Id)
    ensures |users + {user}| == 1 <==> users <= {user}
    ensures user in users ==> |users| >= 1 && (|users - {user}| == 0 <==> users == {user})
  {
    if users <= {user} { assert users + {user} == {user}; }
    if |users + {user}| == 1 { SubsetSize({user}, users + {user}); }
    if user in users { SubsetSize({user}, users); }
    if users - {user} == {} && user in users { assert users == {user}; }
  }

  // A count read from the table and written back, as large as the set.
  predicate Heals(s: Store, feed: Id, f: Fault) {
    !f.get && !f.dbRead && !f.fill && RowCount(s, feed) == |Members(s, feed)|
  }

  /** A missing counter is right again after a Count exactly if the table was read and its count, written back, is
      the size of the set. */
  lemma CountHealsIff(s: Store, feed: Id, f: Fault)
    requires feed !in s.likes
    ensures Agree(CountStep(s, feed, f).0, feed) <==> Heals(s, feed, f)
  {
    assert Members(SetLikes(s, feed, RowCount(s, feed)), feed) == Members(s, feed);
  }

  /** When counter and set agree after a Like, whatever fails and whether or not the counter had expired. */
  lemma LikeAgreesIff(s: Store, user: Id, feed: Id, f: Fault)
    requires feed in s.likes ==> Agree(s, feed)
    ensures Agree(LikeStep(s, user, feed, f).0, feed) <==>
      if !LikeReaches(s, user, feed, f) then feed in s.likes || Heals(s, feed, f)
      else if f.applied == 0 then feed in s.likes
      else IncrFits(feed in s.likes, Members(s, feed), user, f.applied)
  {
    if LikeReaches(s, user, feed, f) {
      LikeEffect(s, user, feed, f);
      MemberSize(Members(s, feed), user);
      SizeFits(Members(s, feed), user);
    } else if feed !in s.likes {
      CountHealsIff(s, feed, f);
    }
  }

  /** ... after an Unlike. On an existing counter only a pipeline cut after its DECR does harm; on a missing one the
      DECR answers -1, and the clamp is right for the set's only member. */
  lemma UnlikeAgreesIff(s: Store, user: Id, feed: Id, f: Fault)
    requires feed in s.likes ==> Agree(s, feed)
    requires Plausible(f)
    ensures Agree(UnlikeStep(s, user, feed, f).0, feed) <==>
      if !UnlikeReaches(s, user, feed, f) then feed in s.likes || Heals(s, feed, f)
      else if f.applied == 0 then feed in s.likes
      else DecrFits(feed in s.likes, Members(s, feed), user, f)
  {
    if UnlikeReaches(s, user, feed, f) {
      UnlikeEffect(s, user, feed, f);
      MemberSize(Members(s, feed), user);
      SizeFits(Members(s, feed), user);
    } else if feed !in s.likes {
      CountHealsIff(s, feed, f);
    }
  }

  /** After the set has expired, a Like keeps counter and table together exactly if nothing ran, or everything and
      the user has no row: a second like by the same user is counted again, the INSERT does nothing. */
  lemma RelikeCountsTwiceIff(s: Store, user: Id, feed: Id, f: Fault)
    requires Plausible(f) && IsValidUuid(user) && IsValidUuid(feed)
    requires feed in s.likes && feed !in s.likedBy && CounterOf(s, feed) == RowCount(s, feed)
    ensures var t := LikeStep(s, user, feed, f).0;
            CounterOf(t, feed) == RowCount(t, feed) <==>
              f.applied == 0 || (!f.execErr && !f.dbWrite && (user, feed) !in s.rows)
  {
    LikeEffect(s, user, feed, f);
    UsersInChange(s.rows, user, feed, feed);
    MemberSize(UsersIn(s.rows, feed), user);
  }

  lemma UsersInChange(rows: set<(Id, Id)>, u: Id, g: Id, h: Id)
    ensures u in UsersIn(rows, g) <==> (u, g) in rows
    ensures UsersIn(rows + {(u, g)}, h) == UsersIn(rows, h) + if h == g then {u} else {}
    ensures UsersIn(rows - {(u, g)}, h) == UsersIn(rows, h) - if h == g then {u} else {}
  {
    UsersInMember(rows, u, g);
    forall x ensures x in UsersIn(rows + {(u, g)}, h) <==> x in UsersIn(rows, h) + if h == g then {u} else {} {
      UsersInMember(rows + {(u, g)}, x, h);
      UsersInMember(rows, x, h);
    }
    forall x ensures x in UsersIn(rows - {(u, g)}, h) <==> x in UsersIn(rows, h) - if h == g then {u} else {} {
      UsersInMember(rows - {(u, g)}, x, h);
      UsersInMember(rows, x, h);
    }
  }

  lemma UsersInMember(rows: set<(Id, Id)>, u: Id, g: Id)
    ensures u in UsersIn(rows, g) <==> (u, g) in rows
  {
    assert (u, g) in rows ==> u in UsersIn(rows, g);
  }

  /** A Like or Unlike that is answered after its pipeline leaves both keys with the full expiry, whatever they had. */
  lemma AnsweredRenews(s: Store, user: Id, feed: Id, f: Fault)
    requires Plausible(f)
    ensures var (t, r) := LikeStep(s, user, feed, f);
            LikeReaches(s, user, feed, f) && r.Ok? ==> Renewed(t, feed) && feed in t.likedBy
    ensures var (t, r) := UnlikeStep(s, user, feed, f);
            UnlikeReaches(s, user, feed, f) && r.Ok? ==> Renewed(t, feed)
  {
  }

  ghost predicate Renewed(s: Store, feed: Id) {
    feed in s.likes && s.likes[feed].ttl == Full && (feed in s.likedBy ==> s.likedBy[feed].ttl == Full)
  }
}
