/** The ranking worker: hot scores, the best 200 posts, and the swap of a temporary sorted set into hot_posts. */
module Ranking {
  import opened Collections
  import opened SortedSet

  const TOP_N: nat := 200

  datatype Candidate = Candidate(id: Id, hours: real)

  // ----- Scores -----

  function Abs(x: real): real { if x < 0.0 then -x else x }

  // A product the solver does not normalise, so that squares keep their shape.
  function Times(a: real, b: real): real { a * b }

  function SignedSquare(x: real): real { Times(x, Abs(x)) }

  function Weight(likes: int, comments: int): real { likes as real * 3.0 + comments as real * 5.0 }

  function Square(t: real): (s: real)
    requires t > 0.0
    ensures s > 0.0
  {
    PositiveProduct(t, t);
    Times(t, t)
  }

  function Cube(t: real): (c: real)
    requires t > 0.0
    ensures c > 0.0
  {
    PositiveProduct(Square(t), t);
    Times(Square(t), t)
  }

  /** The score weight / (hours + 2)^1.5 is kept as its signed square, which needs no root and orders alike. */
  function Score(weight: real, hours: real): real
    requires hours > -2.0
  {
    SignedSquare(weight) / Cube(hours + 2.0)
  }

  lemma PositiveProduct(a: real, b: real)
    requires a > 0.0 && b > 0.0
    ensures Times(a, b) > 0.0
  {
  }

  lemma SignedSquareStrict(a: real, b: real)
    requires a < b
    ensures SignedSquare(a) < SignedSquare(b)
  {
    if a < 0.0 { PositiveProduct(-a, -a); }
    if b > 0.0 { PositiveProduct(b, b); }
    if b < 0.0 { PositiveProduct(b - a, -a - b); }
    if a > 0.0 { PositiveProduct(b - a, a + b); }
  }

  lemma SignedSquareOrder(a: real, b: real)
    ensures a <= b <==> SignedSquare(a) <= SignedSquare(b)
  {
    if a < b { SignedSquareStrict(a, b); }
    if b < a { SignedSquareStrict(b, a); }
  }

  lemma QuotientUnique(p: real, q: real, e: real)
    requires e > 0.0 && Times(p, e) == q
    ensures p == q / e
  {
  }

  lemma ProductsRegroup(a: real, b: real, c: real, d: real)
    ensures Times(Times(a, b), Times(c, d)) == Times(Times(a, c), Times(b, d))
  {
  }

  lemma SquareOfQuotient(x: real, d: real)
    requires d > 0.0
    ensures SignedSquare(x / d) == SignedSquare(x) / Square(d)
  {
    var s := x / d;
    assert Times(s, d) == x;
    assert Times(Abs(s), d) == Abs(x) by {
      if s > 0.0 { PositiveProduct(s, d); }
      if s < 0.0 { PositiveProduct(-s, d); }
    }
    ProductsRegroup(s, d, Abs(s), d);
    QuotientUnique(SignedSquare(s), SignedSquare(x), Square(d));
  }

  lemma CubeOfSquare(r: real)
    requires r > 0.0
    ensures Square(Cube(r)) == Cube(Square(r))
  {
    ProductsRegroup(Square(r), r, Square(r), r);
  }

  lemma ScoreIsSquare(w: real, h: real, r: real)
    requires r > 0.0 && h > -2.0 && Square(r) == h + 2.0
    ensures Score(w, h) == SignedSquare(w / Cube(r))
  {
    CubeOfSquare(r);
    SquareOfQuotient(w, Cube(r));
  }

  /** With ra and rb the roots of hours + 2, comparing Score compares the scores of the source. */
  lemma ScoreOrdersAsSource(wa: real, ha: real, ra: real, wb: real, hb: real, rb: real)
    requires ra > 0.0 && rb > 0.0 && ha > -2.0 && hb > -2.0
    requires Square(ra) == ha + 2.0 && Square(rb) == hb + 2.0
    ensures Score(wa, ha) <= Score(wb, hb) <==> wa / Cube(ra) <= wb / Cube(rb)
  {
    ScoreIsSquare(wa, ha, ra);
    ScoreIsSquare(wb, hb, rb);
    SignedSquareOrder(wa / Cube(ra), wb / Cube(rb));
  }

  // ----- Selection -----

  // Where a stable descending sort puts a later element: after everything that scores at least as much.
  function InsertDesc(s: seq<Entry>, e: Entry): (r: seq<Entry>)
    ensures multiset(r) == multiset(s) + multiset{e}
  {
    if s == [] then [e]
    else
      var rest, last := s[..|s| - 1], s[|s| - 1];
      assert s == rest + [last];
      if last.score >= e.score then s + [e] else InsertDesc(rest, e) + [last]
  }

  function SortDesc(s: seq<Entry>): (r: seq<Entry>)
    ensures multiset(r) == multiset(s)
  {
    if s == [] then []
    else
      assert s == s[..|s| - 1] + [s[|s| - 1]];
      InsertDesc(SortDesc(s[..|s| - 1]), s[|s| - 1])
  }

  ghost predicate Descending(s: seq<Entry>) {
    forall i, j :: 0 <= i < j < |s| ==> s[i].score >= s[j].score
  }

  lemma {:induction false} InsertDescending(s: seq<Entry>, e: Entry)
    requires Descending(s)
    ensures Descending(InsertDesc(s, e))
  {
    if s != [] && s[|s| - 1].score < e.score {
      var rest, last := s[..|s| - 1], s[|s| - 1];
      InsertDescending(rest, e);
      forall x | x in InsertDesc(rest, e) ensures x.score >= last.score {
        assert x in multiset(InsertDesc(rest, e));
        if x != e { assert x in multiset(rest); }
      }
    }
  }

  lemma {:induction false} SortDescending(s: seq<Entry>)
    ensures Descending(SortDesc(s))
  {
    if s != [] {
      SortDescending(s[..|s| - 1]);
      InsertDescending(SortDesc(s[..|s| - 1]), s[|s| - 1]);
    }
  }

  function OfScore(s: seq<Entry>, score: real): seq<Entry> {
    if s == [] then []
    else OfScore(s[..|s| - 1], score) + (if s[|s| - 1].score == score then [s[|s| - 1]] else [])
  }

  lemma OfScoreSnoc(s: seq<Entry>, x: Entry, score: real)
    ensures OfScore(s + [x], score) == OfScore(s, score) + if x.score == score then [x] else []
  {
    assert (s + [x])[..|s|] == s;
  }

  lemma {:induction false} InsertStable(s: seq<Entry>, e: Entry, score: real)
    ensures OfScore(InsertDesc(s, e), score) == OfScore(s, score) + (if e.score == score then [e] else [])
  {
    if s == [] {
      OfScoreSnoc(s, e, score);
      assert s + [e] == [e];
    } else if s[|s| - 1].score >= e.score {
      OfScoreSnoc(s, e, score);
    } else {
      var rest, last := s[..|s| - 1], s[|s| - 1];
      InsertStable(rest, e, score);
      OfScoreSnoc(InsertDesc(rest, e), last, score);
    }
  }

  /** Posts of equal score keep the order of the query, newest first, as a stable sort with reverse=True does. */
  lemma {:induction false} SortStable(s: seq<Entry>, score: real)
    ensures OfScore(SortDesc(s), score) == OfScore(s, score)
  {
    if s != [] {
      SortStable(s[..|s| - 1], score);
      InsertStable(SortDesc(s[..|s| - 1]), s[|s| - 1], score);
    }
  }

  function ScoreOf(p: Candidate, likes: map<Id, int>, comments: map<Id, int>): Entry
    requires p.hours > -2.0
  {
    Entry(p.id, Score(Weight(Get(likes, p.id, 0), Get(comments, p.id, 0)), p.hours))
  }

  ghost predicate Scorable(posts: seq<Candidate>) { forall i :: 0 <= i < |posts| ==> posts[i].hours > -2.0 }

  ghost predicate DistinctPosts(posts: seq<Candidate>) {
    forall i, j :: 0 <= i < j < |posts| ==> posts[i].id != posts[j].id
  }

  function ScoreAll(posts: seq<Candidate>, likes: map<Id, int>, comments: map<Id, int>): (r: seq<Entry>)
    requires forall i :: 0 <= i < |posts| ==> posts[i].hours > -2.0
    ensures |r| == |posts|
  {
    seq(|posts|, i requires 0 <= i < |posts| => ScoreOf(posts[i], likes, comments))
  }

  function Best(scored: seq<Entry>): seq<Entry> {
    var s := SortDesc(scored);
    if |s| > TOP_N then s[..TOP_N] else s
  }

  ghost predicate DistinctIds(s: seq<Entry>) {
    forall i, j :: 0 <= i < j < |s| ==> s[i].id != s[j].id
  }

  lemma LastIsNew(s: seq<Entry>, x: Entry)
    requires DistinctIds(s) && s != [] && x in s[..|s| - 1]
    ensures x.id != s[|s| - 1].id
  {
    var i :| 0 <= i < |s| - 1 && s[i] == x;
  }

  lemma {:induction false} InsertDistinct(s: seq<Entry>, e: Entry)
    requires DistinctIds(s) && forall x :: x in s ==> x.id != e.id
    ensures DistinctIds(InsertDesc(s, e))
  {
    if s != [] && s[|s| - 1].score < e.score {
      var rest, last := s[..|s| - 1], s[|s| - 1];
      InsertDistinct(rest, e);
      var r := InsertDesc(rest, e);
      forall x | x in r ensures x.id != last.id {
        assert x in multiset(r);
        if x != e {
          assert x in multiset(rest);
          LastIsNew(s, x);
        }
      }
    }
  }

  lemma {:induction false} SortDistinct(s: seq<Entry>)
    requires DistinctIds(s)
    ensures DistinctIds(SortDesc(s)) && |SortDesc(s)| == |s|
  {
    assert |multiset(SortDesc(s))| == |multiset(s)|;
    if s != [] {
      var rest, last := s[..|s| - 1], s[|s| - 1];
      SortDistinct(rest);
      forall x | x in SortDesc(rest) ensures x.id != last.id {
        assert x in multiset(SortDesc(rest));
        LastIsNew(s, x);
      }
      InsertDistinct(SortDesc(rest), last);
    }
  }

  lemma PrefixOfDescending(s: seq<Entry>, n: nat, x: Entry, y: Entry)
    requires Descending(s) && n <= |s| && x in s[..n] && y in s && y !in s[..n]
    ensures x.score >= y.score
  {
    var i :| 0 <= i < n && s[i] == x;
    var j :| 0 <= j < |s| && s[j] == y;
    assert j < n ==> s[..n][j] == y;
  }

  lemma SortMembers(s: seq<Entry>)
    ensures forall x :: x in SortDesc(s) <==> x in s
  {
    forall x ensures x in SortDesc(s) <==> x in s {
      assert x in multiset(SortDesc(s)) <==> x in multiset(s);
    }
  }

  /** The selection is min(n, 200) of the posts, none of which scores less than a post left out. */
  lemma BestIsBest(scored: seq<Entry>)
    requires DistinctIds(scored)
    ensures DistinctIds(Best(scored)) && |Best(scored)| == (if |scored| < TOP_N then |scored| else TOP_N)
    ensures Elems(Best(scored)) <= Elems(scored)
    ensures forall x, y :: x in Best(scored) && y in scored && y !in Best(scored) ==> x.score >= y.score
  {
    SortDescending(scored);
    SortDistinct(scored);
    SortMembers(scored);
    var s := SortDesc(scored);
    var n := |Best(scored)|;
    assert Best(scored) == s[..n];
    forall x, y | x in Best(scored) && y in scored && y !in Best(scored) ensures x.score >= y.score {
      PrefixOfDescending(s, n, x, y);
    }
  }

  // ----- What the selection means for the posts -----

  /** Three for a like, five for a comment, over (hours + 2)^1.5: post a scores at least as much as b. Squared and
      multiplied out, for numbers of likes and comments that are not negative. */
  ghost predicate AtLeastAsHot(a: Candidate, b: Candidate, likes: map<Id, int>, comments: map<Id, int>) {
    Hotter((3 * Get(likes, a.id, 0) + 5 * Get(comments, a.id, 0)) as real, a.hours + 2.0,
           (3 * Get(likes, b.id, 0) + 5 * Get(comments, b.id, 0)) as real, b.hours + 2.0)
  }

  // wb^2 / tb^3 <= wa^2 / ta^3
  ghost predicate Hotter(wa: real, ta: real, wb: real, tb: real) {
    (wb * wb) * (ta * ta * ta) <= (wa * wa) * (tb * tb * tb)
  }

  ghost predicate Counted(p: Candidate, likes: map<Id, int>, comments: map<Id, int>) {
    && (p.id in likes ==> likes[p.id] >= 0) && (p.id in comments ==> comments[p.id] >= 0)
  }

  ghost predicate Holds(z: seq<Entry>, id: Id) { exists k :: 0 <= k < |z| && z[k].id == id }

  /** z holds posts of the window, none of which is less hot than one it leaves out, and ranks them by heat. */
  ghost predicate Hottest(z: seq<Entry>, posts: seq<Candidate>, likes: map<Id, int>, comments: map<Id, int>) {
    && (forall k :: 0 <= k < |z| ==> exists p :: p in posts && p.id == z[k].id)
    && (forall a, b :: (a in posts && b in posts && Counted(a, likes, comments) && Counted(b, likes, comments)
                        && Holds(z, a.id) && !Holds(z, b.id)) ==> AtLeastAsHot(a, b, likes, comments))
    && (forall i, j, a, b :: (0 <= i < j < |z| && a in posts && b in posts && a.id == z[i].id && b.id == z[j].id
                              && Counted(a, likes, comments) && Counted(b, likes, comments)) ==>
          AtLeastAsHot(b, a, likes, comments))
  }

  lemma TimesOrder(u: real, v: real, c: real)
    requires c > 0.0
    ensures u <= v <==> Times(u, c) <= Times(v, c)
  {
    if u < v { PositiveProduct(v - u, c); }
    if v < u { PositiveProduct(u - v, c); }
  }

  lemma CrossMultiply(x: real, p: real, y: real, q: real)
    requires p > 0.0 && q > 0.0
    ensures x / p <= y / q <==> Times(x, q) <= Times(y, p)
  {
    var u, v := x / p, y / q;
    assert Times(u, p) == x && Times(v, q) == y;
    PositiveProduct(p, q);
    TimesOrder(u, v, Times(p, q));
    ProductsRegroup(u, 1.0, p, q);
    ProductsRegroup(v, 1.0, q, p);
    assert Times(u, Times(p, q)) == Times(x, q);
    assert Times(v, Times(p, q)) == Times(y, p);
  }

  lemma WeightIsPoints(likes: int, comments: int)
    ensures Weight(likes, comments) == (3 * likes + 5 * comments) as real
  {
  }

  lemma HeatProduct(w: real, t: real)
    requires w >= 0.0 && t > 0.0
    ensures Times(SignedSquare(w), Cube(t)) == (w * w) * (t * t * t)
  {
    assert SignedSquare(w) == w * w && Cube(t) == t * t * t;
  }

  lemma HeatCompares(wa: real, ha: real, wb: real, hb: real)
    requires wa >= 0.0 && wb >= 0.0 && ha > -2.0 && hb > -2.0
    ensures Score(wb, hb) <= Score(wa, ha) <==> Hotter(wa, ha + 2.0, wb, hb + 2.0)
  {
    CrossMultiply(SignedSquare(wb), Cube(hb + 2.0), SignedSquare(wa), Cube(ha + 2.0));
    HeatProduct(wb, ha + 2.0);
    HeatProduct(wa, hb + 2.0);
  }

  lemma ScoreOrdersHeat(a: Candidate, b: Candidate, likes: map<Id, int>, comments: map<Id, int>)
    requires a.hours > -2.0 && b.hours > -2.0 && Counted(a, likes, comments) && Counted(b, likes, comments)
    ensures ScoreOf(b, likes, comments).score <= ScoreOf(a, likes, comments).score <==> AtLeastAsHot(a, b, likes, comments)
  {
    var la, ca, lb, cb := Get(likes, a.id, 0), Get(comments, a.id, 0), Get(likes, b.id, 0), Get(comments, b.id, 0);
    WeightIsPoints(la, ca);
    WeightIsPoints(lb, cb);
    HeatCompares(Weight(la, ca), a.hours, Weight(lb, cb), b.hours);
    assert ScoreOf(a, likes, comments).score == Score(Weight(la, ca), a.hours);
    assert ScoreOf(b, likes, comments).score == Score(Weight(lb, cb), b.hours);
  }

  // An entry of the selection is that of its post.
  lemma EntryOfPost(posts: seq<Candidate>, likes: map<Id, int>, comments: map<Id, int>, e: Entry, a: Candidate)
    requires Scorable(posts) && DistinctPosts(posts) && a in posts && a.id == e.id
    requires e in Elems(ScoreAll(posts, likes, comments))
    ensures e == ScoreOf(a, likes, comments) && a.hours > -2.0
  {
    var scored := ScoreAll(posts, likes, comments);
    var k :| 0 <= k < |scored| && scored[k] == e;
    var j :| 0 <= j < |posts| && posts[j] == a;
    assert posts[k].id == posts[j].id;
  }

  lemma BestIsHottest(z: seq<Entry>, posts: seq<Candidate>, likes: map<Id, int>, comments: map<Id, int>)
    requires Scorable(posts) && DistinctPosts(posts) && Ranked(z)
    requires Elems(z) == Elems(Best(ScoreAll(posts, likes, comments)))
    ensures Hottest(z, posts, likes, comments)
  {
    var scored := ScoreAll(posts, likes, comments);
    BestIsBest(scored);
    forall k | 0 <= k < |z| ensures z[k] in Elems(scored) && exists p :: p in posts && p.id == z[k].id {
      assert z[k] in Elems(z);
      var i :| 0 <= i < |scored| && scored[i] == z[k];
      assert posts[i] in posts && posts[i].id == z[k].id;
    }
    forall a, b | a in posts && b in posts && Counted(a, likes, comments) && Counted(b, likes, comments)
                  && Holds(z, a.id) && !Holds(z, b.id)
      ensures AtLeastAsHot(a, b, likes, comments)
    {
      LeftOut(z, posts, likes, comments, a, b);
    }
    forall i, j, a, b | 0 <= i < j < |z| && a in posts && b in posts && a.id == z[i].id && b.id == z[j].id
                        && Counted(a, likes, comments) && Counted(b, likes, comments)
      ensures AtLeastAsHot(b, a, likes, comments)
    {
      EntryOfPost(posts, likes, comments, z[i], a);
      EntryOfPost(posts, likes, comments, z[j], b);
      ScoreOrdersHeat(b, a, likes, comments);
    }
  }

  lemma LeftOut(z: seq<Entry>, posts: seq<Candidate>, likes: map<Id, int>, comments: map<Id, int>, a: Candidate, b: Candidate)
    requires Scorable(posts) && DistinctPosts(posts) && Elems(z) == Elems(Best(ScoreAll(posts, likes, comments)))
    requires a in posts && b in posts && Counted(a, likes, comments) && Counted(b, likes, comments)
    requires Holds(z, a.id) && !Holds(z, b.id)
    ensures AtLeastAsHot(a, b, likes, comments)
  {
    var scored := ScoreAll(posts, likes, comments);
    BestIsBest(scored);
    var k :| 0 <= k < |z| && z[k].id == a.id;
    assert z[k] in Elems(z);
    EntryOfPost(posts, likes, comments, z[k], a);
    var j :| 0 <= j < |posts| && posts[j] == b;
    var e := scored[j];
    assert e in scored && e.id == b.id;
    assert forall i :: 0 <= i < |z| ==> z[i] != e;
    assert e !in Elems(z);
    assert z[k] in Best(scored) && e !in Best(scored);
    ScoreOrdersHeat(a, b, likes, comments);
  }

  // ----- Writing the sorted sets -----

  function AddAll(z: seq<Entry>, es: seq<Entry>): seq<Entry> {
    if es == [] then z else ZAdd(AddAll(z, es[..|es| - 1]), es[|es| - 1])
  }

  // The members already there that the additions do not overwrite.
  ghost function Untouched(z: seq<Entry>, es: seq<Entry>): set<Entry> {
    set x | x in z && forall e :: e in es ==> e.id != x.id
  }

  lemma AddOneEffect(y: seq<Entry>, z: seq<Entry>, rest: seq<Entry>, last: Entry)
    requires Ranked(y) && Elems(y) == Untouched(z, rest) + Elems(rest)
    requires forall x :: x in rest ==> x.id != last.id
    ensures Ranked(ZAdd(y, last))
    ensures Elems(ZAdd(y, last)) == Untouched(z, rest + [last]) + Elems(rest + [last])
  {
    ZAddEffect(y, last);
    var all := rest + [last];
    forall x ensures x in Elems(ZAdd(y, last)) <==> x in Untouched(z, all) + Elems(all) {
      assert x in y <==> x in Elems(y);
      assert x in Untouched(z, all) <==> x in Untouched(z, rest) && x.id != last.id by {
        assert forall e :: e in all <==> e in rest || e == last;
      }
    }
  }

  lemma {:induction false} AddAllEffect(z: seq<Entry>, es: seq<Entry>)
    requires Ranked(z) && DistinctIds(es)
    ensures Ranked(AddAll(z, es))
    ensures Elems(AddAll(z, es)) == Untouched(z, es) + Elems(es)
  {
    if es == [] {
      assert Untouched(z, es) == Elems(z);
    } else {
      var rest, last := es[..|es| - 1], es[|es| - 1];
      assert es == rest + [last];
      AddAllEffect(z, rest);
      forall x | x in rest ensures x.id != last.id { LastIsNew(es, x); }
      AddOneEffect(AddAll(z, rest), z, rest, last);
    }
  }

  /** The ZADDs are one MULTI/EXEC transaction: it is lost as a whole, or runs and its reply is lost; the same goes
      for the RENAME. */
  datatype Fault = NoFault | ExecLost | ExecUnanswered | RenameLost | RenameUnanswered

  class Worker {
    var hot: seq<Entry>
    var tmp: seq<Entry>   // the key hot_posts:tmp; empty when there is no such key

    constructor ()
      ensures Valid() && hot == [] && tmp == []
    {
      hot, tmp := [], [];
    }

    ghost predicate Valid()
      reads this
    {
      Ranked(hot) && Ranked(tmp)
    }

    /** A post dated two hours or more ahead has no real score and makes the run raise. */
    method ScoreLoop(posts: seq<Candidate>, likes: map<Id, int>, comments: map<Id, int>)
      returns (ok: bool, scored: seq<Entry>)
      ensures ok <==> Scorable(posts)
      ensures ok ==> scored == ScoreAll(posts, likes, comments)
    {
      scored := [];
      for i := 0 to |posts|
        invariant forall k :: 0 <= k < i ==> posts[k].hours > -2.0
        invariant |scored| == i && forall k :: 0 <= k < i ==> scored[k] == ScoreOf(posts[k], likes, comments)
      {
        if posts[i].hours <= -2.0 { return false, []; }
        scored := scored + [ScoreOf(posts[i], likes, comments)];
      }
      ok := true;
    }

    // The transaction of ZADDs.
    method WriteTmp(top: seq<Entry>)
      requires Valid()
      modifies this`tmp
      ensures Valid() && tmp == AddAll(old(tmp), top)
    {
      assert top[..0] == [];
      for i := 0 to |top|
        invariant tmp == AddAll(old(tmp), top[..i]) && Ranked(tmp)
      {
        AddAllSnoc(old(tmp), top, i);
        ZAddEffect(tmp, top[i]);
        tmp := ZAdd(tmp, top[i]);
      }
      assert top[..|top|] == top;
    }

    /** `posts` are the rows of the last seven days; their ids are a primary key. */
    method RunRanking(posts: seq<Candidate>, likes: map<Id, int>, comments: map<Id, int>, fault: Fault)
      returns (ok: bool)
      requires Valid() && DistinctPosts(posts)
      modifies this
      ensures Valid()
      ensures ok <==> posts == [] || ((forall p :: p in posts ==> p.hours > -2.0) && fault == NoFault)
      ensures posts == [] || !Scorable(posts) || fault == ExecLost ==> hot == old(hot) && tmp == old(tmp)
      ensures posts != [] && Scorable(posts) ==>
        var all := AddAll(old(tmp), Best(ScoreAll(posts, likes, comments)));
        && (fault == ExecUnanswered || fault == RenameLost ==> hot == old(hot) && tmp == all)
        && (fault == NoFault || fault == RenameUnanswered ==> hot == all && tmp == [])
      ensures posts != [] && ok && old(tmp) == [] ==>
        |hot| == (if |posts| < 200 then |posts| else 200) && Hottest(hot, posts, likes, comments)
    {
      if posts == [] { return true; }
      var scored;
      ok, scored := ScoreLoop(posts, likes, comments);
      if !ok { return; }
      var top := SortDesc(scored);
      if |top| > TOP_N { top := top[..TOP_N]; }
      if fault == ExecLost { return false; }
      FreshRunIsExact(posts, likes, comments);
      WriteTmp(top);
      if old(tmp) == [] { BestIsHottest(tmp, posts, likes, comments); }
      if fault == ExecUnanswered || fault == RenameLost { return false; }
      hot, tmp := tmp, [];
      ok := fault == NoFault;
    }
  }

  lemma AddAllSnoc(z: seq<Entry>, es: seq<Entry>, i: nat)
    requires i < |es|
    ensures AddAll(z, es[..i + 1]) == ZAdd(AddAll(z, es[..i]), es[i])
  {
    assert es[..i + 1][..i] == es[..i];
  }

  /** A run that starts without the temporary key leaves exactly the best posts, whatever was there before. */
  lemma FreshRunIsExact(posts: seq<Candidate>, likes: map<Id, int>, comments: map<Id, int>)
    requires Scorable(posts) && DistinctPosts(posts)
    ensures var scored := ScoreAll(posts, likes, comments);
            && Ranked(AddAll([], Best(scored)))
            && Elems(AddAll([], Best(scored))) == Elems(Best(scored))
            && |AddAll([], Best(scored))| == (if |posts| < TOP_N then |posts| else TOP_N)
  {
    var top := Best(ScoreAll(posts, likes, comments));
    BestIsBest(ScoreAll(posts, likes, comments));
    AddAllEffect([], top);
    RankedSize(AddAll([], top));
    DistinctSize(top);
  }

  lemma {:induction false} DistinctSize(s: seq<Entry>)
    requires DistinctIds(s)
    ensures |Elems(s)| == |s|
  {
    if s != [] {
      var rest, last := s[..|s| - 1], s[|s| - 1];
      DistinctSize(rest);
      assert last !in rest by {
        if last in rest { LastIsNew(s, last); }
      }
      assert Elems(s) == Elems(rest) + {last} by { assert s == rest + [last]; }
    }
  }

  /** What a failed run left under the temporary key joins the next result: that result is exact if and only if
      every member left behind is selected again. */
  lemma StaleRunIsExactIff(stale: seq<Entry>, top: seq<Entry>)
    requires Ranked(stale) && DistinctIds(top)
    ensures Elems(AddAll(stale, top)) == Elems(top) <==> forall x :: x in stale ==> exists e :: e in top && e.id == x.id
  {
    AddAllEffect(stale, top);
    if forall x :: x in stale ==> exists e :: e in top && e.id == x.id {
      assert Untouched(stale, top) == {};
    } else {
      var x :| x in stale && forall e :: e in top ==> e.id != x.id;
      assert x in Elems(AddAll(stale, top)) && x !in Elems(top);
    }
  }
}
