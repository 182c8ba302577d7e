/** The notifications table and its cursor pagination, against a table that other requests keep changing. */
module Notifications {
  import opened Collections
  import opened SortedSet
  import opened Interleave

  datatype Row = Row(id: int, userId: Id, kind: string, title: string, body: string, payload: string,
                     readAt: Option<int>, createdAt: int)

  // The table in key order: BIGSERIAL ids are positive and grow.
  ghost predicate Keyed(rows: seq<Row>) {
    && (forall i :: 0 <= i < |rows| ==> rows[i].id > 0)
    && (forall i, j :: 0 <= i < j < |rows| ==> rows[i].id < rows[j].id)
  }

  // ----- The query of one page -----

  // ORDER BY created_at DESC, id DESC
  predicate Before(a: Row, b: Row) {
    a.createdAt > b.createdAt || (a.createdAt == b.createdAt && a.id > b.id)
  }

  function Place(s: seq<Row>, r: Row): seq<Row> {
    if s == [] then [r]
    else if Before(r, s[0]) then [r] + s
    else [s[0]] + Place(s[1..], r)
  }

  function Ordered(s: seq<Row>): seq<Row> {
    if s == [] then [] else Place(Ordered(s[..|s| - 1]), s[|s| - 1])
  }

  lemma {:induction false} PlaceMembers(s: seq<Row>, r: Row)
    ensures forall x :: x in Place(s, r) <==> x in s || x == r
  {
    if s != [] && !Before(r, s[0]) { PlaceMembers(s[1..], r); }
  }

  lemma {:induction false} OrderedMembers(s: seq<Row>)
    ensures forall x :: x in Ordered(s) <==> x in s
  {
    if s != [] {
      OrderedMembers(s[..|s| - 1]);
      PlaceMembers(Ordered(s[..|s| - 1]), s[|s| - 1]);
    }
  }

  // WHERE user_id = user AND (cursor = 0 OR id < cursor)
  predicate Selected(r: Row, user: Id, cursor: int) { r.userId == user && (cursor == 0 || r.id < cursor) }

  function Matching(rows: seq<Row>, user: Id, cursor: int): seq<Row> {
    if rows == [] then []
    else
      var last := rows[|rows| - 1];
      Matching(rows[..|rows| - 1], user, cursor) + if Selected(last, user, cursor) then [last] else []
  }

  lemma {:induction false} MatchingMembers(rows: seq<Row>, user: Id, cursor: int)
    ensures forall r :: r in Matching(rows, user, cursor) <==> r in rows && Selected(r, user, cursor)
  {
    if rows != [] {
      MatchingMembers(rows[..|rows| - 1], user, cursor);
      assert forall r :: r in rows <==> r in rows[..|rows| - 1] || r == rows[|rows| - 1] by {
        assert rows == rows[..|rows| - 1] + [rows[|rows| - 1]];
      }
    }
  }

  datatype Page = Page(items: seq<Row>, next: int)

  // One page: a row more than asked for is fetched and cut off, and the cursor is the last id that stays.
  function PageAt(rows: seq<Row>, user: Id, cursor: int, size: nat): Page
    requires size >= 1
  {
    var m := FirstOf(Ordered(Matching(rows, user, cursor)), size);
    Page(m, if m == [] then 0 else m[|m| - 1].id)
  }

  lemma CursorFalls(rows: seq<Row>, user: Id, cursor: int, size: nat)
    requires size >= 1 && Keyed(rows)
    ensures var p := PageAt(rows, user, cursor, size);
            p.next >= 0 && (p.next == 0 <==> p.items == []) && (cursor != 0 && p.next != 0 ==> p.next < cursor)
  {
    OrderedMembers(Matching(rows, user, cursor));
    MatchingMembers(rows, user, cursor);
    var items := PageAt(rows, user, cursor, size).items;
    if items != [] {
      var last := items[|items| - 1];
      assert last in Ordered(Matching(rows, user, cursor));
      var i :| 0 <= i < |rows| && rows[i] == last;
    }
  }

  // ----- The store -----

  // What other requests may do to the table between two pages: append rows, and set read_at.
  ghost predicate Evolves(a: seq<Row>, b: seq<Row>) {
    && Keyed(a) && Keyed(b) && |a| <= |b|
    && forall i :: 0 <= i < |a| ==> b[i] == a[i].(readAt := b[i].readAt)
  }

  function Unread(rows: seq<Row>, user: Id): nat {
    if rows == [] then 0
    else Unread(rows[..|rows| - 1], user)
         + if rows[|rows| - 1].userId == user && rows[|rows| - 1].readAt == None then 1 else 0
  }

  ghost function UnreadAt(rows: seq<Row>, user: Id): set<int> {
    set i | 0 <= i < |rows| && rows[i].userId == user && rows[i].readAt == None
  }

  lemma {:induction false} UnreadIsSize(rows: seq<Row>, user: Id)
    ensures Unread(rows, user) == |UnreadAt(rows, user)|
  {
    if rows == [] {
      assert UnreadAt(rows, user) == {};
    } else {
      var before, m := rows[..|rows| - 1], |rows| - 1;
      UnreadIsSize(before, user);
      assert UnreadAt(rows, user) ==
        UnreadAt(before, user) + if rows[m].userId == user && rows[m].readAt == None then {m} else {};
    }
  }

  // Later by time, and by id at the same time.
  ghost predicate LaterThan(a: Row, b: Row) { a.createdAt > b.createdAt || (a.createdAt == b.createdAt && a.id > b.id) }

  ghost predicate Listable(rows: seq<Row>, user: Id, cursor: int, r: Row) {
    r in rows && r.userId == user && (cursor == 0 || r.id < cursor)
  }

  /** items are the latest `size` rows of the user below the cursor, latest first. */
  ghost predicate Latest(rows: seq<Row>, user: Id, cursor: int, size: nat, items: seq<Row>) {
    && |items| <= size
    && (forall i :: 0 <= i < |items| ==> Listable(rows, user, cursor, items[i]))
    && (forall i, j :: 0 <= i < j < |items| ==> LaterThan(items[i], items[j]))
    && (forall r :: Listable(rows, user, cursor, r) && r !in items ==>
          |items| == size && forall i :: 0 <= i < |items| ==> LaterThan(items[i], r))
  }

  lemma PageIsLatest(rows: seq<Row>, user: Id, cursor: int, size: nat)
    requires size >= 1 && Keyed(rows)
    ensures Latest(rows, user, cursor, size, PageAt(rows, user, cursor, size).items)
  {
    var m := Matching(rows, user, cursor);
    var all, items := Ordered(m), PageAt(rows, user, cursor, size).items;
    MatchingMembers(rows, user, cursor);
    MatchingKeyed(rows, user, cursor);
    OrderedMembers(m);
    OrderedSorted(m);
    forall i | 0 <= i < |items| ensures Listable(rows, user, cursor, items[i]) { assert items[i] in all; }
    forall r | Listable(rows, user, cursor, r) && r !in items
      ensures |items| == size && forall i :: 0 <= i < |items| ==> LaterThan(items[i], r)
    {
      assert r in all;
      var k :| 0 <= k < |all| && all[k] == r;
      assert items == all[..|items|];
      assert k >= |items|;
    }
  }

  class Store {
    var rows: seq<Row>
    var nextId: int

    ghost predicate Valid()
      reads this
    {
      Keyed(rows) && nextId > 0 && forall i :: 0 <= i < |rows| ==> rows[i].id < nextId
    }

    constructor ()
      ensures Valid() && rows == []
    {
      rows, nextId := [], 1;
    }

    method Insert(userId: Id, kind: string, title: string, body: string, payload: string, now: int)
      returns (id: int)
      requires Valid()
      modifies this
      ensures Valid() && Evolves(old(rows), rows)
      ensures rows == old(rows) + [Row(id, userId, kind, title, body, payload, None, now)]
    {
      id := nextId;
      rows := rows + [Row(id, userId, kind, title, body, payload, None, now)];
      nextId := nextId + 1;
    }

    /** The user's rows below the cursor, the latest `size` of them, each as it stands in the table, by falling time and
        then id; the next cursor is the id of the last. */
    method ListByUser(userId: Id, cursor: int, size: nat) returns (page: Page)
      requires size >= 1 && Valid()
      ensures page == PageAt(rows, userId, cursor, size)
      ensures Latest(rows, userId, cursor, size, page.items)
      ensures page.next == if page.items == [] then 0 else page.items[|page.items| - 1].id
    {
      PageIsLatest(rows, userId, cursor, size);
      var fetched := FirstOf(Ordered(Matching(rows, userId, cursor)), size + 1);
      var items := [];
      for i := 0 to |fetched|
        invariant items == fetched[..i]
      {
        items := items + [fetched[i]];
      }
      var next := 0;
      if |items| > size {
        next := items[size - 1].id;
        items := items[..size];
      } else if |items| > 0 {
        next := items[|items| - 1].id;
      }
      page := Page(items, next);
    }

    method UnreadCount(userId: Id) returns (n: nat)
      ensures n == |set i | 0 <= i < |rows| && rows[i].userId == userId && rows[i].readAt == None|
    {
      UnreadIsSize(rows, userId);
      n := Unread(rows, userId);
    }

    // One row, or all of them when there is no id.
    method MarkRead(userId: Id, id: Option<int>, now: int)
      requires Valid()
      modifies this`rows
      ensures Valid() && Evolves(old(rows), rows) && |rows| == |old(rows)|
      ensures forall i :: 0 <= i < |rows| ==>
        rows[i].readAt == if old(rows)[i].userId == userId && old(rows)[i].readAt == None
                             && (id == None || id == Some(old(rows)[i].id))
                          then Some(now) else old(rows)[i].readAt
    {
      var before := rows;
      rows := seq(|before|, i requires 0 <= i < |before| =>
        if before[i].userId == userId && before[i].readAt == None && (id == None || id == Some(before[i].id))
        then before[i].(readAt := Some(now)) else before[i]);
    }
  }

  /** Marking all of a user's rows leaves none unread and no other user's count changed. */
  lemma {:induction false} MarkAllUnread(a: seq<Row>, b: seq<Row>, user: Id, now: int, other: Id)
    requires |a| == |b|
    requires forall i :: 0 <= i < |a| ==>
      (b[i] == if a[i].userId == user && a[i].readAt == None then a[i].(readAt := Some(now)) else a[i])
    ensures Unread(b, user) == 0 && (other != user ==> Unread(b, other) == Unread(a, other))
  {
    if a != [] { MarkAllUnread(a[..|a| - 1], b[..|b| - 1], user, now, other); }
  }

  // ----- The client's loop -----

  /** The table as each successive call finds it. */
  ghost predicate History(tables: nat -> seq<Row>) {
    forall k :: Later(tables, k)
  }

  ghost predicate Later(tables: nat -> seq<Row>, k: nat) { Evolves(tables(0), tables(k)) }

  // All pages from call k on, until a call returns the cursor 0.
  ghost function Listing(tables: nat -> seq<Row>, k: nat, user: Id, cursor: int, size: nat): seq<Page>
    requires size >= 1 && cursor >= 0 && History(tables)
    decreases cursor == 0, cursor
  {
    assert Later(tables, k);
    var p := PageAt(tables(k), user, cursor, size);
    CursorFalls(tables(k), user, cursor, size);
    if p.next == 0 then [p] else [p] + Listing(tables, k + 1, user, p.next, size)
  }

  function Ids(s: seq<Row>): (r: seq<int>)
    ensures |r| == |s| && forall i :: 0 <= i < |s| ==> r[i] == s[i].id
  {
    seq(|s|, i requires 0 <= i < |s| => s[i].id)
  }

  ghost function Listed(pages: seq<Page>): seq<int> {
    if pages == [] then [] else Ids(pages[0].items) + Listed(pages[1..])
  }

  // The user's created_at never decreases from one id to the next.
  ghost predicate TimeFollowsId(rows: seq<Row>, user: Id) {
    forall x, y :: x in rows && y in rows && x.userId == y.userId == user && x.id < y.id ==> x.createdAt <= y.createdAt
  }

  lemma {:induction false} MatchingKeyed(rows: seq<Row>, user: Id, cursor: int)
    requires Keyed(rows)
    ensures Keyed(Matching(rows, user, cursor))
  {
    if rows != [] {
      var before := rows[..|rows| - 1];
      var m := Matching(before, user, cursor);
      MatchingKeyed(before, user, cursor);
      MatchingMembers(before, user, cursor);
      forall i | 0 <= i < |m| ensures m[i].id < rows[|rows| - 1].id {
        assert m[i] in m;
        var j :| 0 <= j < |before| && before[j] == m[i];
      }
      var last := rows[|rows| - 1];
      assert Matching(rows, user, cursor) == if Selected(last, user, cursor) then m + [last] else m;
    }
  }

  lemma {:induction false} OrderedReverses(s: seq<Row>)
    requires forall i, j :: 0 <= i < j < |s| ==> Before(s[j], s[i])
    ensures Ordered(s) == Reversed(s)
  {
    if s != [] {
      var before, last := s[..|s| - 1], s[|s| - 1];
      OrderedReverses(before);
      assert Place(Reversed(before), last) == [last] + Reversed(before);
      assert [last] + Reversed(before) == Reversed(s);
    }
  }

  lemma IdsOfFirst(s: seq<Row>, n: nat)
    ensures Ids(FirstOf(Reversed(s), n)) == FirstOf(Reversed(Ids(s)), n)
  {
  }

  // If time follows id among them, a page is the newest of the matching rows.
  lemma PageIsNewest(rows: seq<Row>, user: Id, cursor: int, size: nat)
    requires size >= 1 && Keyed(rows) && TimeFollowsId(Matching(rows, user, cursor), user)
    ensures Ids(PageAt(rows, user, cursor, size).items) == FirstOf(Reversed(Ids(Matching(rows, user, cursor))), size)
  {
    var m := Matching(rows, user, cursor);
    assert forall j, i :: 0 <= i < j < |m| ==> Before(m[j], m[i]) by {
      MatchingKeyed(rows, user, cursor);
      MatchingMembers(rows, user, cursor);
      forall j, i | 0 <= i < j < |m| ensures Before(m[j], m[i]) {
        assert m[i] in m && m[j] in m;
      }
    }
    OrderedReverses(m);
    IdsOfFirst(m, size);
  }

  // Rows whose ids the first table had are its rows, read_at aside, so their times are as there.
  lemma LaterTimes(a: seq<Row>, b: seq<Row>, user: Id, cursor: int)
    requires Evolves(a, b) && TimeFollowsId(a, user)
    requires forall id :: id in Ids(Matching(b, user, cursor)) ==> id in Ids(a)
    ensures TimeFollowsId(Matching(b, user, cursor), user)
  {
    var m := Matching(b, user, cursor);
    MatchingMembers(b, user, cursor);
    forall x, y | x in m && y in m && x.id < y.id ensures x.createdAt <= y.createdAt {
      var x0 := FirstRow(a, b, user, cursor, x);
      var y0 := FirstRow(a, b, user, cursor, y);
    }
  }

  lemma FirstRow(a: seq<Row>, b: seq<Row>, user: Id, cursor: int, x: Row) returns (r: Row)
    requires Evolves(a, b) && x in Matching(b, user, cursor)
    requires forall id :: id in Ids(Matching(b, user, cursor)) ==> id in Ids(a)
    ensures r in a && r.id == x.id && r.userId == x.userId && r.createdAt == x.createdAt
  {
    var m := Matching(b, user, cursor);
    MatchingMembers(b, user, cursor);
    var k :| 0 <= k < |m| && m[k] == x;
    assert Ids(m)[k] == x.id;
    assert x.id in Ids(a);
    var i :| 0 <= i < |Ids(a)| && Ids(a)[i] == x.id;
    var j :| 0 <= j < |b| && b[j] == x;
    assert b[i].id == a[i].id == b[j].id;
    r := a[i];
  }

  // A later table shows, below a cursor taken from the first one, what the first one showed.
  lemma {:induction false} MatchingBelow(a: seq<Row>, b: seq<Row>, user: Id, cursor: int)
    requires Evolves(a, b)
    requires cursor != 0 ==> a != [] && cursor <= a[|a| - 1].id
    requires cursor == 0 ==> |a| == |b|
    ensures Ids(Matching(b, user, cursor)) == Ids(Matching(a, user, cursor))
    decreases |b|
  {
    if |a| < |b| {
      MatchingBelow(a, b[..|b| - 1], user, cursor);
    } else if a != [] {
      MatchingSame(a, b, user, cursor);
    }
  }

  lemma {:induction false} MatchingSame(a: seq<Row>, b: seq<Row>, user: Id, cursor: int)
    requires |a| == |b| && forall i :: 0 <= i < |a| ==> b[i] == a[i].(readAt := b[i].readAt)
    ensures Ids(Matching(b, user, cursor)) == Ids(Matching(a, user, cursor))
  {
    if a != [] { MatchingSame(a[..|a| - 1], b[..|b| - 1], user, cursor); }
  }

  // Below the j-th of the user's ids lie the first j.
  lemma {:induction false} MatchingCut(rows: seq<Row>, user: Id, j: nat)
    requires Keyed(rows) && j < |Matching(rows, user, 0)|
    ensures Matching(rows, user, Matching(rows, user, 0)[j].id) == Matching(rows, user, 0)[..j]
  {
    var all := Matching(rows, user, 0);
    var before, last := rows[..|rows| - 1], rows[|rows| - 1];
    var c := all[j].id;
    assert all[j] in all;
    MatchingMembers(rows, user, 0);
    assert 0 < c <= last.id;
    if j < |Matching(before, user, 0)| {
      MatchingCut(before, user, j);
      assert !Selected(last, user, c);
    } else {
      assert all[j] == last;
      MatchingAll(before, user, c);
    }
  }

  lemma {:induction false} MatchingAll(rows: seq<Row>, user: Id, cursor: int)
    requires forall r :: r in rows ==> r.id < cursor
    ensures Matching(rows, user, cursor) == Matching(rows, user, 0)
  {
    if rows != [] { MatchingAll(rows[..|rows| - 1], user, cursor); }
  }

  // Full pages, perhaps a short one, and the empty one that ends the loop.
  function Calls(n: nat, size: nat): nat
    requires size >= 1
  {
    if n == 0 then 1 else 1 + Calls(if n > size then n - size else 0, size)
  }

  lemma {:induction false} CallsIsCeiling(n: nat, size: nat)
    requires size >= 1
    ensures Calls(n, size) == (n + size - 1) / size + 1
  {
    if n == 0 {
      DivModUnique(size - 1, size, 0, size - 1);
    } else if n <= size {
      CallsIsCeiling(0, size);
      DivBack(n + size - 1, size);
      DivModUnique(n - 1, size, 0, n - 1);
    } else {
      CallsIsCeiling(n - size, size);
      DivBack(n + size - 1, size);
    }
  }

  lemma {:induction false} ListingFrom(tables: nat -> seq<Row>, k: nat, user: Id, cursor: int, size: nat, j: nat)
    requires size >= 1 && cursor >= 0 && History(tables) && TimeFollowsId(tables(0), user)
    requires j <= |Matching(tables(0), user, 0)|
    requires Ids(Matching(tables(k), user, cursor)) == Ids(Matching(tables(0), user, 0))[..j]
    ensures Lists(Listing(tables, k, user, cursor, size), Ids(Matching(tables(0), user, 0)), j, size)
    decreases j
  {
    var ids := Ids(Matching(tables(0), user, 0));
    var p := PageAt(tables(k), user, cursor, size);
    assert Later(tables, k);
    IdsOfMatching(tables(0), user);
    LaterTimes(tables(0), tables(k), user, cursor);
    CursorFalls(tables(k), user, cursor, size);
    PageIsNewest(tables(k), user, cursor, size);
    PageNext(p, ids, j, size);
    if j > 0 {
      var i := if j > size then j - size else 0;
      NextMatches(tables, k + 1, user, i);
      ListingFrom(tables, k + 1, user, p.next, size, i);
      ListsMore(p, Listing(tables, k + 1, user, p.next, size), ids, j, size);
    } else {
      ListsNone(p, ids, size);
    }
  }

  lemma IdsOfMatching(rows: seq<Row>, user: Id)
    ensures forall id :: id in Ids(Matching(rows, user, 0)) ==> id in Ids(rows)
  {
    var m := Matching(rows, user, 0);
    MatchingMembers(rows, user, 0);
    forall id | id in Ids(m) ensures id in Ids(rows) {
      var k :| 0 <= k < |Ids(m)| && Ids(m)[k] == id;
      assert m[k] in m;
      var i :| 0 <= i < |rows| && rows[i] == m[k];
      assert Ids(rows)[i] == id;
    }
  }

  // The pages hold the first j ids, newest first, over the number of calls that takes.
  ghost predicate Lists(pages: seq<Page>, ids: seq<int>, j: nat, size: nat)
    requires size >= 1 && j <= |ids|
  {
    Listed(pages) == Reversed(ids[..j]) && |pages| == Calls(j, size)
  }

  lemma ListsMore(p: Page, rest: seq<Page>, ids: seq<int>, j: nat, size: nat)
    requires size >= 1 && 0 < j <= |ids|
    requires var i := if j > size then j - size else 0;
             Lists(rest, ids, i, size) && Ids(p.items) + Reversed(ids[..i]) == Reversed(ids[..j])
    ensures Lists([p] + rest, ids, j, size)
  {
    ListedCons(p, rest);
  }

  lemma ListsNone(p: Page, ids: seq<int>, size: nat)
    requires size >= 1 && p.items == []
    ensures Lists([p], ids, 0, size)
  {
    ListedCons(p, []);
    assert [p] == [p] + [];
  }

  lemma PageNext(p: Page, ids: seq<int>, j: nat, size: nat)
    requires j <= |ids| && size >= 1 && Ids(p.items) == FirstOf(Reversed(ids[..j]), size)
    requires p.items != [] ==> p.next == p.items[|p.items| - 1].id
    ensures var i := if j > size then j - size else 0;
            && (p.items == [] <==> j == 0)
            && (j > 0 ==> p.next == ids[i])
            && Ids(p.items) + Reversed(ids[..i]) == Reversed(ids[..j])
  {
    var head := FirstOf(Reversed(ids[..j]), size);
    assert |p.items| == |head|;
    if j > 0 {
      var i := if j > size then j - size else 0;
      assert head[|head| - 1] == ids[i];
      assert head + Reversed(ids[..i]) == Reversed(ids[..j]);
    }
  }

  lemma ListedCons(p: Page, rest: seq<Page>)
    ensures Listed([p] + rest) == Ids(p.items) + Listed(rest)
  {
    assert ([p] + rest)[1..] == rest;
  }

  lemma NextMatches(tables: nat -> seq<Row>, k: nat, user: Id, i: nat)
    requires History(tables) && i < |Matching(tables(0), user, 0)|
    ensures var all := Matching(tables(0), user, 0);
            Ids(Matching(tables(k), user, all[i].id)) == Ids(all)[..i]
  {
    var all := Matching(tables(0), user, 0);
    assert all[i] in all;
    MatchingMembers(tables(0), user, 0);
    assert Later(tables, k);
    MatchingCut(tables(0), user, i);
    MatchingBelow(tables(0), tables(k), user, all[i].id);
  }

  /** Following the cursor from 0 until it comes back 0 takes ceil(n / size) + 1 calls and lists each notification
      of the first call's table once, newest first, whatever is inserted or marked read in between. */
  lemma PagingListsAll(tables: nat -> seq<Row>, user: Id, size: nat)
    requires size >= 1 && History(tables) && TimeFollowsId(tables(0), user)
    ensures var pages, mine := Listing(tables, 0, user, 0, size), Matching(tables(0), user, 0);
            Listed(pages) == Reversed(Ids(mine)) && |pages| == Calls(|mine|, size)
  {
    var ids := Ids(Matching(tables(0), user, 0));
    assert ids[..|ids|] == ids;
    ListingFrom(tables, 0, user, 0, size, |ids|);
  }

  // ----- Why created_at has to follow id -----

  lemma {:induction false} PlaceSorted(s: seq<Row>, r: Row)
    requires forall i, j :: 0 <= i < j < |s| ==> Before(s[i], s[j])
    requires forall x :: x in s ==> x.id != r.id
    ensures forall i, j :: 0 <= i < j < |Place(s, r)| ==> Before(Place(s, r)[i], Place(s, r)[j])
  {
    if s != [] && !Before(r, s[0]) {
      PlaceSorted(s[1..], r);
      PlaceMembers(s[1..], r);
      assert forall x :: x in Place(s[1..], r) ==> Before(s[0], x);
    }
  }

  lemma {:induction false} OrderedSorted(s: seq<Row>)
    requires Keyed(s)
    ensures forall i, j :: 0 <= i < j < |Ordered(s)| ==> Before(Ordered(s)[i], Ordered(s)[j])
  {
    if s != [] {
      OrderedSorted(s[..|s| - 1]);
      OrderedMembers(s[..|s| - 1]);
      PlaceSorted(Ordered(s[..|s| - 1]), s[|s| - 1]);
    }
  }

  lemma {:induction false} OvertakenIsSkipped(rows: seq<Row>, k: nat, user: Id, cursor: int, x: Row, y: Row)
    requires Keyed(rows) && cursor >= 0 && x in rows && y in rows
    requires x.userId == y.userId == user && x.id < y.id && x.createdAt > y.createdAt
    ensures y.id !in Listed(Listing(Still(rows), k, user, cursor, 1))
    decreases cursor == 0, cursor
  {
    var p := PageAt(rows, user, cursor, 1);
    CursorFalls(rows, user, cursor, 1);
    OvertakenNotFirst(rows, user, cursor, x, y);
    if p.items != [] {
      OvertakenIsSkipped(rows, k + 1, user, p.next, x, y);
      ListedCons(p, Listing(Still(rows), k + 1, user, p.next, 1));
    } else {
      ListedCons(p, []);
      assert [p] == [p] + [];
    }
  }

  lemma OvertakenNotFirst(rows: seq<Row>, user: Id, cursor: int, x: Row, y: Row)
    requires Keyed(rows) && x in rows && y in rows
    requires x.userId == y.userId == user && x.id < y.id && x.createdAt > y.createdAt
    ensures y.id !in Ids(PageAt(rows, user, cursor, 1).items)
  {
    var m := Matching(rows, user, cursor);
    MatchingMembers(rows, user, cursor);
    if m != [] {
      MatchingKeyed(rows, user, cursor);
      NewestFirst(m);
      var z := Ordered(m)[0];
      if z.id == y.id {
        SameIdSameRow(rows, y, z);
        assert false;
      }
    }
  }

  lemma NewestFirst(m: seq<Row>)
    requires Keyed(m) && m != []
    ensures Ordered(m) != [] && Ordered(m)[0] in m
    ensures forall x :: x in m ==> x == Ordered(m)[0] || Before(Ordered(m)[0], x)
  {
    OrderedMembers(m);
    OrderedSorted(m);
    assert m[0] in Ordered(m);
    forall x | x in m && x != Ordered(m)[0] ensures Before(Ordered(m)[0], x) {
      var i :| 0 <= i < |Ordered(m)| && Ordered(m)[i] == x;
    }
  }

  lemma SameIdSameRow(rows: seq<Row>, y: Row, z: Row)
    requires Keyed(rows) && y in rows && z in rows && y.id == z.id
    ensures y == z
  {
    var i :| 0 <= i < |rows| && rows[i] == y;
    var j :| 0 <= j < |rows| && rows[j] == z;
  }

  /** A table that stays as it is. */
  ghost function Still(rows: seq<Row>): nat -> seq<Row> { (n: nat) => rows }

  ghost predicate ListsAll(rows: seq<Row>, user: Id, size: nat)
    requires size >= 1 && Keyed(rows)
  {
    var listed := Listed(Listing(Still(rows), 0, user, 0, size));
    forall r :: r in rows && r.userId == user ==> r.id in listed
  }

  lemma StillListed(rows: seq<Row>, user: Id, size: nat)
    requires Keyed(rows) && size >= 1 && TimeFollowsId(rows, user)
    ensures ListsAll(rows, user, size)
  {
    PagingListsAll(Still(rows), user, size);
    MatchingMembers(rows, user, 0);
    ReversedMembers(Matching(rows, user, 0));
  }

  lemma ReversedMembers(s: seq<Row>)
    ensures forall r :: r in s ==> r.id in Reversed(Ids(s))
  {
    forall r | r in s ensures r.id in Reversed(Ids(s)) {
      var i :| 0 <= i < |s| && s[i] == r;
      assert Reversed(Ids(s))[|s| - 1 - i] == r.id;
    }
  }

  /** On a table that stays as it is, paging lists every notification for every page size if and only if the
      user's created_at never decreases with the id; the query sorts by the one and cuts by the other. */
  lemma PagingCompleteIff(rows: seq<Row>, user: Id)
    requires Keyed(rows)
    ensures (forall size: nat :: size >= 1 ==> ListsAll(rows, user, size)) <==> TimeFollowsId(rows, user)
  {
    if TimeFollowsId(rows, user) {
      forall size: nat | size >= 1 ensures ListsAll(rows, user, size) {
        StillListed(rows, user, size);
      }
    } else {
      var x, y :| x in rows && y in rows && x.userId == y.userId == user && x.id < y.id && x.createdAt > y.createdAt;
      OvertakenIsSkipped(rows, 0, user, 0, x, y);
      assert !ListsAll(rows, user, 1);
    }
  }
}
