/** The feed service: writing, reading and deleting posts, and the timeline that mixes a user's inbox with the
    hot list. */
module FeedService {
  import opened Collections
  import opened SortedSet
  import opened Interleave
  import opened Timeline
  import Fanout
  import opened PostCache

  /** The ids for which, during a request, the GET, the SQL read or the SET fails. */
  datatype Outage = Outage(gets: set<Id>, rows: set<Id>, sets: set<Id>)

  const NO_OUTAGE := Outage({}, {}, {})

  datatype TimelineResp = TimelineResp(feeds: seq<Post>, nextCursor: int, hasMore: bool)

  // The posts with the given ids, skipping those that cannot be read.
  ghost function Collect(ids: seq<Id>, readable: set<Id>, created: map<Id, Post>): seq<Post> {
    if ids == [] then []
    else
      var last := ids[|ids| - 1];
      Collect(ids[..|ids| - 1], readable, created)
      + (if last in readable && last in created then [created[last]] else [])
  }

  class Service {
    var posts: map<Id, Post>
    var cache: map<Id, Cached>
    var inboxes: map<Id, seq<Entry>>
    var hot: seq<Entry>
    ghost var created: map<Id, Post>
    ghost var dispatched: seq<Fanout.Event>

    constructor ()
      ensures Valid() && posts == map[] && cache == map[] && created == map[] && dispatched == []
    {
      posts, cache, inboxes, hot := map[], map[], map[], [];
      created, dispatched := map[], [];
    }

    ghost function View(): State
      reads this
    {
      State(posts, cache, created, map[])
    }

    ghost predicate Valid()
      reads this
    {
      && Faithful(View())
      && (forall ev :: ev in dispatched ==> ev.postId in created && ev.createdAt == created[ev.postId].createdAt)
    }

    // The ids whose cached copy can be had and decodes, or whose row can be read.
    ghost function Readable(o: Outage): set<Id>
      reads this
    {
      (set id | id in cache && cache[id].Json? && id !in o.gets) + (posts.Keys - o.rows)
    }

    /** `id` is the key the database generates; the event is what the fanout workers receive. */
    method PostFeed(id: Id, authorId: Id, blocks: string, now: int, dbUp: bool, redisUp: bool) returns (ok: bool)
      requires Valid() && id !in created
      modifies this`posts, this`cache, this`created, this`dispatched
      ensures Valid() && ok == dbUp
      ensures !ok ==> View() == old(View()) && dispatched == old(dispatched)
      ensures ok ==>
        var p := Post(id, authorId, blocks, now, now);
        && created == old(created)[id := p] && posts == old(posts)[id := p]
        && cache == (if redisUp then old(cache)[id := Json(p)] else old(cache))
        && Answer(View(), id) == Some(p)
        && dispatched == old(dispatched) + [Fanout.Event(id, authorId, now, 0)]
    {
      if !dbUp { return false; }
      var p := Post(id, authorId, blocks, now, now);
      CreateFaithful(View(), p, redisUp);
      posts, created := posts[id := p], created[id := p];
      if redisUp { cache := cache[id := Json(p)]; }
      dispatched := dispatched + [Fanout.Event(id, authorId, now, 0)];
      return true;
    }

    /** Every event ever sent for a post carries the time of its creation, the same one: what the inboxes rely on. */
    lemma EventsCarryOneTime()
      requires Valid()
      ensures forall ev :: ev in dispatched ==> ev.postId in created && ev.createdAt == created[ev.postId].createdAt
      ensures forall d, e :: d in dispatched && e in dispatched && d.postId == e.postId ==> d.createdAt == e.createdAt
    {
    }

    method GetPostContent(id: Id, o: Outage) returns (r: Option<Post>)
      requires Valid()
      modifies this`cache
      ensures Valid()
      ensures r == if id in old(Readable(o)) then Some(created[id]) else None
      ensures r == if id !in o.gets && id in old(cache) && old(cache)[id].Json? then Some(old(cache)[id].post)
                   else if id !in o.rows && id in posts then Some(posts[id]) else None
      ensures id !in o.gets && id !in o.rows ==> r == old(Answer(View(), id))
      ensures cache ==
        if r.Some? && id !in o.sets && (id in o.gets || id !in old(cache) || old(cache)[id].Garbled?)
        then old(cache)[id := Json(r.value)] else old(cache)
      ensures Readable(o) == old(Readable(o))
    {
      if id !in o.gets && id in cache && cache[id].Json? {
        return Some(cache[id].post);
      }
      if id in o.rows || id !in posts { return None; }
      r := Some(posts[id]);
      if id !in o.sets { cache := cache[id := Json(posts[id])]; }
    }

    /** One DELETE for the id and the author: the author's own post goes, and only from the table. */
    method DeleteFeed(id: Id, authorId: Id, dbUp: bool) returns (ok: bool)
      requires Valid()
      modifies this`posts
      ensures Valid()
      ensures ok <==> dbUp && id in old(posts) && old(posts)[id].authorId == authorId
      ensures posts == if ok then Remove(old(posts), id) else old(posts)
      ensures forall x :: x in cache && cache[x].Json? ==> Answer(View(), x) == old(Answer(View(), x))
    {
      if !dbUp { return false; }
      var gone := set x | x in posts && x == id && posts[x].authorId == authorId;
      posts := posts - gone;
      ok := |gone| != 0;
      assert ok <==> id in gone;
    }

    function Inbox(user: Id): seq<Entry>
      reads this
    {
      if user in inboxes then inboxes[user] else []
    }

    method DedupLoop(slots: seq<Slot>) returns (ids: seq<Id>)
      ensures ids == Dedup(Posts(slots))
    {
      ids := [];
      var seen: set<Id> := {};
      assert Posts(slots[..0]) == [];
      for i := 0 to |slots|
        invariant ids == Dedup(Posts(slots[..i]))
        invariant seen == set id | id in ids
      {
        assert Posts(slots[..i + 1])[..i] == Posts(slots[..i]);
        assert slots[..i + 1][i] == slots[i];
        if slots[i].entry.id !in seen {
          seen := seen + {slots[i].entry.id};
          ids := ids + [slots[i].entry.id];
        }
      }
      assert slots[..|slots|] == slots;
    }

    // The two lists as a page request reads them; a failed read is logged and counts as empty.
    ghost function InboxSeen(user: Id, up: bool): seq<Entry>
      reads this
    {
      if up then Reversed(Inbox(user)) else []
    }

    ghost function HotSeen(up: bool): seq<Entry>
      reads this
    {
      if up then Reversed(hot) else []
    }

    // Both range reads of a page.
    method FetchWindows(user: Id, page: nat, size: nat, inboxUp: bool, hotUp: bool)
      returns (inboxItems: seq<Entry>, hotItems: seq<Entry>)
      requires page >= 1 && size >= 1
      ensures inboxItems == InboxWindow(InboxSeen(user, inboxUp), size, page)
      ensures hotItems == HotWindow(HotSeen(hotUp), size, page)
    {
      var hotPerPage := size / (INBOX_RATIO + 1);
      if hotPerPage < 1 { hotPerPage := 1; }
      var inboxPerPage := size - hotPerPage;
      var inboxStart := FirstPosition(page, inboxPerPage);
      var hotStart := FirstPosition(page, hotPerPage);
      inboxItems, hotItems := [], [];
      if inboxUp { inboxItems := ZRevRange(Inbox(user), inboxStart, inboxStart + inboxPerPage + hotPerPage); }
      if hotUp { hotItems := ZRevRange(hot, hotStart, hotStart + hotPerPage); }
    }

    method FirstPosition(page: nat, per: nat) returns (start: nat)
      requires page >= 1
      ensures start == Start(page, per)
    {
      MultipleIsProduct(page - 1, per);
      start := (page - 1) * per;
    }

    method SelectSlots(user: Id, page: nat, size: nat, inboxUp: bool, hotUp: bool) returns (merged: seq<Slot>)
      requires page >= 1 && size >= 1
      ensures merged == Page(InboxSeen(user, inboxUp), HotSeen(hotUp), size, page)
    {
      var inboxItems, hotItems := FetchWindows(user, page, size, inboxUp, hotUp);
      merged := InterleaveSlots(inboxItems, hotItems, INBOX_RATIO);
      if |merged| > size { merged := merged[..size]; }
    }

    method FetchAll(ids: seq<Id>, o: Outage) returns (feeds: seq<Post>)
      requires Valid()
      modifies this`cache
      ensures Valid() && Readable(o) == old(Readable(o))
      ensures feeds == Collect(ids, Readable(o), created)
    {
      feeds := [];
      for i := 0 to |ids|
        invariant Valid() && Readable(o) == old(Readable(o))
        invariant feeds == Collect(ids[..i], old(Readable(o)), created)
      {
        var content := GetPostContent(ids[i], o);
        assert ids[..i + 1][..i] == ids[..i];
        if content.Some? { feeds := feeds + [content.value]; }
      }
      assert ids[..|ids|] == ids;
    }

    /** What the client's runs of the Timeline module are made of: the response to the cursor over the two lists, newest
        first. A post whose content cannot be read is left out, and each one returned is as it was created. */
    method GetTimeline(user: Id, cursor: int, requested: int, inboxUp: bool, hotUp: bool, o: Outage)
      returns (resp: TimelineResp)
      requires Valid()
      modifies this`cache
      ensures Valid() && Readable(o) == old(Readable(o))
      ensures var size := if 1 <= requested <= 50 then requested else 20;
              var a := ResponseTo(InboxSeen(user, inboxUp), HotSeen(hotUp), size, cursor);
              && resp.feeds == Collect(a.ids, Readable(o), created)
              && resp.nextCursor == a.next && resp.hasMore == a.more
    {
      var page, size := PageNumber(cursor), PageSize(requested);
      ghost var inbox, hots := InboxSeen(user, inboxUp), HotSeen(hotUp);
      var merged := SelectSlots(user, page, size, inboxUp, hotUp);
      var ids := DedupLoop(merged);
      ghost var a := ResponseTo(inbox, hots, size, cursor);
      assert ids == a.ids;
      var more := |merged| >= size;
      var feeds := FetchAll(ids, o);
      assert inbox == InboxSeen(user, inboxUp) && hots == HotSeen(hotUp);
      resp := TimelineResp(feeds, page + 1, more);
    }

    /** The inbox posts of any page stand in falling score, and on the first page there are none that score less than
        one it leaves out; the same goes for the hot posts. A list that cannot be read counts as empty. */
    lemma NewestComeFirst(user: Id, size: nat, page: nat)
      requires Ranked(Inbox(user)) && Ranked(hot) && size >= 1 && page >= 1
      ensures var shown := Page(InboxSeen(user, true), HotSeen(true), size, page);
              && TopDownOf(Inbox(user), Part(shown, Interleave.Inbox), page == 1)
              && (size >= 5 ==> TopDownOf(hot, Part(shown, Hot), page == 1))
      ensures InboxSeen(user, false) == HotSeen(false) == []
    {
      var r, h := InboxSeen(user, true), HotSeen(true);
      PageParts(r, h, size, page);
      WindowTopDown(Inbox(user), Start(page, InboxPerPage(size)), InboxPerPage(size) + HotPerPage(size),
                    Part(Page(r, h, size, page), Interleave.Inbox));
      WindowTopDown(hot, Start(page, HotPerPage(size)), HotPerPage(size), Part(Page(r, h, size, page), Hot));
    }

    // The beginning of a window of the list read from the top.
    lemma WindowTopDown(z: seq<Entry>, start: nat, len: nat, shown: seq<Entry>)
      requires Ranked(z) && shown <= Window(Reversed(z), start, len)
      ensures TopDownOf(z, shown, start == 0)
    {
      if shown != [] {
        assert shown[|shown| - 1] == Reversed(z)[start + |shown| - 1];
        TopDown(z, start, shown);
      }
    }

    // Entries of z in falling score and, if it is read from the top, none scoring less than one left out.
    ghost predicate TopDownOf(z: seq<Entry>, shown: seq<Entry>, top: bool) {
      && (forall i, j :: 0 <= i < j < |shown| ==> shown[i].score >= shown[j].score)
      && (forall x :: x in shown ==> x in z)
      && (top ==> forall x, e :: x in shown && e in z && e !in shown ==> e.score <= x.score)
    }

    // The positions of the ids that can be read, among the first n.
    ghost function ReadableBefore(ids: seq<Id>, n: nat, o: Outage): set<nat>
      reads this
    {
      set j: nat | j < n && j < |ids| && ids[j] in Readable(o) && ids[j] in created
    }

    lemma {:induction false} CollectCounts(ids: seq<Id>, n: nat, o: Outage)
      requires n <= |ids|
      ensures |Collect(ids[..n], Readable(o), created)| == |ReadableBefore(ids, n, o)|
    {
      if n == 0 {
        assert ReadableBefore(ids, 0, o) == {};
      } else {
        CollectCounts(ids, n - 1, o);
        assert ids[..n][..n - 1] == ids[..n - 1];
        var m := n - 1;
        assert ReadableBefore(ids, n, o) ==
          ReadableBefore(ids, m, o) + if ids[m] in Readable(o) && ids[m] in created then {m} else {};
      }
    }

    lemma {:induction false} CollectGrows(ids: seq<Id>, n: nat, o: Outage)
      requires n <= |ids|
      ensures Collect(ids[..n], Readable(o), created) <= Collect(ids, Readable(o), created)
      decreases |ids| - n
    {
      if n == |ids| {
        assert ids[..n] == ids;
      } else {
        CollectGrows(ids, n + 1, o);
        assert ids[..n + 1][..n] == ids[..n];
      }
    }

    /** A post that can be read is returned as it was created, after those of the ids before it that can be; nothing
        else is. */
    lemma ContentLandsAt(ids: seq<Id>, o: Outage, i: nat)
      requires i < |ids| && ids[i] in Readable(o) && ids[i] in created
      ensures var feeds, n := Collect(ids, Readable(o), created), |ReadableBefore(ids, i, o)|;
              |feeds| == |ReadableBefore(ids, |ids|, o)| && n < |feeds| && feeds[n] == created[ids[i]]
    {
      CollectCounts(ids, i, o);
      CollectCounts(ids, |ids|, o);
      assert ids[..|ids|] == ids;
      CollectGrows(ids, i + 1, o);
      CollectSnoc(ids, i, o);
    }

    lemma CollectSnoc(ids: seq<Id>, i: nat, o: Outage)
      requires i < |ids| && ids[i] in Readable(o) && ids[i] in created
      ensures Collect(ids[..i + 1], Readable(o), created) == Collect(ids[..i], Readable(o), created) + [created[ids[i]]]
    {
      assert ids[..i + 1][..i] == ids[..i];
    }

    /** While nothing is deleted and no read fails, a page shows every id it selected. */
    lemma {:induction false} NothingSkipped(ids: seq<Id>)
      requires Valid() && forall id :: id in ids ==> id in posts
      ensures |Collect(ids, Readable(NO_OUTAGE), created)| == |ids|
      ensures forall k :: 0 <= k < |ids| ==> Collect(ids, Readable(NO_OUTAGE), created)[k] == posts[ids[k]]
    {
      if ids != [] { NothingSkipped(ids[..|ids| - 1]); }
    }
  }
}
