/** Paging of the timeline: which slots of the inbox and of the hot list each page shows, and what a client that
    follows next_cursor while has_more is true gets to see. Lists are newest first, as ZREVRANGE returns them. */
module Timeline {
  import opened Collections
  import opened SortedSet
  import opened Interleave

  const INBOX_RATIO: nat := 4

  function PageSize(requested: int): nat { if requested <= 0 || requested > 50 then 20 else requested }

  function PageNumber(cursor: int): (page: nat)
    ensures page >= 1
  {
    if cursor <= 0 then 1 else cursor
  }

  function HotPerPage(size: nat): nat { if size / (INBOX_RATIO + 1) < 1 then 1 else size / (INBOX_RATIO + 1) }

  function InboxPerPage(size: nat): nat
    requires size >= 1
  {
    size - HotPerPage(size)
  }

  // Position of the first slot of a page, at `per` slots a page: (page - 1) * per.
  function Start(page: nat, per: nat): nat
    requires page >= 1
  {
    Multiple(page - 1, per)
  }

  // The page that position i falls on: i / per + 1.
  function PageOf(i: nat, per: nat): (page: nat)
    requires per > 0
    ensures page >= 1 && Start(page, per) <= i < Start(page + 1, per)
  {
    if i < per then 1 else PageOf(i - per, per) + 1
  }

  lemma {:induction false} PageOfIsQuotient(i: nat, per: nat)
    requires per > 0
    ensures PageOf(i, per) == i / per + 1
  {
    if i < per {
      DivModUnique(i, per, 0, i);
    } else {
      PageOfIsQuotient(i - per, per);
      DivBack(i, per);
    }
  }

  lemma {:induction false} StartMonotone(p: nat, q: nat, per: nat)
    requires 1 <= p <= q
    ensures Start(p, per) <= Start(q, per)
  {
    if p < q { StartMonotone(p, q - 1, per); }
  }

  function InboxWindow(inbox: seq<Entry>, size: nat, page: nat): seq<Entry>
    requires size >= 1 && page >= 1
  {
    Window(inbox, Start(page, InboxPerPage(size)), InboxPerPage(size) + HotPerPage(size))
  }

  function HotWindow(hot: seq<Entry>, size: nat, page: nat): seq<Entry>
    requires size >= 1 && page >= 1
  {
    Window(hot, Start(page, HotPerPage(size)), HotPerPage(size))
  }

  // The slots of a page, before duplicates are dropped.
  function Page(inbox: seq<Entry>, hot: seq<Entry>, size: nat, page: nat): seq<Slot>
    requires size >= 1 && page >= 1
  {
    FirstOf(Merge(InboxWindow(inbox, size, page), HotWindow(hot, size, page), INBOX_RATIO), size)
  }

  function HasMore(inbox: seq<Entry>, hot: seq<Entry>, size: nat, page: nat): bool
    requires size >= 1 && page >= 1
  {
    |Page(inbox, hot, size, page)| >= size
  }

  // What a request with this cursor is answered; `shown` are the slots that `ids` come from.
  datatype Response = Response(shown: seq<Slot>, ids: seq<Id>, next: int, more: bool)

  function ResponseTo(inbox: seq<Entry>, hot: seq<Entry>, size: nat, cursor: int): Response
    requires size >= 1
  {
    var page := PageNumber(cursor);
    var shown := Page(inbox, hot, size, page);
    Response(shown, Dedup(Posts(shown)), page + 1, |shown| >= size)
  }

  // ----- What truncation keeps -----

  lemma {:induction false} HotComesEarly(inbox: seq<Entry>, hot: seq<Entry>, n: nat)
    requires 5 * |hot| <= n <= |inbox| + |hot|
    ensures Part(Merge(inbox, hot, INBOX_RATIO)[..n], Hot) == hot
    decreases |hot|
  {
    var merged := Merge(inbox, hot, INBOX_RATIO);
    if hot == [] {
      assert merged[..n] == Tagged(inbox[..n], Inbox);
      PartTagged(inbox[..n], Inbox, Hot);
    } else {
      var block := Tagged(inbox[..INBOX_RATIO], Inbox) + [Slot(hot[0], Hot)];
      var rest := Merge(inbox[INBOX_RATIO..], hot[1..], INBOX_RATIO);
      assert merged == block + rest;
      assert merged[..n] == block + rest[..n - 5];
      PartConcat(block, rest[..n - 5], Hot);
      PartConcat(Tagged(inbox[..INBOX_RATIO], Inbox), [Slot(hot[0], Hot)], Hot);
      PartTagged(inbox[..INBOX_RATIO], Inbox, Hot);
      HotComesEarly(inbox[INBOX_RATIO..], hot[1..], n - 5);
    }
  }

  // Cutting the merge cuts each source to a prefix.
  lemma PartOfPrefix(inbox: seq<Entry>, hot: seq<Entry>, n: nat, source: Source)
    requires n <= |inbox| + |hot|
    ensures Part(Merge(inbox, hot, INBOX_RATIO)[..n], source) <= if source == Inbox then inbox else hot
  {
    var merged := Merge(inbox, hot, INBOX_RATIO);
    MergeParts(inbox, hot, INBOX_RATIO, source);
    assert merged == merged[..n] + merged[n..];
    PartConcat(merged[..n], merged[n..], source);
  }

  lemma PageParts(inbox: seq<Entry>, hot: seq<Entry>, size: nat, page: nat)
    requires size >= 1 && page >= 1
    ensures var shown := Page(inbox, hot, size, page);
            var w, h := InboxWindow(inbox, size, page), HotWindow(hot, size, page);
            && Part(shown, Inbox) <= w && Part(shown, Hot) <= h
            && |Part(shown, Inbox)| + |Part(shown, Hot)| == |shown| == Min(size, |w| + |h|)
  {
    var w, h := InboxWindow(inbox, size, page), HotWindow(hot, size, page);
    var merged := Merge(w, h, INBOX_RATIO);
    assert merged == merged[..|merged|];
    PartOfPrefix(w, h, Min(size, |merged|), Inbox);
    PartOfPrefix(w, h, Min(size, |merged|), Hot);
    PartSizes(Page(inbox, hot, size, page));
  }

  /** A page drops a hot post of its window exactly when fewer than five slots are asked for and the inbox fills
      them all; then it drops every hot post it fetched. */
  lemma HotPart(inbox: seq<Entry>, hot: seq<Entry>, size: nat, page: nat)
    requires size >= 1 && page >= 1
    ensures Part(Page(inbox, hot, size, page), Hot) ==
            if size >= 5 || |InboxWindow(inbox, size, page)| < size then HotWindow(hot, size, page) else []
  {
    var w, h := InboxWindow(inbox, size, page), HotWindow(hot, size, page);
    var merged := Merge(w, h, INBOX_RATIO);
    if |w| + |h| <= size {
      MergeParts(w, h, INBOX_RATIO, Hot);
    } else if size >= 5 {
      HotComesEarly(w, h, size);
    } else {
      assert |w| == size;
      assert merged[..size] == Tagged(w, Inbox);
      PartTagged(w, Inbox, Hot);
    }
  }

  /** For five slots or more: a page shows its whole hot window, and the inbox from the page's first slot on for
      as many posts as remain; the fetched windows overlap, what is shown of them overlaps only by the hot posts
      that are missing. */
  lemma InboxPart(inbox: seq<Entry>, hot: seq<Entry>, size: nat, page: nat)
    requires size >= 5 && page >= 1
    ensures Part(Page(inbox, hot, size, page), Inbox) ==
            Window(inbox, Start(page, InboxPerPage(size)), size - |HotWindow(hot, size, page)|)
  {
    PageParts(inbox, hot, size, page);
    HotPart(inbox, hot, size, page);
  }

  lemma InboxPartWhenHotFull(inbox: seq<Entry>, hot: seq<Entry>, size: nat, page: nat)
    requires size >= 5 && page >= 1 && |hot| >= Start(page + 1, HotPerPage(size))
    ensures Part(Page(inbox, hot, size, page), Inbox) ==
            Window(inbox, Start(page, InboxPerPage(size)), InboxPerPage(size))
  {
    InboxPart(inbox, hot, size, page);
    assert |HotWindow(hot, size, page)| == HotPerPage(size);
  }

  // ----- Tiling over several pages -----

  // What pages 1 to `pages` show, one after the other.
  ghost function Join(tiles: nat -> seq<Entry>, pages: nat): seq<Entry> {
    if pages == 0 then [] else Join(tiles, pages - 1) + tiles(pages)
  }

  ghost function Tiles(inbox: seq<Entry>, hot: seq<Entry>, size: nat, source: Source): nat -> seq<Entry>
    requires size >= 1
  {
    (page: nat) => if page == 0 then [] else Part(Page(inbox, hot, size, page), source)
  }

  lemma WindowJoin<T>(s: seq<T>, start: nat, len: nat)
    ensures Window(s, 0, start) + Window(s, start, len) == Window(s, 0, start + len)
  {
  }

  // Windows side by side make up a prefix of the list.
  lemma {:induction false} JoinedWindows(list: seq<Entry>, per: nat, tiles: nat -> seq<Entry>, pages: nat)
    requires forall p :: 1 <= p <= pages ==> tiles(p) == Window(list, Start(p, per), per)
    ensures Join(tiles, pages) == Window(list, 0, Start(pages + 1, per))
  {
    if pages > 0 {
      JoinedWindows(list, per, tiles, pages - 1);
      WindowJoin(list, Start(pages, per), per);
    }
  }

  /** No hot post is skipped or repeated: the first m pages show the first m*HotPerPage hot posts, in order. */
  lemma HotTiles(inbox: seq<Entry>, hot: seq<Entry>, size: nat, pages: nat)
    requires size >= 5
    ensures Join(Tiles(inbox, hot, size, Hot), pages) == Window(hot, 0, Start(pages + 1, HotPerPage(size)))
  {
    var tiles := Tiles(inbox, hot, size, Hot);
    forall p | 1 <= p <= pages ensures tiles(p) == Window(hot, Start(p, HotPerPage(size)), HotPerPage(size)) {
      HotPart(inbox, hot, size, p);
    }
    JoinedWindows(hot, HotPerPage(size), tiles, pages);
  }

  /** As long as the hot list fills its windows, the inbox tiles too. */
  lemma InboxTiles(inbox: seq<Entry>, hot: seq<Entry>, size: nat, pages: nat)
    requires size >= 5 && |hot| >= Start(pages + 1, HotPerPage(size))
    ensures Join(Tiles(inbox, hot, size, Inbox), pages) == Window(inbox, 0, Start(pages + 1, InboxPerPage(size)))
  {
    var tiles := Tiles(inbox, hot, size, Inbox);
    forall p | 1 <= p <= pages ensures tiles(p) == Window(inbox, Start(p, InboxPerPage(size)), InboxPerPage(size)) {
      StartMonotone(p + 1, pages + 1, HotPerPage(size));
      InboxPartWhenHotFull(inbox, hot, size, p);
    }
    JoinedWindows(inbox, InboxPerPage(size), tiles, pages);
  }

  // Two windows of n1 and n2 positions, `step` apart.
  lemma WindowsOverlap(list: seq<Entry>, start: nat, step: nat, n1: nat, n2: nat, here: seq<Entry>, next: seq<Entry>)
    requires step <= n1 <= 2 * step && step <= n2 && start + n1 <= |list|
    requires here == Window(list, start, n1) && next == Window(list, start + step, n2)
    ensures |here| == n1 && n1 - step <= |next| && here[step..] == next[..n1 - step]
  {
  }

  lemma FullWindowFits(list: seq<Entry>, start: nat, len: nat)
    requires len > 0 && |Window(list, start, len)| == len
    ensures start + len <= |list|
  {
  }

  lemma InboxPartNext(inbox: seq<Entry>, hot: seq<Entry>, size: nat, page: nat)
    requires size >= 5 && page >= 1
    ensures Part(Page(inbox, hot, size, page + 1), Inbox) ==
      Window(inbox, Start(page, InboxPerPage(size)) + InboxPerPage(size), size - |HotWindow(hot, size, page + 1)|)
  {
    assert Start(page + 1, InboxPerPage(size)) == Start(page, InboxPerPage(size)) + InboxPerPage(size);
    InboxPart(inbox, hot, size, page + 1);
  }

  /** Two pages in a row repeat exactly as many inbox posts as the first lacks hot ones: what a page shows beyond
      its own InboxPerPage posts is what the next one starts with. */
  lemma PagesOverlap(inbox: seq<Entry>, hot: seq<Entry>, size: nat, page: nat)
    requires size >= 5 && page >= 1 && |InboxWindow(inbox, size, page)| == size
    ensures var n := size - |HotWindow(hot, size, page)|;
            var here := Part(Page(inbox, hot, size, page), Inbox);
            var next := Part(Page(inbox, hot, size, page + 1), Inbox);
            && InboxPerPage(size) <= n == |here| && n - InboxPerPage(size) <= |next|
            && here[InboxPerPage(size)..] == next[..n - InboxPerPage(size)]
  {
    var start, step := Start(page, InboxPerPage(size)), InboxPerPage(size);
    var n1, n2 := size - |HotWindow(hot, size, page)|, size - |HotWindow(hot, size, page + 1)|;
    FullWindowFits(inbox, start, size);
    InboxPart(inbox, hot, size, page);
    InboxPartNext(inbox, hot, size, page);
    WindowsOverlap(inbox, start, step, n1, n2, Window(inbox, start, n1), Window(inbox, start + step, n2));
  }

  // ----- Duplicates -----

  function Dedup(ids: seq<Id>): (r: seq<Id>)
    ensures forall id :: id in r <==> id in ids
    ensures forall i, j :: 0 <= i < j < |r| ==> r[i] != r[j]
  {
    if ids == [] then []
    else
      var r, last := Dedup(ids[..|ids| - 1]), ids[|ids| - 1];
      assert ids == ids[..|ids| - 1] + [last];
      if last in r then r else r + [last]
  }

  function Posts(slots: seq<Slot>): seq<Id> {
    seq(|slots|, i requires 0 <= i < |slots| => slots[i].entry.id)
  }

  function PageIds(inbox: seq<Entry>, hot: seq<Entry>, size: nat, page: nat): seq<Id>
    requires size >= 1 && page >= 1
  {
    Dedup(Posts(Page(inbox, hot, size, page)))
  }

  /** Each id stands where it first occurred. */
  lemma {:induction false} DedupKeepsOrder(ids: seq<Id>, k: nat)
    requires k <= |ids|
    ensures Dedup(ids[..k]) <= Dedup(ids)
  {
    if k < |ids| {
      DedupKeepsOrder(ids[..|ids| - 1], k);
      assert ids[..|ids| - 1][..k] == ids[..k];
    } else {
      assert ids[..k] == ids;
    }
  }

  /** The ids of a response are those of the posts in its slots, from both sources, each once and in slot order. */
  lemma IdsAreShown(inbox: seq<Entry>, hot: seq<Entry>, size: nat, cursor: int)
    requires size >= 1
    ensures var r := ResponseTo(inbox, hot, size, cursor);
            && (forall id :: id in r.ids <==> exists k :: 0 <= k < |r.shown| && r.shown[k].entry.id == id)
            && (forall i, j :: 0 <= i < j < |r.ids| ==>
                  exists k :: 0 <= k < |r.shown| && r.shown[k].entry.id == r.ids[i]
                              && forall l :: 0 <= l <= k ==> r.shown[l].entry.id != r.ids[j])
  {
    var r := ResponseTo(inbox, hot, size, cursor);
    var ids := Posts(r.shown);
    assert forall k :: 0 <= k < |ids| ==> ids[k] == r.shown[k].entry.id;
    forall i, j | 0 <= i < j < |r.ids|
      ensures exists k :: 0 <= k < |r.shown| && r.shown[k].entry.id == r.ids[i]
                          && forall l :: 0 <= l <= k ==> r.shown[l].entry.id != r.ids[j]
    {
      var k := DedupFirst(ids, i, j);
    }
  }

  // Where the i-th distinct id occurs, before any occurrence of the j-th.
  lemma {:induction false} DedupFirst(ids: seq<Id>, i: nat, j: nat) returns (k: nat)
    requires i < j < |Dedup(ids)|
    ensures k < |ids| && ids[k] == Dedup(ids)[i] && forall l :: 0 <= l <= k ==> ids[l] != Dedup(ids)[j]
  {
    var before, last := ids[..|ids| - 1], ids[|ids| - 1];
    if j < |Dedup(before)| {
      k := DedupFirst(before, i, j);
    } else {
      assert Dedup(before)[i] in Dedup(before);
      k :| 0 <= k < |before| && before[k] == Dedup(before)[i];
      assert forall l :: 0 <= l < |before| ==> before[l] in before;
    }
  }

  // ----- The client's loop -----

  lemma MoreMeansInboxLeft(inbox: seq<Entry>, hot: seq<Entry>, size: nat, page: nat)
    requires size >= 2 && page >= 1 && HasMore(inbox, hot, size, page)
    ensures Start(page, InboxPerPage(size)) < |inbox|
  {
    PageParts(inbox, hot, size, page);
  }

  /** A client's run: it starts with cursor 0, sends back each answer's next cursor while there is more, and has got
      these answers. */
  ghost predicate ClientRun(inbox: seq<Entry>, hot: seq<Entry>, size: nat, run: seq<Response>)
    requires size >= 1
  {
    run != [] && forall k :: 0 <= k < |run| ==> Follows(inbox, hot, size, run, k)
  }

  ghost predicate Follows(inbox: seq<Entry>, hot: seq<Entry>, size: nat, run: seq<Response>, k: nat)
    requires size >= 1 && k < |run|
  {
    && run[k] == ResponseTo(inbox, hot, size, if k == 0 then 0 else run[k - 1].next)
    && (run[k].more <==> k < |run| - 1)
  }

  lemma ResponseFacts(inbox: seq<Entry>, hot: seq<Entry>, size: nat, cursor: int)
    requires size >= 1
    ensures var a, page := ResponseTo(inbox, hot, size, cursor), if cursor <= 0 then 1 else cursor;
            && a.shown == Page(inbox, hot, size, page) && a.ids == PageIds(inbox, hot, size, page)
            && a.next == page + 1 && (a.more <==> HasMore(inbox, hot, size, page))
  {
  }

  /** The answers of a run, counted from 0, show the pages 1, 2, 3, ... */
  lemma {:induction false} RunIsPages(inbox: seq<Entry>, hot: seq<Entry>, size: nat, run: seq<Response>, k: nat)
    requires size >= 1 && ClientRun(inbox, hot, size, run) && k < |run|
    ensures && run[k].shown == Page(inbox, hot, size, k + 1) && run[k].ids == PageIds(inbox, hot, size, k + 1)
            && run[k].next == k + 2 && (HasMore(inbox, hot, size, k + 1) <==> k + 1 < |run|)
  {
    assert Follows(inbox, hot, size, run, k);
    if k > 0 { RunIsPages(inbox, hot, size, run, k - 1); }
    ResponseFacts(inbox, hot, size, if k == 0 then 0 else k + 1);
  }

  // The first page from `page` on without more.
  function FirstWithoutMore(inbox: seq<Entry>, hot: seq<Entry>, size: nat, page: nat): (last: nat)
    requires size >= 2 && page >= 1
    ensures last >= page && !HasMore(inbox, hot, size, last)
    ensures forall q :: page <= q < last ==> HasMore(inbox, hot, size, q)
    decreases var s := Start(page, InboxPerPage(size)); if s < |inbox| then |inbox| - s else 0
  {
    if HasMore(inbox, hot, size, page) then
      MoreMeansInboxLeft(inbox, hot, size, page);
      FirstWithoutMore(inbox, hot, size, page + 1)
    else page
  }

  // The cursor that leads to page k + 1.
  function CursorOf(k: nat): int { if k == 0 then 0 else k + 1 }

  lemma FollowsOn(inbox: seq<Entry>, hot: seq<Entry>, size: nat, run: seq<Response>, k: nat)
    requires size >= 1 && k < |run| && run[k] == ResponseTo(inbox, hot, size, CursorOf(k))
    requires k > 0 ==> run[k - 1].next == k + 1
    requires HasMore(inbox, hot, size, k + 1) <==> k + 1 < |run|
    ensures Follows(inbox, hot, size, run, k) && run[k].next == k + 2
  {
    ResponseFacts(inbox, hot, size, CursorOf(k));
  }

  // If page `last` is the first without more, asking for the pages up to it is a run.
  lemma PagesAreRun(inbox: seq<Entry>, hot: seq<Entry>, size: nat, last: nat) returns (run: seq<Response>)
    requires size >= 1 && last >= 1 && !HasMore(inbox, hot, size, last)
    requires forall q :: 1 <= q < last ==> HasMore(inbox, hot, size, q)
    ensures ClientRun(inbox, hot, size, run)
  {
    run := seq(last, (k: nat) => ResponseTo(inbox, hot, size, CursorOf(k)));
    forall k: nat | k < last ensures Follows(inbox, hot, size, run, k) {
      ResponseFacts(inbox, hot, size, CursorOf(if k == 0 then 0 else k - 1));
      FollowsOn(inbox, hot, size, run, k);
    }
  }

  /** A client's run comes to an end exactly when more than one slot is asked for or the inbox is empty. */
  lemma ClientStopsIff(inbox: seq<Entry>, hot: seq<Entry>, size: nat)
    requires size >= 1
    ensures (exists run :: ClientRun(inbox, hot, size, run)) <==> size >= 2 || inbox == []
  {
    if size >= 2 {
      var run := PagesAreRun(inbox, hot, size, FirstWithoutMore(inbox, hot, size, 1));
    } else if inbox == [] {
      var last := FirstEmptyHotPage(hot);
      var run := PagesAreRun(inbox, hot, size, last);
    } else if run :| ClientRun(inbox, hot, size, run) {
      RunIsPages(inbox, hot, size, run, |run| - 1);
      SingleSlotNeverMoves(inbox, hot, |run|);
    }
  }

  // With one slot a page and no inbox, the pages are the hot posts one by one.
  lemma FirstEmptyHotPage(hot: seq<Entry>) returns (last: nat)
    ensures last >= 1 && !HasMore([], hot, 1, last) && forall q :: 1 <= q < last ==> HasMore([], hot, 1, q)
  {
    last := |hot| + 1;
    forall q: nat | 1 <= q <= last ensures HasMore([], hot, 1, q) <==> q < last {
      PageParts([], hot, 1, q);
      MultipleIsProduct(q - 1, 1);
    }
  }

  // Any page shows the next InboxPerPage inbox posts, and all that remain when it is the last.
  lemma PageShows(inbox: seq<Entry>, hot: seq<Entry>, size: nat, page: nat, i: nat)
    requires size >= 2 && page >= 1 && i < |inbox|
    requires Start(page, InboxPerPage(size)) <= i
    requires i < Start(page + 1, InboxPerPage(size)) || !HasMore(inbox, hot, size, page)
    ensures inbox[i] in Part(Page(inbox, hot, size, page), Inbox)
    ensures inbox[i].id in PageIds(inbox, hot, size, page)
  {
    var shown := Page(inbox, hot, size, page);
    var k := i - Start(page, InboxPerPage(size));
    PageParts(inbox, hot, size, page);
    assert Part(shown, Inbox)[k] == inbox[i];
    PartMembers(shown, Inbox, inbox[i]);
    var j :| 0 <= j < |shown| && shown[j] == Slot(inbox[i], Inbox);
    assert Posts(shown)[j] == inbox[i].id;
  }

  lemma PagesCover(n: nat, per: nat, last: nat)
    requires per > 0 && (last > 1 ==> Start(last - 1, per) < n)
    ensures last <= PageOf(n + per - 1, per)
  {
    if last > 1 { PageReached(n + per - 1, last, per); }
  }

  lemma InboxLeftBefore(inbox: seq<Entry>, hot: seq<Entry>, size: nat, run: seq<Response>)
    requires size >= 2 && ClientRun(inbox, hot, size, run) && |run| > 1
    ensures Start(|run| - 1, InboxPerPage(size)) < |inbox|
  {
    RunIsPages(inbox, hot, size, run, |run| - 2);
    MoreMeansInboxLeft(inbox, hot, size, |run| - 1);
  }

  /** From two slots a page on, the client stops after at most ceil(n / inboxPerPage) + 1 answers, where a fifth of
      the slots, and at least one, are for hot posts. */
  lemma ClientStopsBy(inbox: seq<Entry>, hot: seq<Entry>, size: nat, run: seq<Response>)
    requires size >= 2 && ClientRun(inbox, hot, size, run)
    ensures var inboxPerPage := size - if size < 5 then 1 else size / 5;
            |run| <= (|inbox| + inboxPerPage - 1) / inboxPerPage + 1
  {
    if |run| > 1 { InboxLeftBefore(inbox, hot, size, run); }
    PagesCover(|inbox|, InboxPerPage(size), |run|);
    PageOfIsQuotient(|inbox| + InboxPerPage(size) - 1, InboxPerPage(size));
  }

  lemma SeesOnPage(inbox: seq<Entry>, hot: seq<Entry>, size: nat, run: seq<Response>, i: nat)
    requires size >= 2 && i < |inbox| && ClientRun(inbox, hot, size, run)
    ensures inbox[i].id in run[Min(PageOf(i, InboxPerPage(size)), |run|) - 1].ids
  {
    var per := InboxPerPage(size);
    var q := Min(PageOf(i, per), |run|);
    RunIsPages(inbox, hot, size, run, q - 1);
    StartMonotone(q, PageOf(i, per), per);
    PageShows(inbox, hot, size, q, i);
  }

  /** By then it has been shown every inbox post: post i by answer i / inboxPerPage, or by the last if that comes
      first. */
  lemma ClientSees(inbox: seq<Entry>, hot: seq<Entry>, size: nat, run: seq<Response>, i: nat)
    requires size >= 2 && i < |inbox| && ClientRun(inbox, hot, size, run)
    ensures var inboxPerPage := size - if size < 5 then 1 else size / 5;
            inbox[i].id in run[Min(i / inboxPerPage, |run| - 1)].ids
  {
    SeesOnPage(inbox, hot, size, run, i);
    PageOfIsQuotient(i, InboxPerPage(size));
  }

  ghost predicate Distinct<T(!new)>(s: seq<T>) { forall i, j :: 0 <= i < j < |s| ==> s[i] != s[j] }

  // One of the answers shows the post in a hot slot.
  ghost predicate SeesHot(run: seq<Response>, e: Entry) {
    exists k :: 0 <= k < |run| && Slot(e, Hot) in run[k].shown
  }

  lemma InWindow<T(!new)>(s: seq<T>, start: nat, len: nat, j: nat)
    requires Distinct(s) && j < |s|
    ensures s[j] in Window(s, start, len) <==> start <= j < start + len
  {
    if start <= j < start + len { assert Window(s, start, len)[j - start] == s[j]; }
  }

  lemma OnlyPageOf(i: nat, per: nat, page: nat)
    requires per > 0 && page >= 1
    ensures Start(page, per) <= i < Start(page, per) + per <==> page == PageOf(i, per)
  {
    var q := PageOf(i, per);
    if page < q { StartMonotone(page + 1, q, per); }
    if q < page { StartMonotone(q + 1, page, per); }
  }

  lemma HotOnPage(inbox: seq<Entry>, hot: seq<Entry>, size: nat, j: nat, page: nat)
    requires size >= 5 && page >= 1 && j < |hot| && Distinct(hot)
    ensures hot[j] in Part(Page(inbox, hot, size, page), Hot) <==> page == PageOf(j, HotPerPage(size))
  {
    HotPart(inbox, hot, size, page);
    InWindow(hot, Start(page, HotPerPage(size)), HotPerPage(size), j);
    OnlyPageOf(j, HotPerPage(size), page);
  }

  lemma SeenByAnswer(inbox: seq<Entry>, hot: seq<Entry>, size: nat, run: seq<Response>, j: nat, k: nat)
    requires size >= 5 && j < |hot| && Distinct(hot) && ClientRun(inbox, hot, size, run) && k < |run|
    ensures Slot(hot[j], Hot) in run[k].shown <==> k + 1 == PageOf(j, HotPerPage(size))
  {
    RunIsPages(inbox, hot, size, run, k);
    HotOnPage(inbox, hot, size, j, k + 1);
    InPart(run[k].shown, Hot, hot[j]);
  }

  lemma SeenByLastPage(inbox: seq<Entry>, hot: seq<Entry>, size: nat, run: seq<Response>, j: nat)
    requires size >= 5 && j < |hot| && Distinct(hot) && ClientRun(inbox, hot, size, run)
    ensures SeesHot(run, hot[j]) <==> PageOf(j, HotPerPage(size)) <= |run|
  {
    var q := PageOf(j, HotPerPage(size));
    if q <= |run| { SeenByAnswer(inbox, hot, size, run, j, q - 1); }
    if k :| 0 <= k < |run| && Slot(hot[j], Hot) in run[k].shown { SeenByAnswer(inbox, hot, size, run, j, k); }
  }

  lemma InPart(slots: seq<Slot>, source: Source, e: Entry)
    ensures e in Part(slots, source) <==> Slot(e, source) in slots
  {
    if e in Part(slots, source) { PartMembers(slots, source, e); }
    if Slot(e, source) in slots { PartHolds(slots, source, e); }
  }

  lemma MoreWhenHotFull(inbox: seq<Entry>, hot: seq<Entry>, size: nat, page: nat)
    requires size >= 5 && page >= 1 && Start(page, HotPerPage(size)) + HotPerPage(size) <= |hot|
    ensures HasMore(inbox, hot, size, page) <==> Start(page, InboxPerPage(size)) + InboxPerPage(size) <= |inbox|
  {
    PageParts(inbox, hot, size, page);
    assert |HotWindow(hot, size, page)| == HotPerPage(size);
  }

  // Before the page of hot post j the hot windows are full, so the inbox alone decides how far the client gets.
  lemma ReachesPage(inbox: seq<Entry>, hot: seq<Entry>, size: nat, run: seq<Response>, j: nat)
    requires size >= 5 && j < |hot| && ClientRun(inbox, hot, size, run)
    ensures var q := PageOf(j, HotPerPage(size));
            q <= |run| <==> Start(q, InboxPerPage(size)) <= |inbox|
  {
    var q := PageOf(j, HotPerPage(size));
    if q <= |run| {
      if q > 1 {
        RunIsPages(inbox, hot, size, run, q - 2);
        MoreBefore(inbox, hot, size, j, q - 1);
      }
    } else {
      RunIsPages(inbox, hot, size, run, |run| - 1);
      MoreBefore(inbox, hot, size, j, |run|);
      StartMonotone(|run| + 1, q, InboxPerPage(size));
    }
  }

  lemma MoreBefore(inbox: seq<Entry>, hot: seq<Entry>, size: nat, j: nat, page: nat)
    requires size >= 5 && j < |hot| && 1 <= page < PageOf(j, HotPerPage(size))
    ensures HasMore(inbox, hot, size, page) <==> Start(page + 1, InboxPerPage(size)) <= |inbox|
  {
    StartMonotone(page + 1, PageOf(j, HotPerPage(size)), HotPerPage(size));
    MoreWhenHotFull(inbox, hot, size, page);
  }

  lemma PageAtMost(i: nat, last: nat, per: nat)
    requires per > 0
    ensures PageOf(i, per) <= last <==> i < Start(last + 1, per)
  {
    if PageOf(i, per) <= last {
      StartMonotone(PageOf(i, per) + 1, last + 1, per);
    } else {
      StartMonotone(last + 1, PageOf(i, per), per);
    }
  }

  /** Of the hot list, from five slots a page on, the client sees the posts whose page is no later than that of the
      inbox's end: it stops when the inbox runs out, not when the hot list does. */
  lemma HotSeenIff(inbox: seq<Entry>, hot: seq<Entry>, size: nat, run: seq<Response>, j: nat)
    requires size >= 5 && j < |hot| && Distinct(hot) && ClientRun(inbox, hot, size, run)
    ensures SeesHot(run, hot[j]) <==> j / (size / 5) <= |inbox| / (size - size / 5)
  {
    var q := PageOf(j, HotPerPage(size));
    SeenByLastPage(inbox, hot, size, run, j);
    ReachesPage(inbox, hot, size, run, j);
    PageReached(|inbox|, q, InboxPerPage(size));
    PageOfIsQuotient(j, HotPerPage(size));
    PageOfIsQuotient(|inbox|, InboxPerPage(size));
  }

  lemma PageReached(i: nat, page: nat, per: nat)
    requires per > 0 && page >= 1
    ensures Start(page, per) <= i <==> page <= PageOf(i, per)
  {
    PageAtMost(i, page - 1, per);
  }

  /** So it sees the hot list to its end exactly if that has at most (n / inboxPerPage + 1) * hotPerPage posts. */
  lemma HotEndSeenIff(inbox: seq<Entry>, hot: seq<Entry>, size: nat, run: seq<Response>)
    requires size >= 5 && Distinct(hot) && hot != [] && ClientRun(inbox, hot, size, run)
    ensures SeesHot(run, hot[|hot| - 1]) <==> |hot| <= (|inbox| / (size - size / 5) + 1) * (size / 5)
  {
    var pages := PageOf(|inbox|, InboxPerPage(size));
    HotSeenIff(inbox, hot, size, run, |hot| - 1);
    PageOfIsQuotient(|hot| - 1, HotPerPage(size));
    PageAtMost(|hot| - 1, pages, HotPerPage(size));
    PageOfIsQuotient(|inbox|, InboxPerPage(size));
    MultipleIsProduct(pages, HotPerPage(size));
  }

  /** With one slot a page, a non-empty inbox is never paged through: every page is its newest post. */
  lemma SingleSlotNeverMoves(inbox: seq<Entry>, hot: seq<Entry>, page: nat)
    requires page >= 1 && inbox != []
    ensures Page(inbox, hot, 1, page) == [Slot(inbox[0], Inbox)] && HasMore(inbox, hot, 1, page)
  {
    MultipleIsProduct(page - 1, 0);
  }
}
