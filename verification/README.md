# Verified models of the feed system

Dafny models of the stateful parts of the community feed: the Redis/PostgreSQL like cache, the timeline with its
bounded inboxes, the hot list and the post cache, the long-connection layer (registry, dispatch, send queue), and the
notification list. Redis keys, SQL tables and connection maps are plain mathematical state. Each core is stated twice:
as step functions on values, over which the theorems about all runs are proved, and as classes whose methods make the
changes in place and are proved to take exactly those steps. Failures of Redis or SQL, the order in which concurrent
commands arrive, the ids a database generates and the clock are inputs.

| file | what it models |
|---|---|
| `LikeProtocol.dfy`, `LikeOverlap.dfy` | Like, Unlike and Count as interleaved Redis commands and SQL statements; which calls may overlap |
| `LikeStore.dfy`, `BatchCount.dfy`, `LikeRuns.dfy`, `LikeStorage.dfy` | the same store called sequentially, with its faults and expiring keys; BatchCount; the rebuild of the membership set |
| `SortedSet.dfy`, `Fanout.dfy` | Redis sorted sets, and the fanout worker that keeps bounded inboxes with them |
| `Interleave.dfy`, `Timeline.dfy`, `PostCache.dfy`, `FeedService.dfy` | the timeline's slot pattern and paging, the post cache, the feed service |
| `Ranking.dfy` | hot scores, the top 200, the swap through a temporary key |
| `Connection.dfy`, `SendQueue.dfy` | one WebSocket connection, sequentially and under every interleaving |
| `Registry.dfy`, `ConnManager.dfy`, `Dispatch.dfy`, `Session.dfy` | the three connection maps, frame dispatch, a connection's life |
| `Notifications.dfy` | the notifications table and its cursor pagination |
| `Collections.dfy` | maps and finite sets |

Where a promise of the source does not hold on all inputs, the exact condition is proved instead:

- Counter and set agree after every interleaving with, per user and feed, at most one like and one unlike in flight
  and a counter that exists (`AlwaysCounted`); set and table agree after every interleaving in which the calls in
  flight for one user and feed are of one kind (`AlwaysMirrored`). For two calls of one user on one feed, be they
  likes, unlikes or counts, the conditions are exact: the counter ends right on every schedule iff both calls remove the
  feed's only like, which the clamp repairs; or the counter exists, and the kinds differ or there is nothing to write;
  or it does not exist, and neither call has anything to write (`TwoCallsCounterIff`). Set and table end equal on every
  schedule iff it is not a like against an unlike (`TwoCallsTableIff`).
- Called sequentially, counter and set agree after a Like or Unlike exactly under conditions on the fault, on whether
  the counter exists, and on the members (`LikeAgreesIff`, `UnlikeAgreesIff`).
- When keys expire between calls, the counts stay those of a plain set of likes iff each event of the run is harmless
  (`RunRightIff`): a user whom an expired set has forgotten must not like or unlike again, a missing counter must not
  be counted up or down from unless nobody else likes the feed, and a counter may expire if the table has all the
  likes, which, while no SQL write is lost, is exactly if their ids are UUIDs (`CounterExpiryIff`). The table itself
  follows the likes iff each event is harmless to it (`RowsFollowIff`), and every key keeps the full expiry iff no pipeline
  is cut between the creation of a key and its EXPIRE (`RunExpiringIff`).
- The comment on `IsLiked` says that an expired set is rebuilt. SISMEMBER answers 0, not nil, for a missing key, so it
  is not; the code is followed. Over any run, `IsLiked` is right iff the user does not like the feed or the set has not
  expired since the like, and the last unlike was not one whose failed check was read as "not a member"
  (`IsLikedRightIff`).
- A client that pages the timeline until `has_more` is false stops, unless it asks for one slot a page and has a
  non-empty inbox (`ClientStopsIff`). Hot posts survive truncation from five slots a page on; below that, exactly when
  the inbox does not fill the page (`HotPart`); the client sees the hot list to its end iff that has at most
  (n / inboxPerPage + 1) * hotPerPage posts, n being the length of the inbox (`HotEndSeenIff`).
- `Bind` never takes a connection out of an earlier room: the maps stay inverse, and a session leaves nothing behind,
  if and only if each connection authenticates as one user (`BindKeepsInverseIff`, `SecondUserBreaksInverse`,
  `SessionLeavesNoTraceIff`).
- Notification paging is complete for every page size if and only if `created_at` never decreases with the id
  (`PagingCompleteIff`).
- A ranking run that finds the temporary key of a failed one is exact if and only if all members left there are selected
  again (`StaleRunIsExactIff`).
- A deleted post is still served while its cached copy lives, and only then do cache and table differ
  (`CacheTransparent`, `DeletedPostCanReappear`).

## Model

| member | source | states |
|---|---|---|
| LikeProtocol.AlwaysBalanced | services/interaction/storage.go:36-86 | in every interleaving on existing counters, with any calls in flight: counter = set size + likes counted but not stored - unlikes counted but not stored + drift; when all is quiet, counter and set agree iff the drift is 0 |
| LikeProtocol.AlwaysCounted | services/interaction/storage.go:36-86 | with no two likes and no two unlikes of one user for one feed in flight, whatever else overlaps: no drift ever, and no DECR answers below zero |
| LikeProtocol.CounterAgreement | services/interaction/storage.go:36-86 | ... so from agreement, when every call has finished, counter = set size |
| LikeProtocol.AlwaysMirrored | services/interaction/storage.go:43-83 | with no like and unlike of one user for one feed in flight, with or without counters: set and table differ on a pair only between a call's SADD/SREM and its SQL write, or after a lost write |
| LikeProtocol.TableAgreement | services/interaction/repo.go:44-66 | ... so when every call has finished, set and table agree on every pair whose last SQL write succeeded |
| LikeProtocol.AlwaysSound | services/interaction/storage.go:36-86 | with at most one like or unlike in flight per user and feed: both, and a pair differs from the table exactly while its call is in that window |
| LikeProtocol.CounterNotNegative | services/interaction/storage.go:75-79 | the pending unlikes are distinct members of the set, so the counter cannot be negative |
| LikeOverlap.TwoCallsCounterIff | services/interaction/storage.go:36-104 | two calls by one user on one feed, each a Like, Unlike or Count, from an agreed state: on every schedule, whichever SQL statements fail, the counter ends right iff both remove the only like; or it exists, and the kinds differ or there is nothing to write; or it does not, and neither has anything to write |
| LikeOverlap.TwoCallsTableIff | services/interaction/storage.go:36-104 | ... and, no SQL write being lost, set = table on every schedule iff it is not a like against an unlike |
| LikeOverlap.LastLikeCounterSafe | services/interaction/storage.go:75-79 | two overlapping unlikes of a feed's only like: the clamp repairs the counter in every schedule, whether it existed or not |
| LikeOverlap.RepeatedCallsDrift | services/interaction/storage.go:38-70 | from any agreed state, two overlapping likes of one user end with the counter one above the set in some schedule, two overlapping unlikes one below unless it was the only like |
| LikeOverlap.ReaderLosesWrite | services/interaction/storage.go:89-104 | without a counter, a call that only reads and an overlapping like or unlike: in some schedule the counter ends at the size the set had before |
| LikeStore.LikeAgreesIff | services/interaction/storage.go:36-57 | when counter and set agree after a Like: exactly, for every fault and with the counter there or expired |
| LikeStore.UnlikeAgreesIff | services/interaction/storage.go:60-86 | when they agree after an Unlike: on an existing counter unless only the DECR ran; on an expired one, through the clamp, iff the user was the only member |
| LikeStore.CountHealsIff | services/interaction/storage.go:98-103 | a Count repairs a missing counter iff the table was read, its count written back, and it is the size of the set |
| LikeStore.RelikeCountsTwiceIff | services/interaction/storage.go:36-57 | after the set has expired, a Like keeps counter and table equal iff nothing ran, or all of it and the user had no row |
| LikeStore.AnsweredRenews | services/interaction/storage.go:46-70 | a Like or Unlike answered after its pipeline leaves both keys with the full expiry, whatever they had |
| LikeStore.UuidIff | services/interaction/repo.go:10-12 | five groups of 8, 4, 4, 4 and 12 lower-case hex digits joined by hyphens |
| LikeRuns.RunRightIff | services/interaction/storage.go:12-193 | from empty stores, over any run with failures and expiries of both keys: what Count would answer is the number of a plain set's likers all along iff each event is harmless |
| LikeRuns.StepIff | services/interaction/storage.go:36-193 | the same for one event |
| LikeRuns.RunRefines | services/interaction/storage.go:36-173 | along such a run every Like, Unlike, Count and BatchCount answers as the plain set would, or reports what failed |
| LikeRuns.MembershipIff | services/interaction/storage.go:175-193 | over any run: a user who likes the feed is missing from its set iff it has expired since the like, and one who does not is in it iff the last unlike was blind |
| LikeRuns.IsLikedRightIff | services/interaction/storage.go:175-193 | so after any run IsLiked answers as the plain set would iff neither is the case |
| LikeRuns.RunWithoutExpiry | services/interaction/storage.go:36-193 | without expiry and with every check answered and no pipeline cut after INCR or DECR, every call answers as the plain set would or reports a failed read or pipeline; SQL writes and cache fills may fail at will |
| LikeRuns.BlindUnlike | services/interaction/storage.go:60-64 | an Unlike by a member whose SISMEMBER fails reports success and removes nothing, and the counts are wrong from then on |
| LikeRuns.RowsFollowIff | services/interaction/repo.go:44-66 | all along a run, with failures and expiries, post_likes holds exactly the likes whose ids are UUIDs iff no event loses a write or skips one that was due |
| LikeRuns.CounterExpiryIff | services/interaction/storage.go:89-104 | after such a run a counter may expire without harm iff all likes of the feed have UUIDs |
| LikeRuns.StepExpiringIff | services/interaction/storage.go:43-73 | an event leaves every like key with the full expiry of 30 days iff it does not cut a pipeline between the command that creates a key and its EXPIRE |
| LikeRuns.RunExpiringIff | services/interaction/storage.go:12-13 | the same all along a run |
| BatchCounting.BatchAnswers | services/interaction/storage.go:108-173 | a batch gives for each id what Count would, and omits an id iff it missed and is empty or all its reads failed |
| BatchCounting.BatchIsCounts | services/interaction/storage.go:161-171 | a faultless batch of non-empty ids, repeated or not, leaves Redis as calling Count on each in turn |
| BatchCounting.LostBatch | services/interaction/storage.go:120-171 | a failed pipeline of GETs fails the batch; lost SETs change neither the answer nor Redis |
| BatchCounting.LostCount | services/interaction/storage.go:89-104 | a Count fails iff its GET does, or it misses and cannot read the table, and then changes nothing |
| LikeStorage.Storage.Count | services/interaction/storage.go:89-104 | GET, else SQL count and SET: the step function the run theorems are about |
| LikeStorage.Storage.Like | services/interaction/storage.go:36-57 | the in-place Like takes the step proved about in LikeAgreesIff and RunRightIff, for every fault |
| LikeStorage.Storage.Unlike | services/interaction/storage.go:60-86 | the in-place Unlike, with the clamp at zero, takes the step proved about in UnlikeAgreesIff and RunRightIff |
| LikeStorage.Storage.ReadMisses | services/interaction/storage.go:144-159 | whatever order the goroutines finish in, slot i holds the count of missed id i, or nothing if its read failed |
| LikeStorage.Storage.BatchCount | services/interaction/storage.go:108-173 | result and backfilled counters are a function of the store, the ids and which reads and SETs fail, not of the schedule |
| LikeStorage.Storage.ListLikers | services/interaction/repo.go:93-112 | each liker of the post once, in no particular order; none for an id that is not a UUID |
| LikeStorage.Storage.AddInBatches | services/interaction/storage.go:205-229 | batches of 1 to 1000 that make up the list; a break in batch k leaves the old set plus the first 1000k likers with the short TTL (k > 0) or the old one (k = 0), plus batch k if its SADD ran; success gives all likers and the full TTL |
| LikeStorage.BreakLeaves | services/interaction/storage.go:208-229 | a break before batch k leaves the first 1000k likers added, with the short TTL if there are any; one inside or after it, batch k too |
| LikeStorage.Storage.RebuildLikedBy | services/interaction/storage.go:196-231 | with the likers in the order the database lists them, the set and its TTL are what AddInBatches leaves up to the break; on success the old set plus all likers with the full TTL, or untouched if there are none |
| LikeStorage.Storage.IsLiked | services/interaction/storage.go:177-193 | an answered check decides; after a nil answer the set is as the rebuild left it and answers again, or the table does if the rebuild failed |
| SortedSet.ZAddEffect | workers/handlers/fanout.py:31 | ZADD is an upsert that keeps rank order |
| SortedSet.ZAddCovers | workers/handlers/fanout.py:31 | adding, or adding again, keeps the k greatest of all that was ever delivered |
| SortedSet.TrimCovers | workers/handlers/fanout.py:32 | cutting to the k highest ranks keeps the k greatest of all that was ever delivered |
| SortedSet.TopUnique | workers/handlers/fanout.py:32 | "the k greatest, in order" names one sequence |
| SortedSet.TopDown | services/feed/service.go:172-176 | what ZREVRANGE reads stands in falling score, and from the top on nothing left out scores more |
| Fanout.InboxIsTop | workers/handlers/fanout.py:29-33 | for any order, repetition and interleaving of ZADD and trim commands the inbox contains the newest 1000 of what was delivered, and nothing else after a trim |
| Fanout.InboxesConverge | workers/handlers/fanout.py:29-33 | two command histories that delivered the same entries and end with a trim leave equal inboxes |
| Fanout.Worker.HandlePostCreated | workers/handlers/fanout.py:12-33 | an event goes to the outbox from the threshold on, otherwise to exactly the followers' inboxes, trimmed |
| Fanout.Worker.InboxHoldsNewest | workers/handlers/fanout.py:12-33 | after any sequence of events an inbox holds up to 1000 of the posts that reached the user and no others; one that is missing was created no later than any that is there, and a later one ranks higher |
| FeedService.Service.EventsCarryOneTime | services/feed/service.go:54-65 | every event of a post carries its creation time, the same one: the hypothesis of the inbox theorem |
| Interleave.InterleaveSlots | services/feed/service.go:224-243 | the loop computes the merge by blocks of `ratio` inbox posts and one hot post |
| Interleave.InboxLandsAt | services/feed/service.go:228-236 | inbox post i stands at i + min(i / ratio, number of hot posts) |
| Interleave.HotLandsAt | services/feed/service.go:231-241 | hot post j stands at (j+1)*ratio + j, or at the inbox length plus j when the inbox is too short |
| Interleave.MergeParts | services/feed/service.go:222-243 | each source is a projection of the merge: nothing lost, added or reordered |
| Interleave.QuotientIsDivision | services/feed/service.go:232 | the counting quotient in the positions is integer division |
| Timeline.HotPart | services/feed/service.go:157-185 | a page shows its whole hot window iff five slots or more are asked for or the inbox does not fill the page; otherwise none of it |
| Timeline.InboxPart | services/feed/service.go:156-185 | from five slots on a page shows the inbox from the page's first slot for as many posts as the hot window leaves |
| Timeline.HotTiles | services/feed/service.go:169-185 | the first m pages show the first m * hotPerPage hot posts in order, none skipped or repeated |
| Timeline.InboxTiles | services/feed/service.go:166-185 | while the hot list fills its windows, the first m pages show the first m * inboxPerPage inbox posts in order |
| Timeline.PagesOverlap | services/feed/service.go:165-167 | two pages in a row repeat exactly as many inbox posts as the first lacks hot ones |
| Timeline.Dedup | services/feed/service.go:187-196 | the same ids, each once |
| Timeline.DedupKeepsOrder | services/feed/service.go:187-196 | each id stands where it first occurred |
| Timeline.IdsAreShown | services/feed/service.go:187-196 | the ids of a response are those of the posts in its slots, from both sources, each once and in slot order |
| Timeline.RunIsPages | services/feed/service.go:147-203 | the answers of any client that starts with cursor 0 and sends back next_cursor while has_more holds show the pages 1, 2, 3, ... |
| Timeline.ClientStopsBy | services/feed/service.go:146-203 | from two slots a page on, such a client gets at most ceil(n / inboxPerPage) + 1 answers, inboxPerPage being the page size less a fifth of it or one |
| Timeline.ClientSees | services/feed/service.go:146-203 | ... among them inbox post i in answer i / inboxPerPage, counted from 0, or in the last if that comes first |
| Timeline.HotSeenIff | services/feed/service.go:169-203 | from five slots on, the client sees hot post j in a hot slot iff j / hotPerPage is at most n / inboxPerPage, n being the length of the inbox |
| Timeline.HotEndSeenIff | services/feed/service.go:169-203 | ... so it sees the hot list to its end iff that has at most (n / inboxPerPage + 1) * hotPerPage posts |
| Timeline.PageOfIsQuotient | services/feed/service.go:166 | the page of position i is i / per + 1 |
| Timeline.SingleSlotNeverMoves | services/feed/service.go:157-166 | with one slot a page and a non-empty inbox, every page is the newest inbox post and has more |
| Timeline.ClientStopsIff | services/feed/service.go:146-203 | such a run ends iff more than one slot a page is asked for or the inbox is empty |
| PostCache.RunFaithful | services/feed/service.go:36-107 | in every interleaving of the three cache writers, deletions, expiries and damaged values, each row, cached copy and copy in flight is the post as created |
| PostCache.CacheTransparent | services/feed/service.go:75-108 | cache-first reads equal table reads, except for a deleted post still cached, which is served as created |
| PostCache.LostCopyFallsBack | services/feed/service.go:80-93 | without its cached copy, or with a damaged one, a post is answered from the table |
| PostCache.DeletedPostCanReappear | services/feed/service.go:89-105 | a copy read before a deletion and SET after it serves the deleted post |
| FeedService.Service.PostFeed | services/feed/service.go:36-69 | stores and, with Redis up, caches the post as given and sends one event with its creation time; nothing on failure |
| FeedService.Service.GetPostContent | services/feed/service.go:78-108 | whichever GET, SQL read or SET fails: answers for exactly the ids that can be read, with the post as created, and fills the cache |
| FeedService.Service.DeleteFeed | services/feed/repo.go:141-151 | removes the row iff it exists and belongs to the author; cached answers stay |
| FeedService.Service.DedupLoop | services/feed/service.go:187-196 | the loop with its `seen` map computes the deduplication |
| FeedService.Service.GetTimeline | services/feed/service.go:146-213 | the whole request: the Timeline module's response to the cursor over the two lists, as far as each post can be read, with next cursor and has_more |
| FeedService.Service.ContentLandsAt | services/feed/service.go:204-211 | a readable post is returned as created, after those of the readable ids before it; nothing else is |
| FeedService.Service.NewestComeFirst | services/feed/service.go:172-185 | on every page the posts of either source stand in falling score, and on the first none left out scores more |
| FeedService.Service.NothingSkipped | services/feed/service.go:204-211 | while no read fails and nothing selected is deleted, every selected id is returned |
| Ranking.ScoreOrdersAsSource | workers/handlers/ranking.py:63 | comparing the signed squares compares the scores of the source |
| Ranking.SortStable | workers/handlers/ranking.py:66 | posts of equal score keep the order of the query |
| Ranking.BestIsBest | workers/handlers/ranking.py:66-67 | min(n, 200) posts are selected, and none left out scores more |
| Ranking.FreshRunIsExact | workers/handlers/ranking.py:69-75 | writing to an absent temporary key yields exactly the selected posts |
| Ranking.StaleRunIsExactIff | workers/handlers/ranking.py:69-75 | with members left by a failed run the result is exact iff they are all selected again |
| Ranking.ScoreOrdersHeat | workers/handlers/ranking.py:59-64 | the scores compare as (3 likes + 5 comments) squared over (hours + 2) cubed, for counts that are not negative |
| Ranking.Worker.RunRanking | workers/handlers/ranking.py:21-75 | succeeds iff there is no post dated two hours ahead and nothing fails; then, without the temporary key before it, hot_posts holds min(n, 200) posts, none less hot than one left out, ranked by heat, whatever was there, and the key is gone; each failure leaves exactly what the lost or unanswered transaction or rename leaves |
| Connection.Conn.Write | pkg/comet/ws/conn.go:64-78 | refused when closed or when 256 are queued, otherwise queued once at the end |
| SendQueue.WrittenIsPrefix | pkg/comet/ws/conn.go:63-140 | in every interleaving: accepted = written + in hand + queued, at most 256 queued, the socket closed at most once |
| SendQueue.OnlyPendingAccepted | pkg/comet/ws/conn.go:64-75 | once the closed flag is set, only writes that had checked it before are still accepted |
| SendQueue.LateAcceptsBounded | pkg/comet/ws/conn.go:64-78 | ... each of them at most once |
| SendQueue.WrittenIsFinal | pkg/comet/ws/conn.go:109-140 | after the socket is closed or the pump has stopped nothing more is written and nothing closed again |
| SendQueue.UninterruptedWrite | pkg/comet/ws/conn.go:64-78 | a Write that nothing interrupts does to the queue what Conn.Write does |
| SendQueue.WritesInOrder | pkg/comet/ws/conn.go:64-78 | several such Writes queue their frames in the order of the calls, while there is space |
| SendQueue.CloseOnce | pkg/comet/ws/conn.go:131-140 | Close closes the socket, once |
| SendQueue.DrainDelivers | pkg/comet/ws/conn.go:109-128 | an idle pump with an open socket can write out all that was accepted |
| Registry.BindKeepsInverseIff | pkg/comet/conn_manager.go:54-65 | binding keeps rooms and connRoom inverse iff the connection is unbound or already in that room |
| Registry.PopKeepsInverse | pkg/comet/conn_manager.go:33-51 | removal keeps them inverse and clears the connection from every room unless its room name is empty |
| Registry.InverseCounts | pkg/comet/conn_manager.go:107-116 | a room's members are the connections bound to it, and all rooms together are as large as connRoom |
| Registry.BindPopUndone | pkg/comet/conn_manager.go:26-65 | Push, Bind and Pop of a newcomer restore all three maps |
| ConnManager.Manager.Push | pkg/comet/conn_manager.go:26-30 | registers the connection and changes nothing else |
| ConnManager.Manager.Pop | pkg/comet/conn_manager.go:33-51 | the in-place removal, dropping a room it empties |
| ConnManager.Manager.Bind | pkg/comet/conn_manager.go:54-65 | the in-place binding, creating the room if needed and leaving earlier rooms alone |
| ConnManager.Manager.PushToRoom | pkg/comet/conn_manager.go:75-97 | every member that is open and has space gets the message once; the result is the number of their ids, at most the room's size |
| ConnManager.MembersAreIds | pkg/comet/conn_manager.go:75-97 | members picked from a keyed room are as many as their ids, so none is counted twice |
| ConnManager.Manager.RoomOnline | pkg/comet/conn_manager.go:107-116 | the number of members, online iff positive |
| Dispatch.Core.Dispatch | pkg/comet/server.go:88-168 | registry, business calls and the bytes of the reply after one frame |
| Dispatch.Core.Push | pkg/comet/server.go:65-75 | a broadcast is one message frame per reachable member |
| Dispatch.MessageIff | pkg/comet/server.go:88-168 | in every interleaving OnMessage(conn, user, payload) is called on a frame iff it is that connection's message frame with that payload and the user is the one of its most recent successful authentication |
| Dispatch.AuthIff | pkg/comet/server.go:101-132 | OnAuth is called on a frame iff it is an authentication frame, with what follows its header |
| Dispatch.ConnsAreCurrent | pkg/comet/conn_manager.go:26-51 | in every interleaving the registry holds exactly the connections opened and not ended since, under their ids |
| Dispatch.LastUserWitness | pkg/comet/server.go:131-150 | ... which is an earlier frame, with no other grant and no end of the connection since |
| Dispatch.AlwaysLinked | pkg/comet/conn_manager.go:26-65 | in every reachable state no room is empty and a bound connection is in its room |
| Dispatch.AlwaysInverse | pkg/comet/server.go:145 | while each connection authenticates as one user, a user's room holds exactly the connections authenticated as that user |
| Dispatch.SecondUserBreaksInverse | pkg/comet/server.go:145 | the first authentication as another user breaks that, and only such a one |
| Session.SessionLeavesNoTraceIff | pkg/comet/ws/server.go:87-94 | whatever other connections do meanwhile, a session leaves the registry as if it had never been iff it authenticated as at most one user |
| Session.EndedSessionLeaves | pkg/comet/ws/server.go:87-94 | in every interleaving of all connections, a removed connection is, and as long as its id is not used again stays, in the rooms of the users it authenticated as, but the last |
| Session.HandleWS | pkg/comet/ws/server.go:72-96 | register, dispatch the frames in order among those of other connections, with the business calls they cause, close, look up the user, remove |
| Notifications.Store.Insert | services/notify/store.go:26-33 | appends one unread row with a new, larger id |
| Notifications.Store.ListByUser | services/notify/store.go:36-68 | fetching one row more and cutting yields the latest rows of the user below the cursor, as they stand in the table, by falling time and id, and the id of the last as the next cursor |
| Notifications.Store.UnreadCount | services/notify/store.go:89-97 | the number of the user's rows without read_at |
| Notifications.Store.MarkRead | services/notify/store.go:71-86 | sets read_at on exactly the user's unread rows asked for and changes nothing else |
| Notifications.MarkAllUnread | services/notify/store.go:72-97 | marking all leaves the user no unread row and no other user's count changed |
| Notifications.CursorFalls | services/notify/store.go:59-65 | the next cursor is below the current one, and 0 exactly for an empty page |
| Notifications.PagingListsAll | services/notify/store.go:36-68 | if created_at follows the id in the first call's table, whatever is inserted later: following the cursor lists each notification of the first call's table once, newest first, with inserts and reads marked in between |
| Notifications.CallsIsCeiling | services/notify/store.go:59-65 | ... in ceil(n / pageSize) + 1 calls |
| Notifications.OvertakenIsSkipped | services/notify/store.go:38-43 | with one row a page, a row with a larger id but an earlier created_at than another is never listed |
| Notifications.PagingCompleteIff | services/notify/store.go:38-43 | paging is complete for every page size iff created_at never decreases with the id |

## Left out

- Wall-clock expiry: keys expire by events in the sequential runs, at any point between calls; the concurrent protocol has no expiring keys.
- LikeOverlap.TwoCallsCounterIff: exact for two calls; for more of them only the sufficient conditions of AlwaysCounted and AlwaysMirrored are stated.
- Pipelines of several clients inside BatchCount and the rebuild: both are modelled against a store that only they change.
- Ranking.Worker.RunRanking: does not model floating point; scores are exact signed squares.
- The ranking worker's pre-caching step: its row read and SET are the ReadRow and Fill actions of the post cache.
- Ids and JSON: ids are strings without UUID generation, and a cached post is either decodable, and then the encoded post, or not.
- The author notification of the fanout worker and the notify service's push to live connections.
- Notifications.Store.MarkRead: an id that is not a number, which SQL rejects, cannot be expressed.
- Integer widths: page numbers, cursors and counters are unbounded.
- Tracing, logging, read and write deadlines of sockets, and the HTTP upgrade.
- Outboxes of large accounts are written but never read by the timeline, so nothing is stated about merging them.
- Comments, bookmarks, follows, users, the gateway, offset paging, configuration and event transport: plumbing or single SQL statements.
