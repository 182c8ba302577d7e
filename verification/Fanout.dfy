/** The fanout worker: post.created events become entries of the followers' bounded inboxes. */
module Fanout {
  import opened Collections
  import opened SortedSet

  const INBOX_LIMIT: nat := 1000

  datatype Event = Event(postId: Id, authorId: Id, createdAt: int, followerCount: int)

  function EntryOf(ev: Event): Entry { Entry(ev.postId, ev.createdAt as real) }

  /** The two Redis commands the worker sends to an inbox. */
  datatype Command = Add(entry: Entry) | TrimInbox

  function Exec(z: seq<Entry>, c: Command): seq<Entry> {
    match c
    case Add(e) => ZAdd(z, e)
    case TrimInbox => Trim(z, INBOX_LIMIT)
  }

  function ExecAll(z: seq<Entry>, cs: seq<Command>): seq<Entry> {
    if cs == [] then z else Exec(ExecAll(z, cs[..|cs| - 1]), cs[|cs| - 1])
  }

  // What one delivery makes of an inbox when no other worker's command comes in between.
  function Received(z: seq<Entry>, e: Entry): seq<Entry> {
    Trim(ZAdd(z, e), INBOX_LIMIT)
  }

  ghost function Delivered(cs: seq<Command>): set<Entry> {
    set c | c in cs && c.Add? :: c.entry
  }

  ghost predicate Settled(cs: seq<Command>) {
    cs != [] ==> cs[|cs| - 1] == TrimInbox
  }

  /** Whatever the order of the commands and however often an entry is redelivered, the inbox holds the newest
      1000 of what was delivered; once the last command is a trim it holds nothing else. */
  lemma {:induction false} InboxIsTop(cs: seq<Command>)
    requires OneScoreEach(Delivered(cs))
    ensures Covers(ExecAll([], cs), Delivered(cs), INBOX_LIMIT)
    ensures Settled(cs) ==> IsTop(ExecAll([], cs), Delivered(cs), INBOX_LIMIT)
  {
    if cs == [] {
      assert Delivered(cs) == {};
    } else {
      var rest, c := cs[..|cs| - 1], cs[|cs| - 1];
      assert cs == rest + [c];
      assert Delivered(rest) <= Delivered(cs);
      InboxIsTop(rest);
      match c {
        case Add(e) =>
          assert Delivered(cs) == Delivered(rest) + {e};
          ZAddCovers(ExecAll([], rest), Delivered(rest), e, INBOX_LIMIT);
        case TrimInbox =>
          assert Delivered(cs) == Delivered(rest);
          TrimCovers(ExecAll([], rest), Delivered(rest), INBOX_LIMIT);
          CoversIsTop(ExecAll([], cs), Delivered(cs), INBOX_LIMIT);
      }
    }
  }

  /** Two histories that delivered the same entries leave the same inbox. */
  lemma InboxesConverge(a: seq<Command>, b: seq<Command>)
    requires Delivered(a) == Delivered(b) && OneScoreEach(Delivered(a))
    requires Settled(a) && Settled(b)
    ensures ExecAll([], a) == ExecAll([], b)
  {
    InboxIsTop(a);
    InboxIsTop(b);
    TopUnique(ExecAll([], a), ExecAll([], b), Delivered(a), INBOX_LIMIT);
  }

  /** An event together with the followers its author had when it was handled. */
  datatype Delivery = Delivery(event: Event, followers: seq<Id>)

  ghost predicate Reaches(d: Delivery, user: Id, threshold: int) {
    d.event.followerCount < threshold && user in d.followers
  }

  ghost function CommandsFor(user: Id, ds: seq<Delivery>, threshold: int): seq<Command> {
    if ds == [] then []
    else
      var d := ds[|ds| - 1];
      CommandsFor(user, ds[..|ds| - 1], threshold)
      + (if Reaches(d, user, threshold) then [Add(EntryOf(d.event)), TrimInbox] else [])
  }

  // The posts delivered to the user.
  ghost function Reaching(user: Id, ds: seq<Delivery>, threshold: int): set<Entry> {
    set d | d in ds && Reaches(d, user, threshold) :: EntryOf(d.event)
  }

  lemma ReachingSnoc(user: Id, ds: seq<Delivery>, d: Delivery, threshold: int)
    ensures Reaching(user, ds + [d], threshold) ==
      Reaching(user, ds, threshold) + if Reaches(d, user, threshold) then {EntryOf(d.event)} else {}
  {
    assert forall x :: x in ds + [d] <==> x in ds || x == d;
  }

  lemma DeliveredPair(cs: seq<Command>, e: Entry)
    ensures Delivered(cs + [Add(e), TrimInbox]) == Delivered(cs) + {e}
  {
    var all := cs + [Add(e), TrimInbox];
    assert all[|cs|] == Add(e);
    assert forall c :: c in all <==> c in cs || c == Add(e) || c == TrimInbox;
  }

  lemma {:induction false} CommandsForDeliver(user: Id, ds: seq<Delivery>, threshold: int)
    ensures Settled(CommandsFor(user, ds, threshold))
    ensures Delivered(CommandsFor(user, ds, threshold)) == Reaching(user, ds, threshold)
  {
    if ds != [] {
      var rest, d := ds[..|ds| - 1], ds[|ds| - 1];
      assert ds == rest + [d];
      CommandsForDeliver(user, rest, threshold);
      ReachingSnoc(user, rest, d, threshold);
      var before := CommandsFor(user, rest, threshold);
      if Reaches(d, user, threshold) {
        DeliveredPair(before, EntryOf(d.event));
      } else {
        assert before + [] == before;
      }
    }
  }

  // The inboxes after the pipeline.
  ghost function Pushed(m: map<Id, seq<Entry>>, e: Entry, followers: seq<Id>): map<Id, seq<Entry>> {
    if followers == [] then m
    else
      var before, f := Pushed(m, e, followers[..|followers| - 1]), followers[|followers| - 1];
      before[f := Received(Get(before, f, []), e)]
  }

  lemma {:induction false} PushedReaches(m: map<Id, seq<Entry>>, e: Entry, followers: seq<Id>)
    requires forall i, j :: 0 <= i < j < |followers| ==> followers[i] != followers[j]
    ensures forall u :: (Get(Pushed(m, e, followers), u, []) ==
      if u in followers then Received(Get(m, u, []), e) else Get(m, u, []))
  {
    if followers != [] {
      var rest, f := followers[..|followers| - 1], followers[|followers| - 1];
      PushedReaches(m, e, rest);
      forall u ensures (Get(Pushed(m, e, followers), u, []) ==
        if u in followers then Received(Get(m, u, []), e) else Get(m, u, []))
      {
        assert u in followers <==> u in rest || u == f by { assert followers == rest + [f]; }
        assert f !in rest;
      }
    }
  }

  class Worker {
    const threshold: int
    var inboxes: map<Id, seq<Entry>>
    var outboxes: map<Id, seq<Entry>>
    ghost var handled: seq<Delivery>

    constructor (threshold: int)
      ensures this.threshold == threshold && inboxes == map[] && outboxes == map[] && handled == []
      ensures Valid()
    {
      this.threshold := threshold;
      inboxes, outboxes, handled := map[], map[], [];
    }

    function Inbox(user: Id): seq<Entry>
      reads this
    {
      Get(inboxes, user, [])
    }

    function Outbox(user: Id): seq<Entry>
      reads this
    {
      if user in outboxes then outboxes[user] else []
    }

    // Every inbox is what the commands sent to it make of an empty set.
    ghost predicate Valid()
      reads this
    {
      forall u: Id :: Inbox(u) == ExecAll([], CommandsFor(u, handled, threshold))
    }

    // The two commands of the pipeline for one follower.
    method PushToInbox(e: Entry, user: Id)
      modifies this`inboxes
      ensures inboxes == old(inboxes)[user := Received(old(Inbox(user)), e)]
    {
      inboxes := inboxes[user := ZAdd(Inbox(user), e)];
      inboxes := inboxes[user := Trim(Inbox(user), INBOX_LIMIT)];
    }

    method PushToInboxes(e: Entry, followers: seq<Id>)
      modifies this`inboxes
      ensures inboxes == Pushed(old(inboxes), e, followers)
    {
      assert followers[..0] == [];
      for i := 0 to |followers|
        invariant inboxes == Pushed(old(inboxes), e, followers[..i])
      {
        PushToInbox(e, followers[i]);
        assert followers[..i + 1][..i] == followers[..i];
      }
      assert followers[..|followers|] == followers;
    }

    /** `followers` are the rows of the follows table, whose primary key makes them distinct. */
    method HandlePostCreated(ev: Event, followers: seq<Id>)
      requires Valid()
      requires forall i, j :: 0 <= i < j < |followers| ==> followers[i] != followers[j]
      modifies this
      ensures Valid() && handled == old(handled) + [Delivery(ev, followers)]
      ensures ev.followerCount >= threshold ==>
        && inboxes == old(inboxes)
        && outboxes == old(outboxes)[ev.authorId :=
             ZAdd(old(Outbox(ev.authorId)), Entry(ev.postId, ev.createdAt as real))]
      ensures ev.followerCount < threshold ==> outboxes == old(outboxes)
      ensures forall u :: !Reaches(Delivery(ev, followers), u, threshold) ==> Inbox(u) == old(Inbox(u))
    {
      ghost var d := Delivery(ev, followers);
      if ev.followerCount >= threshold {
        outboxes := outboxes[ev.authorId := ZAdd(Outbox(ev.authorId), EntryOf(ev))];
      } else {
        PushToInboxes(EntryOf(ev), followers);
        PushedReaches(old(inboxes), EntryOf(ev), followers);
      }
      handled := handled + [d];
      forall u: Id ensures Inbox(u) == ExecAll([], CommandsFor(u, handled, threshold)) {
        DeliveryExecutes(u, old(handled), d, threshold);
      }
    }

    /** Over any sequence of deliveries, an inbox is the top 1000 of the entries that reached the user. */
    lemma InboxIsTopOfReaching(user: Id)
      requires Valid() && OneTimeEach(handled)
      ensures IsTop(Inbox(user), Reaching(user, handled, threshold), INBOX_LIMIT)
    {
      CommandsForDeliver(user, handled, threshold);
      InboxIsTop(CommandsFor(user, handled, threshold));
    }

    ghost predicate Reached(user: Id, d: Delivery)
      reads this
    {
      d in handled && d.event.followerCount < threshold && user in d.followers
    }

    ghost predicate HasPost(user: Id, postId: Id)
      reads this
    {
      exists i :: StandsAt(user, postId, i)
    }

    ghost predicate StandsAt(user: Id, postId: Id, i: int)
      reads this
    {
      0 <= i < |Inbox(user)| && Inbox(user)[i].id == postId
    }

    /** An inbox holds posts that reached the user and no others, all of them up to 1000; a post that is missing is
        no newer than any that is there; and among those there, a newer one has the higher rank. */
    lemma InboxHoldsNewest(user: Id)
      requires Valid() && OneTimeEach(handled)
      ensures |Inbox(user)| == Min(1000, |set d | d in handled && Reached(user, d) :: d.event.postId|)
      ensures forall i :: 0 <= i < |Inbox(user)| ==> exists d :: Reached(user, d) && d.event.postId == Inbox(user)[i].id
      ensures forall d, e :: (Reached(user, d) && Reached(user, e)
                              && HasPost(user, d.event.postId) && !HasPost(user, e.event.postId)) ==>
        e.event.createdAt <= d.event.createdAt
      ensures forall d, e, i, j :: (Reached(user, d) && Reached(user, e) && d.event.createdAt < e.event.createdAt
                                    && StandsAt(user, d.event.postId, i) && StandsAt(user, e.event.postId, j)) ==> i < j
    {
      InboxSize(user);
      forall i | 0 <= i < |Inbox(user)| ensures exists d :: Reached(user, d) && d.event.postId == Inbox(user)[i].id {
        var d := EntryReached(user, i);
      }
      forall d, e | Reached(user, d) && Reached(user, e) && HasPost(user, d.event.postId) && !HasPost(user, e.event.postId)
        ensures e.event.createdAt <= d.event.createdAt
      {
        MissingIsOlder(user, d, e);
      }
      forall d, e, i, j | Reached(user, d) && Reached(user, e) && d.event.createdAt < e.event.createdAt
                          && StandsAt(user, d.event.postId, i) && StandsAt(user, e.event.postId, j)
        ensures i < j
      {
        NewerIsHigher(user, d, e, i, j);
      }
    }

    lemma InboxSize(user: Id)
      requires Valid() && OneTimeEach(handled)
      ensures |Inbox(user)| == Min(1000, |set d | d in handled && Reached(user, d) :: d.event.postId|)
    {
      InboxIsTopOfReaching(user);
      ReachingSize(user);
    }

    lemma NewerIsHigher(user: Id, d: Delivery, e: Delivery, i: int, j: int)
      requires Valid() && OneTimeEach(handled) && Reached(user, d) && Reached(user, e)
      requires d.event.createdAt < e.event.createdAt
      requires StandsAt(user, d.event.postId, i) && StandsAt(user, e.event.postId, j)
      ensures i < j
    {
      InboxIsTopOfReaching(user);
      EntryIsOf(user, d, i);
      EntryIsOf(user, e, j);
    }

    // An entry of the inbox is that of a delivery that reached the user.
    lemma EntryReached(user: Id, i: nat) returns (d: Delivery)
      requires Valid() && OneTimeEach(handled) && i < |Inbox(user)|
      ensures Reached(user, d) && EntryOf(d.event) == Inbox(user)[i]
    {
      InboxIsTopOfReaching(user);
      assert Inbox(user)[i] in Elems(Inbox(user));
      d :| d in handled && Reaches(d, user, threshold) && EntryOf(d.event) == Inbox(user)[i];
    }

    lemma EntryIsOf(user: Id, d: Delivery, i: nat)
      requires Valid() && OneTimeEach(handled) && Reached(user, d) && StandsAt(user, d.event.postId, i)
      ensures Inbox(user)[i] == EntryOf(d.event)
    {
      var c := EntryReached(user, i);
    }

    lemma MissingIsOlder(user: Id, d: Delivery, e: Delivery)
      requires Valid() && OneTimeEach(handled) && Reached(user, d) && Reached(user, e)
      requires HasPost(user, d.event.postId) && !HasPost(user, e.event.postId)
      ensures e.event.createdAt <= d.event.createdAt
    {
      var z := Inbox(user);
      InboxIsTopOfReaching(user);
      var i :| StandsAt(user, d.event.postId, i);
      EntryIsOf(user, d, i);
      assert forall k :: 0 <= k < |z| && z[k].id == e.event.postId ==> StandsAt(user, e.event.postId, k);
      assert EntryOf(e.event) in Reaching(user, handled, threshold) && EntryOf(e.event) !in z;
      assert Below(EntryOf(e.event), z[i]);
    }

    // Entries and post ids correspond.
    lemma ReachingSize(user: Id)
      requires OneTimeEach(handled)
      ensures |Reaching(user, handled, threshold)| == |set d | d in handled && Reached(user, d) :: d.event.postId|
    {
      var s, ids := Reaching(user, handled, threshold), set d | d in handled && Reached(user, d) :: d.event.postId;
      forall e | e in s ensures e.id in ids {
        var d :| d in handled && Reaches(d, user, threshold) && EntryOf(d.event) == e;
        assert Reached(user, d);
      }
      InjectionSize(s, ids, (e: Entry) => e.id);
      forall id | id in ids ensures exists e :: e in s && e.id == id {
        var d :| d in handled && Reached(user, d) && d.event.postId == id;
        assert EntryOf(d.event) in s;
      }
      SurjectionSize(s, ids, (e: Entry) => e.id);
    }
  }

  // A post carries the same created_at whenever it is delivered.
  ghost predicate OneTimeEach(ds: seq<Delivery>) {
    forall d, e :: d in ds && e in ds && d.event.postId == e.event.postId ==> d.event.createdAt == e.event.createdAt
  }

  lemma DeliveryExecutes(user: Id, ds: seq<Delivery>, d: Delivery, threshold: int)
    ensures var before := ExecAll([], CommandsFor(user, ds, threshold));
            ExecAll([], CommandsFor(user, ds + [d], threshold)) ==
            if Reaches(d, user, threshold) then Received(before, EntryOf(d.event)) else before
  {
    assert (ds + [d])[..|ds|] == ds;
    var cs := CommandsFor(user, ds, threshold);
    assert cs + [] == cs;
    var all := cs + [Add(EntryOf(d.event)), TrimInbox];
    assert all[..|all| - 1] == cs + [Add(EntryOf(d.event))];
    assert (cs + [Add(EntryOf(d.event))])[..|cs|] == cs;
  }
}
