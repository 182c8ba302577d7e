/** The send queue of a WebSocket connection under every interleaving of its writers, its pump and its closers. */
module SendQueue {
  import opened Collections
  import opened Connection

  /** A frame and the Write call that brought it. */
  datatype Item = Item(writer: nat, frame: Frame)

  // A Write before and after its look at the closed flag.
  datatype Writer = Checking(frame: Frame) | Cleared(frame: Frame)

  // The pump between messages, with one in hand, stopped by a failed write, or stopped by cancellation.
  datatype Pump = Waiting | Holding(item: Item) | Failed(item: Item) | Cancelled

  /** How far Close has got, under its lock: flag set, context cancelled, socket closed and lock released. */
  datatype Stage = Open | FlagSet | ContextDone | SocketClosed

  datatype Link = Link(
    queue: seq<Item>, stage: Stage, writers: map<nat, Writer>, pump: Pump,
    accepted: seq<Item>, written: seq<Item>, socketCloses: nat)

  const FRESH := Link([], Open, map[], Waiting, [], [], 0)

  datatype Action =
    | Enter(w: nat, frame: Frame) | Check(w: nat) | Enqueue(w: nat)
    | Receive | WriteOk | WriteFails | SeeDone
    | CloseStep

  function Apply(s: Link, a: Action): Link {
    match a
    case Enter(w, f) => if w in s.writers then s else s.(writers := s.writers[w := Checking(f)])
    case Check(w) =>
      if w !in s.writers || !s.writers[w].Checking? || s.stage.FlagSet? || s.stage.ContextDone? then s
      else if s.stage.Open? then s.(writers := s.writers[w := Cleared(s.writers[w].frame)])
      else s.(writers := Remove(s.writers, w))
    case Enqueue(w) =>
      if w !in s.writers || !s.writers[w].Cleared? then s
      else if |s.queue| < SEND_BUFFER then
        var item := Item(w, s.writers[w].frame);
        s.(queue := s.queue + [item], accepted := s.accepted + [item], writers := Remove(s.writers, w))
      else s.(writers := Remove(s.writers, w))
    case Receive =>
      if s.pump.Waiting? && s.queue != [] then s.(pump := Holding(s.queue[0]), queue := s.queue[1..]) else s
    case WriteOk =>
      if s.pump.Holding? && !s.stage.SocketClosed? then
        s.(pump := Waiting, written := s.written + [s.pump.item])
      else s
    case WriteFails => if s.pump.Holding? then s.(pump := Failed(s.pump.item)) else s
    case SeeDone =>
      if s.pump.Waiting? && (s.stage.ContextDone? || s.stage.SocketClosed?) then s.(pump := Cancelled) else s
    case CloseStep =>
      match s.stage
      case Open => s.(stage := FlagSet)
      case FlagSet => s.(stage := ContextDone)
      case ContextDone => s.(stage := SocketClosed, socketCloses := s.socketCloses + 1)
      case SocketClosed => s
  }

  function Run(s: Link, actions: seq<Action>): Link {
    if actions == [] then s else Apply(Run(s, actions[..|actions| - 1]), actions[|actions| - 1])
  }

  function InHand(s: Link): seq<Item> {
    if s.pump.Holding? || s.pump.Failed? then [s.pump.item] else []
  }

  /** Nothing accepted is lost, duplicated or reordered; the buffer is bounded; the socket is closed once. */
  ghost predicate Good(s: Link) {
    && s.accepted == s.written + InHand(s) + s.queue
    && |s.queue| <= 256
    && s.socketCloses == (if s.stage.SocketClosed? then 1 else 0)
  }

  lemma ApplyGood(s: Link, a: Action)
    requires Good(s)
    ensures Good(Apply(s, a))
  {
    if a.Enqueue? && a.w in s.writers && s.writers[a.w].Cleared? && |s.queue| < SEND_BUFFER {
      var item := Item(a.w, s.writers[a.w].frame);
      assert s.written + InHand(s) + s.queue + [item] == s.written + InHand(s) + (s.queue + [item]);
    }
    if a.Receive? && s.pump.Waiting? && s.queue != [] {
      assert s.queue == [s.queue[0]] + s.queue[1..];
      assert s.written + [] + s.queue == s.written + [s.queue[0]] + s.queue[1..];
    }
    if a.WriteOk? && s.pump.Holding? {
      assert s.written + [s.pump.item] + s.queue == s.written + [s.pump.item] + [] + s.queue;
    }
  }

  /** In every interleaving, what has gone out is a prefix of what was accepted, in order, and what is missing is
      in hand or queued. */
  lemma {:induction false} WrittenIsPrefix(actions: seq<Action>)
    ensures Good(Run(FRESH, actions))
    ensures Run(FRESH, actions).written <= Run(FRESH, actions).accepted
  {
    if actions != [] {
      WrittenIsPrefix(actions[..|actions| - 1]);
      ApplyGood(Run(FRESH, actions[..|actions| - 1]), actions[|actions| - 1]);
    }
  }

  // The writes that were let through and have not reached the queue yet.
  ghost function Pending(s: Link): set<Item> {
    set w | w in s.writers && s.writers[w].Cleared? :: Item(w, s.writers[w].frame)
  }

  /** Once the flag is set, the only writes still accepted are those that had looked at it before: a Write whose
      check follows Close is refused. */
  lemma {:induction false} OnlyPendingAccepted(s: Link, actions: seq<Action>)
    requires !s.stage.Open?
    ensures var t := Run(s, actions);
            && !t.stage.Open? && s.accepted <= t.accepted && Pending(t) <= Pending(s)
            && forall k :: |s.accepted| <= k < |t.accepted| ==> t.accepted[k] in Pending(s)
  {
    if actions != [] {
      var t, a := Run(s, actions[..|actions| - 1]), actions[|actions| - 1];
      OnlyPendingAccepted(s, actions[..|actions| - 1]);
      if a.Enqueue? && a.w in t.writers && t.writers[a.w].Cleared? {
        assert Item(a.w, t.writers[a.w].frame) in Pending(t);
      }
    }
  }

  /** ... and each of them at most once, so no more than were pending. */
  lemma {:induction false} LateAcceptsBounded(s: Link, actions: seq<Action>)
    requires !s.stage.Open?
    ensures var t := Run(s, actions);
            |t.accepted| + |Pending(t)| <= |s.accepted| + |Pending(s)|
  {
    if actions != [] {
      var before, a := actions[..|actions| - 1], actions[|actions| - 1];
      var t := Run(s, before);
      LateAcceptsBounded(s, before);
      OnlyPendingAccepted(s, before);
      OnlyPendingAccepted(t, [a]);
      assert [a][..0] == [];
      assert Run(t, [a]) == Apply(t, a);
      if a.Enqueue? && a.w in t.writers && t.writers[a.w].Cleared? {
        var item := Item(a.w, t.writers[a.w].frame);
        assert item in Pending(t);
        SubsetSize(Pending(Apply(t, a)), Pending(t) - {item});
      } else {
        SubsetSize(Pending(Apply(t, a)), Pending(t));
      }
    }
  }

  /** After the socket is closed, or the pump has stopped, nothing more goes out. */
  lemma {:induction false} WrittenIsFinal(s: Link, actions: seq<Action>)
    requires s.stage.SocketClosed? || s.pump.Failed? || s.pump.Cancelled?
    ensures var t := Run(s, actions);
            && t.written == s.written
            && (t.stage.SocketClosed? || t.pump.Failed? || t.pump.Cancelled?)
            && (s.stage.SocketClosed? ==> t.stage.SocketClosed? && t.socketCloses == s.socketCloses)
            && (s.pump.Failed? || s.pump.Cancelled? ==> t.pump == s.pump)
  {
    if actions != [] { WrittenIsFinal(s, actions[..|actions| - 1]); }
  }

  function Drain(n: nat): seq<Action> { if n == 0 then [] else [Receive, WriteOk] + Drain(n - 1) }

  lemma {:induction false} RunConcat(s: Link, a: seq<Action>, b: seq<Action>)
    ensures Run(s, a + b) == Run(Run(s, a), b)
  {
    if b == [] {
      assert a + b == a;
    } else {
      assert (a + b)[..|a + b| - 1] == a + b[..|b| - 1];
      RunConcat(s, a, b[..|b| - 1]);
    }
  }

  /** Left to itself, an idle pump with an open socket writes out everything that was accepted. */
  lemma {:induction false} DrainDelivers(s: Link)
    requires Good(s) && s.pump.Waiting? && !s.stage.SocketClosed?
    ensures Run(s, Drain(|s.queue|)).written == s.accepted && Run(s, Drain(|s.queue|)).queue == []
    decreases |s.queue|
  {
    if s.queue != [] {
      var t := Apply(Apply(s, Receive), WriteOk);
      ApplyGood(s, Receive);
      ApplyGood(Apply(s, Receive), WriteOk);
      var pair := [Receive, WriteOk];
      assert pair[..1] == [Receive] && [Receive][..0] == [];
      assert Run(s, [Receive]) == Apply(s, Receive);
      assert Run(s, pair) == t;
      RunConcat(s, pair, Drain(|s.queue| - 1));
      DrainDelivers(t);
    }
  }

  // The three steps of a Write.
  function Write(w: nat, f: Frame): seq<Action> { [Enter(w, f), Check(w), Enqueue(w)] }

  function Frames(items: seq<Item>): (r: seq<Frame>)
    ensures |r| == |items| && forall i :: 0 <= i < |r| ==> r[i] == items[i].frame
  {
    seq(|items|, i requires 0 <= i < |items| => items[i].frame)
  }

  lemma RunThree(s: Link, a: Action, b: Action, c: Action)
    ensures Run(s, [a, b, c]) == Apply(Apply(Apply(s, a), b), c)
  {
    assert [a, b, c][..2] == [a, b] && [a, b][..1] == [a] && [a][..0] == [];
    assert Run(s, [a]) == Apply(s, a) && Run(s, [a, b]) == Apply(Run(s, [a]), b);
  }

  /** A Write that nothing interrupts does to the queue what Conn.Write does to `send`: the frame goes to the end if
      the connection is open and fewer than 256 are queued. */
  lemma UninterruptedWrite(s: Link, w: nat, f: Frame)
    requires w !in s.writers && (s.stage.Open? || s.stage.SocketClosed?)
    ensures var t := Run(s, Write(w, f));
            && Frames(t.queue) == (if s.stage.Open? && |s.queue| < 256 then Frames(s.queue) + [f] else Frames(s.queue))
            && t.writers == s.writers && t.stage == s.stage
  {
    RunThree(s, Enter(w, f), Check(w), Enqueue(w));
  }

  // Writes of these frames, one after the other.
  function Writes(w: nat, frames: seq<Frame>): seq<Action> {
    if frames == [] then [] else Writes(w, frames[..|frames| - 1]) + Write(w, frames[|frames| - 1])
  }

  lemma RunWrites(s: Link, w: nat, frames: seq<Frame>)
    requires frames != []
    ensures var before, last := frames[..|frames| - 1], frames[|frames| - 1];
            Run(s, Writes(w, frames)) == Run(Run(s, Writes(w, before)), Write(w, last))
  {
    RunConcat(s, Writes(w, frames[..|frames| - 1]), Write(w, frames[|frames| - 1]));
  }

  // The queue of an open connection, as frames.
  ghost predicate Queues(t: Link, s: Link, frames: seq<Frame>) {
    Frames(t.queue) == Frames(s.queue) + frames && t.writers == s.writers && t.stage.Open?
  }

  lemma QueuesOn(t: Link, s: Link, w: nat, before: seq<Frame>, last: Frame)
    requires Queues(t, s, before) && w !in s.writers && |s.queue| + |before| < 256
    ensures Queues(Run(t, Write(w, last)), s, before + [last])
  {
    assert |Frames(t.queue)| == |s.queue| + |before|;
    UninterruptedWrite(t, w, last);
    assert Frames(s.queue) + before + [last] == Frames(s.queue) + (before + [last]);
  }

  /** So several of them queue their frames in the order of the calls, as long as there is space. */
  lemma {:induction false} WritesInOrder(s: Link, w: nat, frames: seq<Frame>)
    requires w !in s.writers && s.stage.Open? && |s.queue| + |frames| <= 256
    ensures Queues(Run(s, Writes(w, frames)), s, frames)
  {
    if frames == [] {
      assert Frames(s.queue) + [] == Frames(s.queue);
    } else {
      var before, last := frames[..|frames| - 1], frames[|frames| - 1];
      WritesInOrder(s, w, before);
      RunWrites(s, w, frames);
      QueuesOn(Run(s, Writes(w, before)), s, w, before, last);
      assert frames == before + [last];
    }
  }

  /** Close, left alone, closes the socket, and does so once. */
  lemma CloseOnce(s: Link)
    requires s.stage.Open?
    ensures var t := Run(s, [CloseStep, CloseStep, CloseStep]);
            && t.stage.SocketClosed? && t.socketCloses == s.socketCloses + 1
            && Apply(t, CloseStep) == t && t.queue == s.queue && t.written == s.written
  {
    RunThree(s, CloseStep, CloseStep, CloseStep);
  }
}
