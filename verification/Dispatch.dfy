/** Frame dispatch: authentication binds a connection to its user's room, messages go to the business layer under
    the user the connection authenticated as. */
module Dispatch {
  import opened Collections
  import opened R = Registry
  import opened Connection
  import opened ConnManager

  const HEADER_SIZE: nat := 2
  const HEARTBEAT: Frame := [0, 1]
  const AUTH: Frame := [0, 2]
  const MESSAGE: Frame := [0, 3]
  const HEARTBEAT_REPLY: Frame := [0, 0]
  const AUTH_FAILED: Frame := [0, 0]
  const AUTH_OK: Frame := [0, 1]

  // What Business.OnAuth answers.
  datatype Verdict = Verdict(userId: Id, failed: bool) {
    predicate Granted() { !failed && userId != "" }
  }

  /** The calls made to the business layer. */
  datatype Call = OnAuth(conn: Id, payload: Frame) | OnMessage(conn: Id, userId: Id, payload: Frame)

  function Header(raw: Frame): Frame { if |raw| < HEADER_SIZE then [] else raw[..HEADER_SIZE] }

  function Payload(raw: Frame): Frame { if |raw| < HEADER_SIZE then [] else raw[HEADER_SIZE..] }

  // The registry and the business calls after one frame.
  function Handle<C>(r: Registry<C>, id: Id, c: C, raw: Frame, verdict: Verdict): (Registry<C>, seq<Call>) {
    if Header(raw) == AUTH then
      (if verdict.Granted() then Bind(r, verdict.userId, id, c) else r, [OnAuth(id, Payload(raw))])
    else if Header(raw) == MESSAGE && RoomOf(r, id) != "" then
      (r, [OnMessage(id, RoomOf(r, id), Payload(raw))])
    else (r, [])
  }

  function Replies(raw: Frame, verdict: Verdict): Option<Frame> {
    if Header(raw) == HEARTBEAT then Some(HEARTBEAT_REPLY)
    else if Header(raw) == AUTH then Some(if verdict.Granted() then AUTH_OK else AUTH_FAILED)
    else None
  }

  // The reply to a frame, byte by byte: none, or one.
  ghost function Answers(raw: Frame, verdict: Verdict): seq<Frame> {
    if |raw| < 2 || raw[0] != 0 then []
    else if raw[1] == 1 then [[0, 0]]
    else if raw[1] == 2 then [if !verdict.failed && verdict.userId != "" then [0, 1] else [0, 0]]
    else []
  }

  lemma RepliesAre(raw: Frame, verdict: Verdict)
    ensures Answers(raw, verdict) == match Replies(raw, verdict) case Some(reply) => [reply] case None => []
  {
    if |raw| >= 2 { assert raw[..2] == [raw[0], raw[1]]; }
  }

  class Core {
    const manager: Manager
    ghost var calls: seq<Call>

    constructor (manager: Manager)
      ensures this.manager == manager && calls == []
    {
      this.manager := manager;
      calls := [];
    }

    /** `verdict` is what OnAuth would answer to this frame's payload. */
    method Dispatch(conn: Conn, raw: Frame, verdict: Verdict)
      modifies this, manager, conn`send
      ensures var after := Handle(old(manager.View()), conn.id, conn, raw, verdict);
              manager.View() == after.0 && calls == old(calls) + after.1
      ensures conn.send == match Replies(raw, verdict)
                           case Some(reply) => old(conn.Queued(reply))
                           case None => old(conn.send)
      ensures conn.send == if Answers(raw, verdict) != [] && !conn.closed && |old(conn.send)| < 256
                           then old(conn.send) + Answers(raw, verdict) else old(conn.send)
      ensures old(manager.Keyed()) ==> manager.Keyed()
    {
      RepliesAre(raw, verdict);
      if |raw| < HEADER_SIZE { return; }
      var header, payload := raw[..HEADER_SIZE], raw[HEADER_SIZE..];
      if header == HEARTBEAT {
        var _ := conn.Write(HEARTBEAT_REPLY);
      } else if header == AUTH {
        HandleAuth(conn, payload, verdict);
      } else if header == MESSAGE {
        HandleMessage(conn, payload);
      }
    }

    /** What the handlers of all connections do: register, dispatch a frame, remove. */
    method Take(i: Input<Conn>)
      requires i.conn.id == i.id
      modifies this, manager, i.conn`send
      ensures manager.View() == Step(old(manager.View()), i).0
      ensures calls == old(calls) + Step(old(manager.View()), i).1
      ensures old(manager.Keyed()) ==> manager.Keyed()
    {
      match i
      case Opened(_, conn) => manager.Push(conn);
      case Arrived(_, conn, raw, verdict) => Dispatch(conn, raw, verdict);
      case Ended(_, conn) => manager.Pop(conn);
    }

    method HandleAuth(conn: Conn, payload: Frame, verdict: Verdict)
      modifies this, manager, conn`send
      ensures calls == old(calls) + [OnAuth(conn.id, payload)]
      ensures manager.View() ==
        if verdict.Granted() then Bind(old(manager.View()), verdict.userId, conn.id, conn) else old(manager.View())
      ensures conn.send == old(conn.Queued(if verdict.Granted() then AUTH_OK else AUTH_FAILED))
      ensures old(manager.Keyed()) ==> manager.Keyed()
    {
      calls := calls + [OnAuth(conn.id, payload)];
      if verdict.failed || verdict.userId == "" {
        var _ := conn.Write(AUTH_FAILED);
        return;
      }
      manager.Bind(verdict.userId, conn);
      var _ := conn.Write(AUTH_OK);
    }

    method HandleMessage(conn: Conn, payload: Frame)
      modifies this
      ensures calls == old(calls) + if manager.RoomOf(conn.id) == "" then []
                                    else [OnMessage(conn.id, manager.RoomOf(conn.id), payload)]
    {
      var userId := manager.RoomOf(conn.id);
      if userId == "" { return; }
      calls := calls + [OnMessage(conn.id, userId, payload)];
    }

    /** A broadcast is one message frame to every open member of the room with space in its queue. */
    method Push(roomId: string, data: Frame) returns (delivered: nat)
      requires manager.Keyed()
      modifies manager.Members(roomId)`send
      ensures forall c :: c in manager.Members(roomId) ==>
        c.send == if !c.closed && |old(c.send)| < 256 then old(c.send) + [[0, 3] + data] else old(c.send)
      ensures delivered == |old(manager.AcceptingIds(roomId))|
    {
      delivered := manager.PushToRoom(roomId, MESSAGE + data);
    }
  }

  // ----- All connections together -----

  /** One step of the server: a connection is registered, one of its frames arrives, or it is removed. */
  datatype Input<C> = Opened(id: Id, conn: C) | Arrived(id: Id, conn: C, raw: Frame, verdict: Verdict) | Ended(id: Id, conn: C)

  function Step<C>(r: Registry<C>, i: Input<C>): (Registry<C>, seq<Call>) {
    match i
    case Opened(id, c) => (R.Push(r, id, c), [])
    case Arrived(id, c, raw, verdict) => Handle(r, id, c, raw, verdict)
    case Ended(id, c) => (Pop(r, id), [])
  }

  function Steps<C>(r: Registry<C>, inputs: seq<Input<C>>): Registry<C> {
    if inputs == [] then r else Step(Steps(r, inputs[..|inputs| - 1]), inputs[|inputs| - 1]).0
  }

  function After<C>(inputs: seq<Input<C>>): Registry<C> { Steps(Empty(), inputs) }

  // The calls that input k causes.
  function CallsAt<C>(inputs: seq<Input<C>>, k: nat): seq<Call>
    requires k < |inputs|
  {
    Step(After(inputs[..k]), inputs[k]).1
  }

  predicate Authenticates<C>(i: Input<C>, id: Id) {
    i.Arrived? && i.id == id && |i.raw| >= 2 && i.raw[..2] == [0, 2] && !i.verdict.failed && i.verdict.userId != ""
  }

  predicate Ends<C>(i: Input<C>, id: Id) { i.Ended? && i.id == id }

  /** The user of the connection's most recent successful authentication, if it has not ended since. */
  function LastUser<C>(inputs: seq<Input<C>>, id: Id): Id {
    if inputs == [] then ""
    else
      var i := inputs[|inputs| - 1];
      if Authenticates(i, id) then i.verdict.userId
      else if Ends(i, id) then ""
      else LastUser(inputs[..|inputs| - 1], id)
  }

  lemma {:induction false} RoomIsLastUser<C>(inputs: seq<Input<C>>, id: Id)
    ensures RoomOf(After(inputs), id) == LastUser(inputs, id)
  {
    if inputs != [] { RoomIsLastUser(inputs[..|inputs| - 1], id); }
  }

  /** In every interleaving: OnMessage(conn, user, payload) is called on input k if and only if that input is a
      message frame of the connection carrying that payload, and the user, not empty, is the one of its most
      recent successful authentication. */
  lemma MessageIff<C>(inputs: seq<Input<C>>, k: nat, id: Id, userId: Id, payload: Frame)
    requires k < |inputs|
    ensures OnMessage(id, userId, payload) in CallsAt(inputs, k) <==>
      && inputs[k].Arrived? && inputs[k].id == id
      && inputs[k].raw == [0, 3] + payload
      && userId != "" && userId == LastUser(inputs[..k], id)
  {
    RoomIsLastUser(inputs[..k], id);
    if inputs[k].Arrived? && Header(inputs[k].raw) == MESSAGE {
      var raw := inputs[k].raw;
      assert raw == raw[..HEADER_SIZE] + raw[HEADER_SIZE..];
      assert (MESSAGE + payload)[HEADER_SIZE..] == payload;
      assert RoomOf(After(inputs[..k]), id) == LastUser(inputs[..k], id);
    }
  }

  /** Every authentication frame, and no other, is put to OnAuth, with what follows its header. */
  lemma AuthIff<C>(inputs: seq<Input<C>>, k: nat, id: Id, payload: Frame)
    requires k < |inputs|
    ensures OnAuth(id, payload) in CallsAt(inputs, k) <==>
      inputs[k].Arrived? && inputs[k].id == id && inputs[k].raw == [0, 2] + payload
  {
    if inputs[k].Arrived? && Header(inputs[k].raw) == AUTH {
      assert inputs[k].raw == inputs[k].raw[..HEADER_SIZE] + inputs[k].raw[HEADER_SIZE..];
    }
    assert ([0, 2] + payload)[HEADER_SIZE..] == payload && ([0, 2] + payload)[..HEADER_SIZE] == [0, 2];
  }

  // The connection last opened under the id, if it has not ended since.
  function Current<C>(inputs: seq<Input<C>>, id: Id): Option<C> {
    if inputs == [] then None
    else
      var i := inputs[|inputs| - 1];
      if i.Opened? && i.id == id then Some(i.conn)
      else if Ends(i, id) then None
      else Current(inputs[..|inputs| - 1], id)
  }

  /** The registry holds, under its id, every connection that was opened and has not ended, and no other. */
  lemma {:induction false} ConnsAreCurrent<C>(inputs: seq<Input<C>>, id: Id)
    ensures var conns := After(inputs).conns;
            Current(inputs, id) == if id in conns then Some(conns[id]) else None
  {
    if inputs != [] { ConnsAreCurrent(inputs[..|inputs| - 1], id); }
  }

  /** ... and such an authentication really happened: some earlier frame of the same connection was granted that
      user, and neither another grant nor the end of the connection came in between. */
  lemma {:induction false} LastUserWitness<C>(inputs: seq<Input<C>>, id: Id) returns (k: nat)
    requires LastUser(inputs, id) != ""
    ensures k < |inputs| && Authenticates(inputs[k], id) && inputs[k].verdict.userId == LastUser(inputs, id)
    ensures forall j :: k < j < |inputs| ==> !Authenticates(inputs[j], id) && !Ends(inputs[j], id)
  {
    k := |inputs| - 1;
    if !Authenticates(inputs[k], id) { k := LastUserWitness(inputs[..k], id); }
  }

  lemma {:induction false} AlwaysLinked<C>(inputs: seq<Input<C>>)
    ensures Linked(After(inputs))
  {
    if inputs != [] {
      AlwaysLinked(inputs[..|inputs| - 1]);
      StepKeepsLinked(After(inputs[..|inputs| - 1]), inputs[|inputs| - 1]);
    }
  }

  lemma StepKeepsLinked<C>(r: Registry<C>, i: Input<C>)
    requires Linked(r)
    ensures Linked(Step(r, i).0)
  {
    match i {
      case Opened(id, c) => PushKeeps(r, id, c);
      case Arrived(id, c, raw, verdict) =>
        if Authenticates(i, id) { BindKeepsLinked(r, verdict.userId, id, c); }
      case Ended(id, c) => PopKeepsLinked(r, id);
    }
  }

  // A connection that authenticates again, while it lasts, does so as the same user.
  ghost predicate OneUserEach<C>(inputs: seq<Input<C>>) {
    forall k :: 0 <= k < |inputs| && inputs[k].Arrived? && Authenticates(inputs[k], inputs[k].id) ==>
      LastUser(inputs[..k], inputs[k].id) in {"", inputs[k].verdict.userId}
  }

  /** Then the rooms are always exactly the inverse of the bindings: a user's room holds the connections
      authenticated as that user, and only those. */
  lemma {:induction false} AlwaysInverse<C>(inputs: seq<Input<C>>)
    requires OneUserEach(inputs)
    ensures Inverse(After(inputs))
    ensures forall id, userId :: InRoom(After(inputs), userId, id) <==> userId != "" && LastUser(inputs, id) == userId
  {
    if inputs != [] {
      var before, i := inputs[..|inputs| - 1], inputs[|inputs| - 1];
      var r := After(before);
      forall k | 0 <= k < |before| ensures before[..k] == inputs[..k] {}
      AlwaysInverse(before);
      match i {
        case Opened(id, c) => PushKeeps(r, id, c);
        case Arrived(id, c, raw, verdict) =>
          if Authenticates(i, id) {
            RoomIsLastUser(before, id);
            assert id in r.connRoom ==> InRoom(r, r.connRoom[id], id);
            BindKeepsInverseIff(r, verdict.userId, id, c);
          }
        case Ended(id, c) => PopKeepsInverse(r, id);
      }
    }
    RoomsAreLastUsers(inputs);
  }

  /** The hypothesis is needed: the first connection to authenticate as a second user breaks the inverse. */
  lemma SecondUserBreaksInverse<C>(inputs: seq<Input<C>>, id: Id, c: C, raw: Frame, verdict: Verdict)
    requires OneUserEach(inputs) && Header(raw) == AUTH && verdict.Granted()
    ensures Inverse(After(inputs + [Arrived(id, c, raw, verdict)])) <==>
      LastUser(inputs, id) in {"", verdict.userId}
  {
    AlwaysInverse(inputs);
    RoomIsLastUser(inputs, id);
    var r := After(inputs);
    assert (inputs + [Arrived(id, c, raw, verdict)])[..|inputs|] == inputs;
    assert id in r.connRoom ==> InRoom(r, r.connRoom[id], id);
    BindKeepsInverseIff(r, verdict.userId, id, c);
  }

  lemma RoomsAreLastUsers<C>(inputs: seq<Input<C>>)
    requires Inverse(After(inputs))
    requires forall id :: id in After(inputs).connRoom ==> After(inputs).connRoom[id] != ""
    ensures forall id, userId :: InRoom(After(inputs), userId, id) <==> userId != "" && LastUser(inputs, id) == userId
  {
    var r := After(inputs);
    forall id, userId ensures InRoom(r, userId, id) <==> userId != "" && LastUser(inputs, id) == userId {
      RoomIsLastUser(inputs, id);
      if id in r.connRoom { assert InRoom(r, r.connRoom[id], id); }
    }
  }
}
