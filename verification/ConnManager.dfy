/** The connection manager: each method moves the three maps as the Registry value says. */
module ConnManager {
  import opened Collections
  import R = Registry
  import opened Connection

  // The connections that a message would reach.
  ghost function Accepting(cs: set<Conn>): set<Conn>
    reads cs
  {
    set c | c in cs && c.Accepts()
  }

  /** The connections are written to one after the other, in no particular order. */
  method WriteAll(cs: set<Conn>, data: Frame) returns (delivered: nat)
    modifies cs`send
    ensures forall c :: c in cs ==> c.send == old(c.Queued(data))
    ensures delivered == |old(Accepting(cs))|
  {
    delivered := 0;
    var todo := cs;
    ghost var accepting := Accepting(cs);
    ghost var sent, queued := map c | c in cs :: c.send, map c | c in cs :: c.Queued(data);
    assert accepting - todo == {};
    while todo != {}
      invariant todo <= cs && Written(cs, todo, sent, queued)
      invariant delivered == |accepting - todo|
      decreases todo
    {
      var c :| c in todo;
      OneLessTodo(accepting, todo, c);
      assert c.Queued(data) == queued[c] && (c.Accepts() <==> c in accepting);
      var got := WriteNext(cs, todo, c, data, sent, queued);
      todo := todo - {c};
      delivered := delivered + got;
    }
    assert accepting - todo == accepting;
  }

  // One write takes one connection out of those yet to be written to.
  method WriteNext(ghost cs: set<Conn>, ghost todo: set<Conn>, c: Conn, data: Frame,
                   ghost sent: map<Conn, seq<Frame>>, ghost queued: map<Conn, seq<Frame>>) returns (got: nat)
    requires cs <= sent.Keys && cs <= queued.Keys && c in todo && todo <= cs
    requires Written(cs, todo, sent, queued) && c.Queued(data) == queued[c]
    modifies c`send
    ensures Written(cs, todo - {c}, sent, queued)
    ensures got == if old(c.Accepts()) then 1 else 0
  {
    var r := c.Write(data);
    got := if r == Sent then 1 else 0;
  }

  // The queues while some connections have yet to be written to.
  ghost predicate Written(cs: set<Conn>, todo: set<Conn>, sent: map<Conn, seq<Frame>>, queued: map<Conn, seq<Frame>>)
    requires cs <= sent.Keys && cs <= queued.Keys
    reads cs
  {
    forall c :: c in cs ==> c.send == if c in todo then sent[c] else queued[c]
  }

  class Manager {
    var conns: map<string, Conn>
    var rooms: map<string, map<string, Conn>>
    var connRoom: map<string, string>

    constructor ()
      ensures View() == R.Empty()
    {
      conns, rooms, connRoom := map[], map[], map[];
    }

    function View(): R.Registry<Conn>
      reads this
    {
      R.Registry(conns, rooms, connRoom)
    }

    // A room is keyed by the ids of its connections.
    ghost predicate Keyed()
      reads this
    {
      forall room, id :: room in rooms && id in rooms[room] ==> rooms[room][id].id == id
    }

    method Push(c: Conn)
      modifies this
      ensures View() == R.Push(old(View()), c.id, c) && (old(Keyed()) ==> Keyed())
    {
      conns := conns[c.id := c];
    }

    method Pop(c: Conn)
      modifies this
      ensures View() == R.Pop(old(View()), c.id) && (old(Keyed()) ==> Keyed())
    {
      conns := Remove(conns, c.id);
      var roomId := Get(connRoom, c.id, "");
      if roomId == "" { return; }
      connRoom := Remove(connRoom, c.id);
      LeaveRoom(roomId, c.id);
    }

    // A room that this empties goes.
    method LeaveRoom(roomId: string, connId: string)
      modifies this`rooms
      ensures rooms == R.Leave(old(rooms), roomId, connId) && (old(Keyed()) ==> Keyed())
    {
      if roomId !in rooms { return; }
      var room := Remove(rooms[roomId], connId);
      RemoveUpdated(rooms, roomId, room);
      rooms := rooms[roomId := room];
      if |room| == 0 { rooms := Remove(rooms, roomId); }
    }

    method Bind(roomId: string, c: Conn)
      modifies this
      ensures View() == R.Bind(old(View()), roomId, c.id, c) && (old(Keyed()) ==> Keyed())
    {
      if roomId !in rooms {
        rooms := rooms[roomId := map[]];
      }
      rooms := rooms[roomId := rooms[roomId][c.id := c]];
      connRoom := connRoom[c.id := roomId];
    }

    function RoomOf(connId: string): string
      reads this
    {
      Get(connRoom, connId, "")
    }

    function Members(roomId: string): set<Conn>
      reads this
    {
      if roomId in rooms then rooms[roomId].Values else {}
    }

    method RoomOnline(roomId: string) returns (online: bool, count: nat)
      ensures count == |Get(rooms, roomId, map[])| && (online <==> count > 0)
    {
      if roomId !in rooms { return false, 0; }
      count := |rooms[roomId]|;
      online := count > 0;
    }

    /** Every open member with room in its queue gets the message once, and the count says how many did. */
    method PushToRoom(roomId: string, data: Frame) returns (delivered: nat)
      requires Keyed()
      modifies Members(roomId)`send
      ensures forall c :: c in Members(roomId) ==>
        c.send == if !c.closed && |old(c.send)| < 256 then old(c.send) + [data] else old(c.send)
      ensures delivered == |old(AcceptingIds(roomId))| <= |Get(rooms, roomId, map[])|
    {
      ghost var accepting, ids := Accepting(Members(roomId)), AcceptingIds(roomId);
      if roomId in rooms {
        MembersAreIds(rooms[roomId], accepting);
        assert ids == set id | id in rooms[roomId] && rooms[roomId][id] in accepting;
      }
      delivered := WriteAll(Members(roomId), data);
    }

    // The ids under which the room has a connection that would take a message.
    ghost function AcceptingIds(roomId: string): set<string>
      reads this, Members(roomId)
    {
      set id | roomId in rooms && id in rooms[roomId] && rooms[roomId][id].Accepts()
    }
  }

  /** In a keyed room the members picked are as many as their ids, so no connection is counted or written to twice. */
  lemma MembersAreIds(room: map<string, Conn>, picked: set<Conn>)
    requires (forall id :: id in room ==> room[id].id == id) && picked <= room.Values
    ensures |picked| == |set id | id in room && room[id] in picked| <= |room|
  {
    var ids := set id | id in room && room[id] in picked;
    InjectionSize(ids, picked, id requires id in room => room[id]);
    forall c | c in picked ensures c.id in ids { assert c in room.Values; }
    InjectionSize(picked, ids, (c: Conn) => c.id);
    SubsetSize(ids, room.Keys);
  }
}
