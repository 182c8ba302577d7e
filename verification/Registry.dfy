/** The connection manager's three maps, as a value: who is connected, who is in which room, and the room each
    connection was last bound to. */
module Registry {
  import opened Collections

  type Id = string

  datatype Registry<C> = Registry(conns: map<Id, C>, rooms: map<Id, map<Id, C>>, connRoom: map<Id, Id>)

  function Empty<C>(): Registry<C> { Registry(map[], map[], map[]) }

  function Push<C>(r: Registry<C>, id: Id, c: C): Registry<C> { r.(conns := r.conns[id := c]) }

  // The room of a connection; unbound connections and the empty room both read "".
  function RoomOf<C>(r: Registry<C>, id: Id): Id { Get(r.connRoom, id, "") }

  function Bind<C>(r: Registry<C>, room: Id, id: Id, c: C): Registry<C> {
    r.(rooms := r.rooms[room := Get(r.rooms, room, map[])[id := c]], connRoom := r.connRoom[id := room])
  }

  function Leave<C>(rooms: map<Id, map<Id, C>>, room: Id, id: Id): map<Id, map<Id, C>> {
    if room !in rooms then rooms
    else if Remove(rooms[room], id) == map[] then Remove(rooms, room)
    else rooms[room := Remove(rooms[room], id)]
  }

  function Pop<C>(r: Registry<C>, id: Id): Registry<C> {
    var room := RoomOf(r, id);
    if room == "" then r.(conns := Remove(r.conns, id))
    else Registry(Remove(r.conns, id), Leave(r.rooms, room, id), Remove(r.connRoom, id))
  }

  ghost predicate InRoom<C>(r: Registry<C>, room: Id, id: Id) { room in r.rooms && id in r.rooms[room] }

  ghost function RoomsWith<C>(r: Registry<C>, id: Id): set<Id> { set room | room in r.rooms && id in r.rooms[room] }

  /** What every sequence of Push, Bind and Pop keeps: no room is empty, and a connection is in its room. */
  ghost predicate Linked<C>(r: Registry<C>) {
    && (forall room :: room in r.rooms ==> r.rooms[room] != map[])
    && (forall id :: id in r.connRoom ==> InRoom(r, r.connRoom[id], id))
  }

  /** The rooms are exactly the inverse of connRoom. */
  ghost predicate Inverse<C>(r: Registry<C>) {
    && Linked(r)
    && (forall room, id :: InRoom(r, room, id) ==> id in r.connRoom && r.connRoom[id] == room)
  }

  lemma PushKeeps<C>(r: Registry<C>, id: Id, c: C)
    ensures Linked(r) ==> Linked(Push(r, id, c))
    ensures Inverse(r) ==> Inverse(Push(r, id, c))
  {
    forall room, x ensures InRoom(Push(r, id, c), room, x) <==> InRoom(r, room, x) {}
  }

  lemma BindRooms<C>(r: Registry<C>, room: Id, id: Id, c: C)
    ensures forall q, x :: InRoom(Bind(r, room, id, c), q, x) <==> InRoom(r, q, x) || (q == room && x == id)
  {
  }

  lemma BindTwice<C>(r: Registry<C>, room: Id, id: Id, c: C)
    ensures Bind(Bind(r, room, id, c), room, id, c) == Bind(r, room, id, c)
  {
    var m := Get(r.rooms, room, map[])[id := c];
    assert m[id := c] == m;
    var rooms := r.rooms[room := m];
    assert rooms[room := m] == rooms;
    assert r.connRoom[id := room][id := room] == r.connRoom[id := room];
  }

  lemma BindKeepsLinked<C>(r: Registry<C>, room: Id, id: Id, c: C)
    requires Linked(r)
    ensures Linked(Bind(r, room, id, c))
  {
    BindRooms(r, room, id, c);
    var s := Bind(r, room, id, c);
    assert id in s.rooms[room];
    forall x | x in s.connRoom ensures InRoom(s, s.connRoom[x], x) {
      if x != id { assert InRoom(r, r.connRoom[x], x); }
    }
  }

  /** Binding keeps the maps inverse exactly when the connection is unbound or bound to that room already: the
      source never takes a connection out of an earlier room. */
  lemma BindKeepsInverseIff<C>(r: Registry<C>, room: Id, id: Id, c: C)
    requires Inverse(r)
    ensures Inverse(Bind(r, room, id, c)) <==> id !in r.connRoom || r.connRoom[id] == room
  {
    BindRooms(r, room, id, c);
    BindKeepsLinked(r, room, id, c);
    if id in r.connRoom && r.connRoom[id] != room {
      assert InRoom(Bind(r, room, id, c), r.connRoom[id], id);
    }
  }

  lemma PopRooms<C>(r: Registry<C>, id: Id)
    requires Linked(r)
    ensures forall q, x :: InRoom(Pop(r, id), q, x) <==>
      InRoom(r, q, x) && !(x == id && RoomOf(r, id) != "" && q == RoomOf(r, id))
  {
    var s, room := Pop(r, id), RoomOf(r, id);
    if room != "" && room in r.rooms {
      var left := Remove(r.rooms[room], id);
      forall q, x ensures InRoom(s, q, x) <==> InRoom(r, q, x) && !(x == id && q == room) {
        if q == room { assert x in left <==> x in r.rooms[room] && x != id; }
      }
    }
  }

  lemma PopKeepsLinked<C>(r: Registry<C>, id: Id)
    requires Linked(r)
    ensures Linked(Pop(r, id))
  {
    PopRooms(r, id);
    var s := Pop(r, id);
    forall x | x in s.connRoom ensures InRoom(s, s.connRoom[x], x) {
      assert InRoom(r, r.connRoom[x], x);
    }
  }

  /** Popping keeps the maps inverse, and takes the connection out of every room unless it sits in the room with
      the empty name. */
  lemma PopKeepsInverse<C>(r: Registry<C>, id: Id)
    requires Inverse(r)
    ensures Inverse(Pop(r, id))
    ensures RoomsWith(Pop(r, id), id) == {} && id !in Pop(r, id).connRoom
      <==> !(id in r.connRoom && r.connRoom[id] == "")
  {
    PopRooms(r, id);
    PopKeepsLinked(r, id);
    var s := Pop(r, id);
    forall room, x | InRoom(s, room, x) ensures x in s.connRoom && s.connRoom[x] == room {
      assert InRoom(r, room, x);
    }
    if !(id in r.connRoom && r.connRoom[id] == "") {
      forall room | room in s.rooms ensures id !in s.rooms[room] {
        assert id in s.rooms[room] <==> InRoom(s, room, id);
      }
    }
  }

  /** A room's members are the connections bound to it, and over all rooms they add up to the bound connections. */
  lemma InverseCounts<C>(r: Registry<C>)
    requires Inverse(r)
    ensures forall room :: room in r.rooms ==>
      r.rooms[room].Keys == set id | id in r.connRoom && r.connRoom[id] == room
    ensures |set room, id | room in r.rooms && id in r.rooms[room] :: (id, room)| == |r.connRoom|
  {
    forall room | room in r.rooms
      ensures r.rooms[room].Keys == set id | id in r.connRoom && r.connRoom[id] == room
    {
      forall id ensures id in r.rooms[room] <==> id in r.connRoom && r.connRoom[id] == room {
        assert InRoom(r, room, id) <==> id in r.rooms[room];
        if id in r.connRoom { assert InRoom(r, r.connRoom[id], id); }
      }
    }
    var places := set room, id | room in r.rooms && id in r.rooms[room] :: (id, room);
    forall p ensures p in places <==> p in r.connRoom.Items {
      var (id, room) := p;
      if p in places { assert InRoom(r, room, id); }
      if p in r.connRoom.Items { assert InRoom(r, r.connRoom[id], id); }
    }
    assert places == r.connRoom.Items;
  }

  /** Push, Bind, Pop of a newcomer leaves everything as it was. */
  lemma BindPopUndone<C>(r: Registry<C>, room: Id, id: Id, c: C)
    requires Linked(r) && room != "" && id !in r.conns && id !in r.connRoom && RoomsWith(r, id) == {}
    ensures Pop(Bind(Push(r, id, c), room, id, c), id) == r
  {
    var s := Bind(Push(r, id, c), room, id, c);
    assert RoomOf(s, id) == room;
    UpdateUndone(r.conns, id, c);
    UpdateUndone(r.connRoom, id, room);
    if room in r.rooms { assert room in RoomsWith(r, id) <==> id in r.rooms[room]; }
    LeaveUndone(r.rooms, room, id, c);
  }

  lemma UpdateUndone<K, V>(m: map<K, V>, k: K, v: V)
    requires k !in m
    ensures Remove(m[k := v], k) == m
  {
  }

  lemma LeaveUndone<C>(rooms: map<Id, map<Id, C>>, room: Id, id: Id, c: C)
    requires room in rooms ==> id !in rooms[room] && rooms[room] != map[]
    ensures Leave(rooms[room := Get(rooms, room, map[])[id := c]], room, id) == rooms
  {
    UpdateUndone(Get(rooms, room, map[]), id, c);
  }
}
