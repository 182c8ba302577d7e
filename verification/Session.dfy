/** The life of one connection among the others: registered, its frames dispatched in order while frames of other
    connections come in between, then removed. */
module Session {
  import opened Collections
  import opened R = Registry
  import opened Connection
  import opened Dispatch

  // The users a connection authenticates as.
  ghost function Users<C>(inputs: seq<Input<C>>, id: Id): set<Id> {
    set i | i in inputs && Authenticates(i, id) :: i.verdict.userId
  }

  ghost predicate AtMostOne(users: set<Id>) { forall u, v :: u in users && v in users ==> u == v }

  ghost predicate Stranger<C>(r: Registry<C>, id: Id) {
    id !in r.conns && id !in r.connRoom && RoomsWith(r, id) == {}
  }

  // While the session of `id` lasts, its inputs are frames of its connection; ids are not used twice at once.
  ghost predicate During<C>(inputs: seq<Input<C>>, id: Id, c: C) {
    forall i :: i in inputs && i.id == id ==> i.Arrived? && i.conn == c
  }

  // What the server takes in besides.
  function Others<C>(inputs: seq<Input<C>>, id: Id): seq<Input<C>> {
    if inputs == [] then []
    else Others(inputs[..|inputs| - 1], id) + if inputs[|inputs| - 1].id == id then [] else [inputs[|inputs| - 1]]
  }

  lemma DuringBefore<C>(inputs: seq<Input<C>>, id: Id, c: C)
    requires inputs != [] && During(inputs, id, c)
    ensures var i := inputs[|inputs| - 1];
            && During(inputs[..|inputs| - 1], id, c) && (i.id == id ==> i.Arrived? && i.conn == c)
            && Users(inputs, id) == Users(inputs[..|inputs| - 1], id) + if Authenticates(i, id) then {i.verdict.userId} else {}
  {
    assert inputs == inputs[..|inputs| - 1] + [inputs[|inputs| - 1]];
  }

  // ----- The rooms a session ends up in -----

  lemma StepRooms<C>(r: Registry<C>, i: Input<C>, id: Id)
    requires Linked(r) && (i.id == id ==> i.Arrived?)
    ensures var s := Step(r, i).0;
            && RoomsWith(s, id) == RoomsWith(r, id) + (if Authenticates(i, id) then {i.verdict.userId} else {})
            && RoomOf(s, id) == if Authenticates(i, id) then i.verdict.userId else RoomOf(r, id)
  {
    var s := Step(r, i).0;
    match i {
      case Opened(x, c) =>
      case Arrived(x, c, raw, verdict) => if Authenticates(i, x) { BindRooms(r, verdict.userId, x, c); }
      case Ended(x, c) => PopRooms(r, x);
    }
    forall room
      ensures room in RoomsWith(s, id) <==> room in RoomsWith(r, id) || (Authenticates(i, id) && room == i.verdict.userId)
    {
      assert room in RoomsWith(s, id) <==> InRoom(s, room, id);
      assert room in RoomsWith(r, id) <==> InRoom(r, room, id);
    }
  }

  lemma {:induction false} SessionRooms<C>(r: Registry<C>, id: Id, c: C, inputs: seq<Input<C>>)
    requires Linked(r) && Stranger(r, id) && During(inputs, id, c)
    ensures var s := Steps(Push(r, id, c), inputs);
            && Linked(s) && RoomsWith(s, id) == Users(inputs, id)
            && (if Users(inputs, id) == {} then RoomOf(s, id) == "" else RoomOf(s, id) in Users(inputs, id))
  {
    if inputs == [] {
      PushKeeps(r, id, c);
      assert RoomsWith(Push(r, id, c), id) == RoomsWith(r, id);
    } else {
      var before, i := inputs[..|inputs| - 1], inputs[|inputs| - 1];
      DuringBefore(inputs, id, c);
      SessionRooms(r, id, c, before);
      StepKeepsLinked(Steps(Push(r, id, c), before), i);
      StepRooms(Steps(Push(r, id, c), before), i, id);
    }
  }

  /** However its frames interleave with everything else, a removed connection stays behind in the rooms of all users
      it authenticated as but the last. */
  lemma SessionLeaves<C>(r: Registry<C>, id: Id, c: C, inputs: seq<Input<C>>)
    requires Linked(r) && Stranger(r, id) && During(inputs, id, c)
    ensures var s := Steps(Push(r, id, c), inputs);
            RoomsWith(Pop(s, id), id) == Users(inputs, id) - {RoomOf(s, id)}
  {
    var s := Steps(Push(r, id, c), inputs);
    SessionRooms(r, id, c, inputs);
    PopRooms(s, id);
    forall room ensures room in RoomsWith(Pop(s, id), id) <==> room in Users(inputs, id) - {RoomOf(s, id)} {
      assert room in RoomsWith(Pop(s, id), id) <==> InRoom(Pop(s, id), room, id);
      assert room in RoomsWith(s, id) <==> InRoom(s, room, id);
    }
  }

  // ----- Other connections notice nothing -----

  lemma PushCommutes<C>(r: Registry<C>, i: Input<C>, id: Id, c: C)
    requires i.id != id
    ensures Step(Push(r, id, c), i).0 == Push(Step(r, i).0, id, c)
  {
    assert Step(Push(r, id, c), i).0.conns == Push(Step(r, i).0, id, c).conns;
  }

  lemma BindCommutes<C>(r: Registry<C>, i: Input<C>, user: Id, id: Id, c: C)
    requires i.id != id
    ensures Step(Bind(r, user, id, c), i).0 == Bind(Step(r, i).0, user, id, c)
  {
    match i {
      case Opened(x, d) =>
      case Arrived(x, d, raw, verdict) => if Authenticates(i, x) { BindsCommute(r, user, id, c, verdict.userId, x, d); }
      case Ended(x, d) => BindPopCommute(r, user, id, c, x);
    }
  }

  lemma BindsCommute<C>(r: Registry<C>, user: Id, id: Id, c: C, v: Id, x: Id, d: C)
    requires x != id
    ensures Bind(Bind(r, user, id, c), v, x, d) == Bind(Bind(r, v, x, d), user, id, c)
  {
    RoomsCommute(r.rooms, user, id, c, v, x, d);
    UpdatesCommute(r.connRoom, id, user, x, v);
  }

  lemma UpdatesCommute<K, V>(m: map<K, V>, j: K, v: V, k: K, w: V)
    requires j != k
    ensures m[j := v][k := w] == m[k := w][j := v]
  {
  }

  // A connection put into a room.
  ghost function Entered<C>(rooms: map<Id, map<Id, C>>, room: Id, id: Id, c: C): map<Id, map<Id, C>> {
    rooms[room := Get(rooms, room, map[])[id := c]]
  }

  lemma RoomsCommute<C>(rooms: map<Id, map<Id, C>>, user: Id, id: Id, c: C, v: Id, x: Id, d: C)
    requires x != id
    ensures Entered(Entered(rooms, user, id, c), v, x, d) == Entered(Entered(rooms, v, x, d), user, id, c)
  {
    if user == v {
      var m := Get(rooms, user, map[]);
      UpdatesCommute(m, id, c, x, d);
      assert Entered(Entered(rooms, user, id, c), v, x, d) == rooms[user := m[id := c][x := d]];
      assert Entered(Entered(rooms, v, x, d), user, id, c) == rooms[user := m[x := d][id := c]];
    } else {
      UpdatesCommute(rooms, user, Get(rooms, user, map[])[id := c], v, Get(rooms, v, map[])[x := d]);
    }
  }

  lemma BindPopCommute<C>(r: Registry<C>, user: Id, id: Id, c: C, x: Id)
    requires x != id
    ensures Pop(Bind(r, user, id, c), x) == Bind(Pop(r, x), user, id, c)
  {
    var s, room := Bind(r, user, id, c), RoomOf(r, x);
    assert RoomOf(s, x) == room;
    if room != "" {
      assert Remove(s.connRoom, x) == Remove(r.connRoom, x)[id := user];
      LeaveCommutes(r.rooms, user, id, c, room, x);
    }
  }

  lemma LeaveCommutes<C>(rooms: map<Id, map<Id, C>>, user: Id, id: Id, c: C, room: Id, x: Id)
    requires x != id
    ensures var left := Leave(rooms, room, x);
            Leave(Entered(rooms, user, id, c), room, x) == Entered(left, user, id, c)
  {
    var m := Get(rooms, user, map[])[id := c];
    if room == user {
      assert id in Remove(m, x);
      assert Remove(m, x) == Remove(Get(rooms, user, map[]), x)[id := c];
    }
  }

  // The registry without the session, plus the connection and, if it has authenticated, its one room.
  ghost function Joined<C>(r: Registry<C>, id: Id, c: C, users: set<Id>, user: Id): Registry<C> {
    if users == {} then Push(r, id, c) else Bind(Push(r, id, c), user, id, c)
  }

  lemma {:induction false} OneUserJoins<C>(r: Registry<C>, id: Id, c: C, inputs: seq<Input<C>>, user: Id)
    requires During(inputs, id, c) && Users(inputs, id) <= {user}
    ensures Steps(Push(r, id, c), inputs) == Joined(Steps(r, Others(inputs, id)), id, c, Users(inputs, id), user)
  {
    if inputs == [] {
      assert Others(inputs, id) == [];
    } else {
      var before, i := inputs[..|inputs| - 1], inputs[|inputs| - 1];
      DuringBefore(inputs, id, c);
      OneUserJoins(r, id, c, before, user);
      OthersStep(r, inputs, id);
      var s := Steps(r, Others(before, id));
      if i.id != id {
        PushCommutes(s, i, id, c);
        BindCommutes(Push(s, id, c), i, user, id, c);
      } else if Authenticates(i, id) {
        assert i.verdict.userId in Users(inputs, id);
        BindTwice(Push(s, id, c), user, id, c);
      }
    }
  }

  lemma OthersStep<C>(r: Registry<C>, inputs: seq<Input<C>>, id: Id)
    requires inputs != []
    ensures var i := inputs[|inputs| - 1];
            Steps(r, Others(inputs, id)) ==
              if i.id == id then Steps(r, Others(inputs[..|inputs| - 1], id))
              else Step(Steps(r, Others(inputs[..|inputs| - 1], id)), i).0
  {
    var rest, i := Others(inputs[..|inputs| - 1], id), inputs[|inputs| - 1];
    if i.id == id {
      assert Others(inputs, id) == rest;
    } else {
      assert Others(inputs, id)[..|rest|] == rest;
    }
  }

  lemma {:induction false} StaysStranger<C>(r: Registry<C>, inputs: seq<Input<C>>, id: Id)
    requires Linked(r) && Stranger(r, id)
    ensures Linked(Steps(r, Others(inputs, id))) && Stranger(Steps(r, Others(inputs, id)), id)
  {
    if inputs == [] {
      assert Others(inputs, id) == [];
    } else {
      var before, i := inputs[..|inputs| - 1], inputs[|inputs| - 1];
      StaysStranger(r, before, id);
      OthersStep(r, inputs, id);
      if i.id != id {
        StrangerStep(Steps(r, Others(before, id)), i, id);
      }
    }
  }

  lemma StrangerStep<C>(r: Registry<C>, i: Input<C>, id: Id)
    requires Linked(r) && Stranger(r, id) && i.id != id
    ensures Linked(Step(r, i).0) && Stranger(Step(r, i).0, id)
  {
    StepKeepsLinked(r, i);
    StepRooms(r, i, id);
  }

  /** A session leaves the registry as if it had never been, whatever the other connections did meanwhile, exactly
      when it authenticated as at most one user. */
  lemma SessionLeavesNoTraceIff<C>(r: Registry<C>, id: Id, c: C, inputs: seq<Input<C>>)
    requires Linked(r) && Stranger(r, id) && During(inputs, id, c)
    ensures Pop(Steps(Push(r, id, c), inputs), id) == Steps(r, Others(inputs, id)) <==> AtMostOne(Users(inputs, id))
  {
    var rest := Steps(r, Others(inputs, id));
    StaysStranger(r, inputs, id);
    if Users(inputs, id) == {} {
      OneUserJoins(r, id, c, inputs, "");
      assert Remove(Push(rest, id, c).conns, id) == rest.conns;
    } else if AtMostOne(Users(inputs, id)) {
      var user :| user in Users(inputs, id);
      assert user != "";
      OneUserJoins(r, id, c, inputs, user);
      BindPopUndone(rest, user, id, c);
    } else {
      SessionLeaves(r, id, c, inputs);
      var u, v :| u in Users(inputs, id) && v in Users(inputs, id) && u != v;
      assert u in RoomsWith(Pop(Steps(Push(r, id, c), inputs), id), id) || v in RoomsWith(Pop(Steps(Push(r, id, c), inputs), id), id);
    }
  }

  // ----- In a run of the whole server -----

  lemma {:induction false} StepsConcat<C>(r: Registry<C>, a: seq<Input<C>>, b: seq<Input<C>>)
    ensures Steps(r, a + b) == Steps(Steps(r, a), b)
  {
    if b == [] {
      assert a + b == a;
    } else {
      StepsConcat(r, a, b[..|b| - 1]);
      assert (a + b)[..|a + b| - 1] == a + b[..|b| - 1];
    }
  }

  lemma StepsOne<C>(r: Registry<C>, a: seq<Input<C>>, i: Input<C>)
    ensures Steps(r, a + [i]) == Step(Steps(r, a), i).0
  {
    assert (a + [i])[..|a|] == a;
  }

  lemma {:induction false} NeverSeen<C>(inputs: seq<Input<C>>, id: Id)
    requires forall i :: i in inputs ==> i.id != id
    ensures Linked(After(inputs)) && Stranger(After(inputs), id)
  {
    if inputs == [] {
      assert RoomsWith(After(inputs), id) == {};
    } else {
      var before, i := inputs[..|inputs| - 1], inputs[|inputs| - 1];
      NeverSeen(before, id);
      assert i in inputs;
      StrangerStep(After(before), i, id);
    }
  }

  lemma {:induction false} LeftoversStay<C>(r: Registry<C>, later: seq<Input<C>>, id: Id)
    requires Linked(r) && forall i :: i in later ==> i.id != id
    ensures Linked(Steps(r, later)) && RoomsWith(Steps(r, later), id) == RoomsWith(r, id)
  {
    if later != [] {
      var before, i := later[..|later| - 1], later[|later| - 1];
      LeftoversStay(r, before, id);
      assert i in later;
      StepKeepsLinked(Steps(r, before), i);
      StepRooms(Steps(r, before), i, id);
    }
  }

  /** In every interleaving of all connections, once a session has ended, the rooms that hold its connection are those
      of its users but the last to be granted, and as long as its id is not used again they stay so. */
  lemma EndedSessionLeaves<C>(before: seq<Input<C>>, id: Id, c: C, during: seq<Input<C>>, later: seq<Input<C>>)
    requires (forall i :: i in before ==> i.id != id) && During(during, id, c)
    requires forall i :: i in later ==> i.id != id
    ensures var life := before + [Opened(id, c)] + during;
            RoomsWith(After(life + [Ended(id, c)] + later), id) == Users(during, id) - {LastUser(life, id)}
  {
    var r, arrived := After(before), before + [Opened(id, c)];
    var start: Registry<C> := Empty();
    NeverSeen(before, id);
    StepsOne(start, before, Opened(id, c));
    StepsConcat(start, arrived, during);
    StepsOne(start, arrived + during, Ended(id, c));
    SessionLeaves(r, id, c, during);
    RoomIsLastUser(arrived + during, id);
    AlwaysLinked(arrived + during + [Ended(id, c)]);
    StepsConcat(start, arrived + during + [Ended(id, c)], later);
    LeftoversStay(After(arrived + during + [Ended(id, c)]), later, id);
  }

  // The business calls that the inputs cause, one after the other.
  function CallsOf<C>(r: Registry<C>, inputs: seq<Input<C>>): seq<Call> {
    if inputs == [] then []
    else CallsOf(r, inputs[..|inputs| - 1]) + Step(Steps(r, inputs[..|inputs| - 1]), inputs[|inputs| - 1]).1
  }

  // ----- The handler -----

  ghost function Conns(inputs: seq<Input<Conn>>): set<Conn> { set i | i in inputs :: i.conn }

  /** The server's handler of one connection; `inputs` are the frames of this connection and, in the order in which
      they come between, whatever the handlers of the others take in. */
  method HandleWS(core: Core, conn: Conn, inputs: seq<Input<Conn>>) returns (userId: Id)
    requires core.manager.Keyed() && During(inputs, conn.id, conn)
    requires forall i :: i in inputs ==> i.conn.id == i.id
    modifies core, core.manager, conn, Conns(inputs)`send
    ensures var s := Steps(Push(old(core.manager.View()), conn.id, conn), inputs);
            core.manager.View() == Pop(s, conn.id) && userId == RoomOf(s, conn.id)
    ensures core.calls == old(core.calls) + CallsOf(Push(old(core.manager.View()), conn.id, conn), inputs)
    ensures conn.closed && core.manager.Keyed()
  {
    core.manager.Push(conn);
    ghost var start := core.manager.View();
    for k := 0 to |inputs|
      invariant core.manager.View() == Steps(start, inputs[..k]) && core.manager.Keyed()
      invariant core.calls == old(core.calls) + CallsOf(start, inputs[..k])
    {
      assert inputs[k] in inputs;
      if inputs[k].id == conn.id {
        core.Dispatch(conn, inputs[k].raw, inputs[k].verdict);
      } else {
        core.Take(inputs[k]);
      }
      assert inputs[..k + 1][..k] == inputs[..k];
    }
    assert inputs[..|inputs|] == inputs;
    conn.Close();
    userId := core.manager.RoomOf(conn.id);
    core.manager.Pop(conn);
  }
}
