/**
 * The real-time side of the collaborative editor backend: which session each
 * connection has joined, the broadcast room of each session, and the events
 * the join-session, code-change, language-change and disconnect handlers send.
 * Every `emit` is recorded in an outbox, in the order the handlers issue them.
 */
module Gateway {
  import opened Service

  /** The id the transport gives a connection; clients never choose it. */
  type ConnId = string

  /** The server-to-client events. */
  datatype Event =
    | InitialState(code: string, language: Language, users: seq<User>)
    | UsersUpdate(users: seq<User>)
    | UserJoined(user: User)
    | UserLeft(id: ConnId)
    | CodeUpdate(code: string)
    | LanguageChange(language: Language)

  /** One `emit`: an event and the connections it is delivered to. */
  datatype Emission = Emission(recipients: set<ConnId>, event: Event)

  /** Broadcast rooms: room name (a session id) to the connections in it. */
  type Rooms = map<string, set<ConnId>>

  function Members(rooms: Rooms, room: string): set<ConnId>
  {
    if room in rooms then rooms[room] else {}
  }

  /** `client.join(room)`. */
  function JoinRoom(rooms: Rooms, room: string, c: ConnId): (r: Rooms)
    ensures Members(r, room) == Members(rooms, room) + {c}
    ensures forall other :: other != room ==> Members(r, other) == Members(rooms, other)
  {
    rooms[room := Members(rooms, room) + {c}]
  }

  /** `client.leave(room)`. */
  function LeaveRoom(rooms: Rooms, room: string, c: ConnId): (r: Rooms)
    ensures Members(r, room) == Members(rooms, room) - {c}
    ensures forall other :: other != room ==> Members(r, other) == Members(rooms, other)
  {
    rooms[room := Members(rooms, room) - {c}]
  }

  /** What the transport does to a closing connection before its disconnect handler runs. */
  function LeaveAll(rooms: Rooms, c: ConnId): (r: Rooms)
    ensures forall room :: Members(r, room) == Members(rooms, room) - {c}
  {
    map room | room in rooms :: rooms[room] - {c}
  }

  /** `client.to(room)`: every member of the room except the sender. */
  function Others(rooms: Rooms, room: string, sender: ConnId): set<ConnId>
  {
    Members(rooms, room) - {sender}
  }

  /** `userSessions.get(c)` is truthy: there is a mapping and it is not the empty string. */
  predicate Mapped(userSessions: map<ConnId, string>, c: ConnId)
  {
    c in userSessions && userSessions[c] != ""
  }

  /** The rooms after join-session: leave the previous room if the mapping is truthy, then join. */
  function RoomsAfterJoin(rooms: Rooms, userSessions: map<ConnId, string>, c: ConnId, sessionId: string): Rooms
  {
    var left := if Mapped(userSessions, c) then LeaveRoom(rooms, userSessions[c], c) else rooms;
    JoinRoom(left, sessionId, c)
  }

  /**
   * A mapped connection sits in its session's room, and a connection in a room
   * with a non-empty name is mapped to that room's session.
   */
  ghost predicate Consistent(userSessions: map<ConnId, string>, rooms: Rooms)
  {
    && (forall c :: Mapped(userSessions, c) ==> c in Members(rooms, userSessions[c]))
    && (forall room, c :: room in rooms && room != "" && c in rooms[room] ==>
          c in userSessions && userSessions[c] == room)
  }

  // ---------------------------------------------------------------------
  // Delivery

  /** The events connection `c` has been sent, in order. */
  function Received(outbox: seq<Emission>, c: ConnId): seq<Event>
  {
    if outbox == [] then []
    else (if c in outbox[0].recipients then [outbox[0].event] else []) + Received(outbox[1..], c)
  }

  lemma {:induction false} ReceivedConcat(a: seq<Emission>, b: seq<Emission>, c: ConnId)
    ensures Received(a + b, c) == Received(a, c) + Received(b, c)
  {
    if a == [] {
      assert a + b == b;
    } else {
      var head := if c in a[0].recipients then [a[0].event] else [];
      assert (a + b)[0] == a[0];
      assert (a + b)[1..] == a[1..] + b;
      assert Received(a + b, c) == head + Received(a[1..] + b, c);
      ReceivedConcat(a[1..], b, c);
      assert Received(a, c) == head + Received(a[1..], c);
    }
  }

  /** One more emission reaches exactly its recipients, after what they already had. */
  lemma ReceivedAppend(outbox: seq<Emission>, e: Emission, c: ConnId)
    ensures Received(outbox + [e], c) == Received(outbox, c) + (if c in e.recipients then [e.event] else [])
  {
    ReceivedConcat(outbox, [e], c);
    assert [e][1..] == [];
  }

  /**
   * `client.to(room).emit(event)`: every other member of the room receives the
   * event; the sender and everybody outside the room receive nothing.
   */
  lemma NoEcho(outbox: seq<Emission>, rooms: Rooms, room: string, sender: ConnId, event: Event)
    ensures var o := outbox + [Emission(Others(rooms, room, sender), event)];
      && Received(o, sender) == Received(outbox, sender)
      && (forall m :: m in Members(rooms, room) && m != sender ==> Received(o, m) == Received(outbox, m) + [event])
      && (forall m :: m !in Members(rooms, room) ==> Received(o, m) == Received(outbox, m))
  {
    var e := Emission(Others(rooms, room, sender), event);
    forall m ensures Received(outbox + [e], m) == Received(outbox, m) + (if m in e.recipients then [event] else []) {
      ReceivedAppend(outbox, e, m);
    }
  }

  /**
   * The three emits of join-session: the state to the joiner alone, then the
   * user list and the new user to the rest of the room.
   */
  function JoinEmissions(client: ConnId, others: set<ConnId>, s: Session, joined: User): seq<Emission>
  {
    [Emission({client}, InitialState(s.code, s.language, s.users)),
     Emission(others, UsersUpdate(s.users)),
     Emission(others, UserJoined(joined))]
  }

  /** The two emits of disconnect, both to the rest of the room. */
  function LeaveEmissions(others: set<ConnId>, users: seq<User>, client: ConnId): seq<Emission>
  {
    [Emission(others, UsersUpdate(users)), Emission(others, UserLeft(client))]
  }

  /**
   * After join-session the joiner has been sent exactly the initial state;
   * every other room member exactly the user list and then the join notice;
   * nobody else anything.
   */
  lemma JoinDelivery(outbox: seq<Emission>, rooms: Rooms, room: string, client: ConnId, s: Session, joined: User)
    ensures var o := outbox + JoinEmissions(client, Others(rooms, room, client), s, joined);
      && Received(o, client) == Received(outbox, client) + [InitialState(s.code, s.language, s.users)]
      && (forall m :: m in Members(rooms, room) && m != client ==>
            Received(o, m) == Received(outbox, m) + [UsersUpdate(s.users), UserJoined(joined)])
      && (forall m :: m != client && m !in Members(rooms, room) ==> Received(o, m) == Received(outbox, m))
  {
    var others := Others(rooms, room, client);
    var e := JoinEmissions(client, others, s, joined);
    assert outbox + e == outbox + [e[0]] + [e[1]] + [e[2]];
    forall m
      ensures Received(outbox + e, m) == Received(outbox, m)
        + (if m == client then [e[0].event] else [])
        + (if m in others then [e[1].event] else [])
        + (if m in others then [e[2].event] else [])
    {
      ReceivedAppend(outbox, e[0], m);
      ReceivedAppend(outbox + [e[0]], e[1], m);
      ReceivedAppend(outbox + [e[0]] + [e[1]], e[2], m);
    }
  }

  /**
   * After disconnect every remaining room member has been sent the user list
   * and then the leave notice; the departing connection and everybody outside
   * the room nothing.
   */
  lemma LeaveDelivery(outbox: seq<Emission>, rooms: Rooms, room: string, client: ConnId, users: seq<User>)
    ensures var o := outbox + LeaveEmissions(Others(rooms, room, client), users, client);
      && Received(o, client) == Received(outbox, client)
      && (forall m :: m in Members(rooms, room) && m != client ==>
            Received(o, m) == Received(outbox, m) + [UsersUpdate(users), UserLeft(client)])
      && (forall m :: m !in Members(rooms, room) ==> Received(o, m) == Received(outbox, m))
  {
    var others := Others(rooms, room, client);
    var e := LeaveEmissions(others, users, client);
    assert outbox + e == outbox + [e[0]] + [e[1]];
    forall m
      ensures Received(outbox + e, m) == Received(outbox, m)
        + (if m in others then [e[0].event] else [])
        + (if m in others then [e[1].event] else [])
    {
      ReceivedAppend(outbox, e[0], m);
      ReceivedAppend(outbox + [e[0]], e[1], m);
    }
  }

  // ---------------------------------------------------------------------
  // Membership

  /**
   * join-session moves the connection into the new room and out of a truthy
   * previous one, leaves every other connection where it was, and keeps the
   * mapping and the rooms consistent.
   */
  lemma JoinMovesConnection(userSessions: map<ConnId, string>, rooms: Rooms, c: ConnId, sessionId: string)
    requires Consistent(userSessions, rooms)
    ensures var r := RoomsAfterJoin(rooms, userSessions, c, sessionId);
      && c in Members(r, sessionId)
      && (Mapped(userSessions, c) && userSessions[c] != sessionId ==> c !in Members(r, userSessions[c]))
      && (forall room, d :: d != c ==> (d in Members(r, room) <==> d in Members(rooms, room)))
      && Consistent(userSessions[c := sessionId], r)
  {
    var us := userSessions[c := sessionId];
    var left := if Mapped(userSessions, c) then LeaveRoom(rooms, userSessions[c], c) else rooms;
    var r := JoinRoom(left, sessionId, c);
    forall room, d | room in r && room != "" && d in r[room] ensures d in us && us[d] == room {
      assert d in Members(r, room);
      if d != c {
        assert d in Members(rooms, room);
      } else if room != sessionId {
        assert c in Members(rooms, room);
      }
    }
  }

  /**
   * After moving to another session, a code-change broadcast in the previous
   * session no longer reaches the connection.
   */
  lemma RejoinStopsUpdates(userSessions: map<ConnId, string>, rooms: Rooms, c: ConnId, sessionId: string,
                           outbox: seq<Emission>, sender: ConnId, code: string)
    requires Consistent(userSessions, rooms)
    requires Mapped(userSessions, c) && userSessions[c] != sessionId
    ensures var r := RoomsAfterJoin(rooms, userSessions, c, sessionId);
      Received(outbox + [Emission(Others(r, userSessions[c], sender), CodeUpdate(code))], c) == Received(outbox, c)
  {
    var r := RoomsAfterJoin(rooms, userSessions, c, sessionId);
    JoinMovesConnection(userSessions, rooms, c, sessionId);
    NoEcho(outbox, r, userSessions[c], sender, CodeUpdate(code));
  }

  /** Under the invariant, a connection is in at most one room with a non-empty name. */
  lemma AtMostOneRoom(userSessions: map<ConnId, string>, rooms: Rooms, c: ConnId, r1: string, r2: string)
    requires Consistent(userSessions, rooms)
    requires r1 != "" && r2 != ""
    requires c in Members(rooms, r1) && c in Members(rooms, r2)
    ensures r1 == r2
  {
    assert r1 in rooms && c in rooms[r1];
    assert userSessions[c] == r1;
    assert r2 in rooms && c in rooms[r2];
  }

  /** Disconnect (leave every room, drop a truthy mapping) keeps the invariant. */
  lemma DisconnectKeepsConsistent(userSessions: map<ConnId, string>, rooms: Rooms, c: ConnId)
    requires Consistent(userSessions, rooms)
    ensures Consistent(if Mapped(userSessions, c) then userSessions - {c} else userSessions, LeaveAll(rooms, c))
  {
    var us := if Mapped(userSessions, c) then userSessions - {c} else userSessions;
    var r := LeaveAll(rooms, c);
    forall room, d | room in r && room != "" && d in r[room] ensures d in us && us[d] == room {
      assert d in Members(r, room);
      assert d in Members(rooms, room);
    }
  }

  /**
   * The gateway's invariant over plain values: the registry is well formed,
   * mapping and rooms agree, and every session a connection is mapped to
   * exists (sessions are never removed).
   */
  ghost predicate Invariant(userSessions: map<ConnId, string>, rooms: Rooms, sessions: map<string, Session>)
  {
    && WellFormed(sessions)
    && Consistent(userSessions, rooms)
    && (forall c :: Mapped(userSessions, c) ==> userSessions[c] in sessions)
  }

  /** The registry after join-session: addUser, then getOrCreateSession, on the same id. */
  function SessionsAfterJoin(sessions: map<string, Session>, sessionId: string, joined: User, generated: string, generatedAgain: string): map<string, Session>
  {
    GetOrCreateIn(AddUserTo(sessions, sessionId, joined, generated), sessionId, generatedAgain)
  }

  /** join-session keeps the invariant. */
  lemma JoinKeepsInvariant(userSessions: map<ConnId, string>, rooms: Rooms, sessions: map<string, Session>,
                           c: ConnId, sessionId: string, joined: User, generated: string, generatedAgain: string)
    requires Invariant(userSessions, rooms, sessions)
    ensures Invariant(userSessions[c := sessionId], RoomsAfterJoin(rooms, userSessions, c, sessionId),
                      SessionsAfterJoin(sessions, sessionId, joined, generated, generatedAgain))
  {
    JoinMovesConnection(userSessions, rooms, c, sessionId);
    var added := AddUserTo(sessions, sessionId, joined, generated);
    MutationsKeepWellFormed(sessions, sessionId, joined, joined.id, generated);
    MutationsKeepWellFormed(added, sessionId, joined, joined.id, generatedAgain);
    if sessionId != "" {
      AddUserToKnownKey(sessions, sessionId, joined, generated);
    }
  }

  /**
   * join-session on a non-empty id: the user is upserted into the session
   * stored under that very id (created with the defaults if it was missing),
   * nothing else changes, and that session is the state the joiner is sent.
   */
  lemma JoinNonEmptyId(sessions: map<string, Session>, sessionId: string, joined: User, generated: string, generatedAgain: string)
    requires WellFormed(sessions)
    requires sessionId != ""
    ensures var r := SessionsAfterJoin(sessions, sessionId, joined, generated, generatedAgain);
      && r == AddUserTo(sessions, sessionId, joined, generated)
      && r.Keys == sessions.Keys + {sessionId}
      && (forall k :: k in sessions && k != sessionId ==> r[k] == sessions[k])
      && Resolve(AddUserTo(sessions, sessionId, joined, generated), sessionId, generatedAgain) == r[sessionId]
      && r[sessionId].users == Upsert(UsersOf(sessions, sessionId), joined)
      && r[sessionId].code == (if sessionId in sessions then sessions[sessionId].code else Placeholder)
      && r[sessionId].language == (if sessionId in sessions then sessions[sessionId].language else JavaScript)
  {
    AddUserToKnownKey(sessions, sessionId, joined, generated);
  }

  /**
   * join-session on the empty id: both get-or-create steps miss, so the user
   * is added to a session under the first generated id, while the joiner is
   * sent a second, empty session created under the other generated id.
   */
  lemma JoinEmptyIdSplits(sessions: map<string, Session>, joined: User, generated: string, generatedAgain: string)
    requires "" !in sessions
    requires generated !in sessions && generated != ""
    requires generatedAgain !in sessions && generatedAgain != "" && generatedAgain != generated
    ensures var r := SessionsAfterJoin(sessions, "", joined, generated, generatedAgain);
      var sent := Resolve(AddUserTo(sessions, "", joined, generated), "", generatedAgain);
      && r.Keys == sessions.Keys + {generated, generatedAgain}
      && r[generated].users == [joined]
      && sent == r[generatedAgain]
      && sent.users == []
      && (forall k :: k in sessions ==> r[k] == sessions[k])
  {
  }

  /**
   * Joining a session whose users do not include the connection: the joiner's
   * initial state lists the users already there, in their order, and then itself.
   */
  lemma JoinAfterOthers(sessions: map<string, Session>, sessionId: string, joined: User, generated: string, generatedAgain: string)
    requires WellFormed(sessions)
    requires sessionId in sessions && sessionId != ""
    requires !HasId(sessions[sessionId].users, joined.id)
    ensures Resolve(AddUserTo(sessions, sessionId, joined, generated), sessionId, generatedAgain).users
      == sessions[sessionId].users + [joined]
  {
    JoinNonEmptyId(sessions, sessionId, joined, generated, generatedAgain);
    UpsertAppendsNew(sessions[sessionId].users, joined);
  }

  /** disconnect keeps the invariant. */
  lemma DisconnectKeepsInvariant(userSessions: map<ConnId, string>, rooms: Rooms, sessions: map<string, Session>, c: ConnId)
    requires Invariant(userSessions, rooms, sessions)
    ensures Invariant(if Mapped(userSessions, c) then userSessions - {c} else userSessions, LeaveAll(rooms, c),
                      if Mapped(userSessions, c) then RemoveUserFrom(sessions, userSessions[c], c) else sessions)
  {
    DisconnectKeepsConsistent(userSessions, rooms, c);
    MutationsKeepWellFormed(sessions, if c in userSessions then userSessions[c] else "", User(c, ""), c, "");
  }

  /**
   * An empty previous session id is falsy, so rejoining from it does not leave
   * its room: the connection ends up in both rooms.
   */
  lemma EmptyPreviousRoomIsKept(c: ConnId, sessionId: string)
    requires sessionId != ""
    ensures var r := RoomsAfterJoin(map["" := {c}], map[c := ""], c, sessionId);
      c in Members(r, "") && c in Members(r, sessionId)
  {
  }

  // ---------------------------------------------------------------------
  // The gateway object

  class SessionGateway {
    const store: SessionService
    var userSessions: map<ConnId, string>
    var rooms: Rooms
    var outbox: seq<Emission>

    ghost predicate Valid()
      reads this, store
    {
      Invariant(userSessions, rooms, store.sessions)
    }

    constructor (store: SessionService)
      requires store.Valid()
      ensures Valid()
      ensures this.store == store && store.sessions == old(store.sessions)
      ensures userSessions == map[] && rooms == map[] && outbox == []
    {
      this.store := store;
      userSessions := map[];
      rooms := map[];
      outbox := [];
    }

    /**
     * join-session: switch rooms, record the mapping, add the user under the
     * connection's own id, reply with the session state and tell the rest of
     * the room. `generated` and `generatedAgain` are the ids the two
     * get-or-create steps would generate for an empty session id.
     */
    method HandleJoinSession(client: ConnId, sessionId: string, user: User, generated: string, generatedAgain: string)
      requires Valid()
      modifies this, store
      ensures Valid()
      ensures userSessions == old(userSessions)[client := sessionId]
      ensures rooms == RoomsAfterJoin(old(rooms), old(userSessions), client, sessionId)
      ensures var joined := User(client, user.name);
        var s := Resolve(AddUserTo(old(store.sessions), sessionId, joined, generated), sessionId, generatedAgain);
        && store.sessions == SessionsAfterJoin(old(store.sessions), sessionId, joined, generated, generatedAgain)
        && outbox == old(outbox) + JoinEmissions(client, Others(rooms, sessionId, client), s, joined)
    {
      var joined := User(client, user.name);
      JoinKeepsInvariant(userSessions, rooms, store.sessions, client, sessionId, joined, generated, generatedAgain);

      var previous := if client in userSessions then Some(userSessions[client]) else None;
      if previous.Some? && previous.value != "" {
        rooms := LeaveRoom(rooms, previous.value, client);
      }
      rooms := JoinRoom(rooms, sessionId, client);
      userSessions := userSessions[client := sessionId];

      var added := store.AddUser(sessionId, joined, generated);
      var session := store.GetOrCreateSession(sessionId, generatedAgain);

      var others := Others(rooms, sessionId, client);
      outbox := outbox + [Emission({client}, InitialState(session.code, session.language, session.users)),
                          Emission(others, UsersUpdate(session.users)),
                          Emission(others, UserJoined(joined))];
    }

    /** code-change: store the code (ignoring failure) and forward it to the rest of the room. */
    method HandleCodeChange(client: ConnId, sessionId: string, code: string)
      requires Valid()
      modifies this`outbox, store
      ensures Valid()
      ensures userSessions == old(userSessions) && rooms == old(rooms)
      ensures store.sessions == WithCode(old(store.sessions), sessionId, code)
      ensures outbox == old(outbox) + [Emission(Others(rooms, sessionId, client), CodeUpdate(code))]
      ensures Received(outbox, client) == Received(old(outbox), client)
      ensures forall m :: m in Members(rooms, sessionId) && m != client ==>
        Received(outbox, m) == Received(old(outbox), m) + [CodeUpdate(code)]
      ensures forall m :: m !in Members(rooms, sessionId) ==> Received(outbox, m) == Received(old(outbox), m)
    {
      var updated := store.UpdateCode(sessionId, code);
      NoEcho(outbox, rooms, sessionId, client, CodeUpdate(code));
      outbox := outbox + [Emission(Others(rooms, sessionId, client), CodeUpdate(code))];
    }

    /** language-change: store the language (ignoring failure) and forward it to the rest of the room. */
    method HandleLanguageChange(client: ConnId, sessionId: string, language: Language)
      requires Valid()
      modifies this`outbox, store
      ensures Valid()
      ensures userSessions == old(userSessions) && rooms == old(rooms)
      ensures store.sessions == WithLanguage(old(store.sessions), sessionId, language)
      ensures outbox == old(outbox) + [Emission(Others(rooms, sessionId, client), LanguageChange(language))]
      ensures Received(outbox, client) == Received(old(outbox), client)
      ensures forall m :: m in Members(rooms, sessionId) && m != client ==>
        Received(outbox, m) == Received(old(outbox), m) + [LanguageChange(language)]
      ensures forall m :: m !in Members(rooms, sessionId) ==> Received(outbox, m) == Received(old(outbox), m)
    {
      var updated := store.UpdateLanguage(sessionId, language);
      NoEcho(outbox, rooms, sessionId, client, LanguageChange(language));
      outbox := outbox + [Emission(Others(rooms, sessionId, client), LanguageChange(language))];
    }

    /**
     * disconnect: the transport has already taken the connection out of every
     * room; a truthy mapping then has the user removed from its session, the
     * rest of the room told, and the mapping deleted.
     */
    method HandleDisconnect(client: ConnId)
      requires Valid()
      modifies this, store
      ensures Valid()
      ensures rooms == LeaveAll(old(rooms), client)
      ensures !Mapped(old(userSessions), client) ==>
        && store.sessions == old(store.sessions)
        && userSessions == old(userSessions)
        && outbox == old(outbox)
      ensures Mapped(old(userSessions), client) ==>
        var sid := old(userSessions)[client];
        var users := WithoutId(old(store.sessions)[sid].users, client);
        && store.sessions == RemoveUserFrom(old(store.sessions), sid, client)
        && !HasId(users, client)
        && userSessions == old(userSessions) - {client}
        && outbox == old(outbox) + LeaveEmissions(Others(rooms, sid, client), users, client)
    {
      DisconnectKeepsInvariant(userSessions, rooms, store.sessions, client);
      rooms := LeaveAll(rooms, client);
      var sessionId := if client in userSessions then Some(userSessions[client]) else None;
      if sessionId.Some? && sessionId.value != "" {
        var sid := sessionId.value;
        WithoutIdUnique(store.sessions[sid].users, client);
        var removed := store.RemoveUser(sid, client);
        var users := store.GetUsers(sid);

        var others := Others(rooms, sid, client);
        outbox := outbox + [Emission(others, UsersUpdate(users)), Emission(others, UserLeft(client))];
        userSessions := userSessions - {client};
      }
    }
  }
}
