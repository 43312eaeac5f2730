# Collaborative editor session core, in Dafny

This project models the server-side session core of the collaborative code
editor backend (`hw-2/backend`). The core has two parts.

- **SessionService** (`session_service.dfy`, module `Service`): the in-memory
  registry that maps a session id to a session. A session has code, a language
  (JavaScript or Python) and an ordered user list. The class
  `Service.SessionService` holds the registry as a `map<string, Session>` field.
  Its methods create sessions, look them up, get-or-create them, update code
  and language, upsert and remove users, and list users. Its invariant says
  that each session is stored under its own id and lists each user id at most
  once. The pure functions beside the class say what each mutation does to
  the map as a value, and the lemmas prove what the source promises about
  the user lists:
  - re-adding a user moves it to the end;
  - removing a user keeps the others in order;
  - a user list grows by one only for a new id;
  - ids stay unique.
- **SessionGateway** (`session_gateway.dfy`, module `Gateway`): the real-time
  event handlers. The class `Gateway.SessionGateway` holds three things:
  - the connection-to-session map (`userSessions`);
  - the broadcast rooms (`rooms`: session id to the set of connections in it);
  - an `outbox` that records every `emit` as an emission (a set of
    recipients and an event).

  `client.emit` sends to the client alone. `client.to(room).emit` sends to
  every room member except the sender. `Received(outbox, c)` is the sequence
  of events connection `c` has been sent. The handlers for join-session,
  code-change, language-change and disconnect state their new store, map,
  rooms and outbox exactly. Lemmas prove the delivery facts: who gets what,
  that the sender gets no echo, and that a connection is in at most one
  non-empty room.

Nondeterministic and I/O inputs are explicit parameters:
- `generateSessionId()` becomes a `generated` argument on each method that may
  create a session. The join handler calls get-or-create twice, so it takes
  two such arguments.
- The connection id comes from the transport and is passed in as `client`.

JavaScript truthiness is modelled as written:
- `sessionId || generateSessionId()` replaces a missing id and also the empty
  string.
- `if (previousSessionId)` and `if (sessionId)` in the gateway treat a mapping
  to `""` as absent.

Lemmas show what follows:
- `Gateway.EmptyPreviousRoomIsKept`: rejoining from `""` does not leave the
  `""` room.
- `Gateway.JoinEmptyIdSplits`: joining `""` adds the user to one
  freshly generated session, but the joiner is sent a different, empty one.

The frontend shows the editor only for a non-empty id, so these cases need a
client that sends `""` itself.

Three behaviours of the code worth noting:
- code-change and language-change broadcast even when the session is unknown.
  The store is then unchanged, and the handler ignores the `false` result.
- Taking a closing connection out of its rooms is done by the socket.io
  transport before the disconnect handler runs, not by the handler.
  `HandleDisconnect` does this first (`LeaveAll`) and then runs the handler's
  own steps.
- A new session starts with the code `"// Start coding...\n"`.

## Model

| member | source | states |
|---|---|---|
| `Service.WithoutId` | hw-2/backend/src/session.service.ts:71 | the filtered list is no longer than the input and holds exactly the input's entries whose id differs from the given one |
| `Service.Upsert` | hw-2/backend/src/session.service.ts:59-61 | after filter-then-push the user is the last entry, no earlier entry has its id, and the entries are the user plus the old entries with other ids |
| `Service.WithoutIdConcat` | hw-2/backend/src/session.service.ts:71 | filtering distributes over concatenation, so the kept entries stay in their relative order |
| `Service.WithoutIdAbsent` | hw-2/backend/src/session.service.ts:71 | removing an id no entry has leaves the list unchanged |
| `Service.WithoutIdUnique` | hw-2/backend/src/session.service.ts:71 | on a duplicate-free list, filtering keeps ids unique and leaves no entry with the removed id |
| `Service.RemoveFromMiddle` | hw-2/backend/src/session.service.ts:68-76 | removing a member of a duplicate-free list `a + [v] + b` gives exactly `a + b` |
| `Service.UpsertAppendsNew` | hw-2/backend/src/session.service.ts:56-66 | adding a user whose id is absent appends it and changes nothing else |
| `Service.UpsertMovesToEnd` | hw-2/backend/src/session.service.ts:59-61 | re-adding a present id in `a + [v] + b` gives `a + b + [user]`: the user moves to the end and the others keep their order |
| `Service.UpsertUnique` | hw-2/backend/src/session.service.ts:59-61 | addUser preserves unique user ids |
| `Service.UpsertLength` | hw-2/backend/src/session.service.ts:59-61 | the list grows by one exactly when the id was absent, and keeps its length otherwise |
| `Service.UpsertTwice` | hw-2/backend/src/session.service.ts:56-66 | adding the same id twice in a row equals adding once with the second record: no growth, the user at the end |
| `Service.AddAllDistinct` | hw-2/backend/src/session.service.ts:56-66 | a series of addUser calls with distinct new ids leaves the users in the order they were added, with no duplicates |
| `Service.GetOrCreateIn` | hw-2/backend/src/session.service.ts:28-34 | get-or-create never removes a session and leaves the registry as it is when the id is stored |
| `Service.GetOrCreateNew` | hw-2/backend/src/session.service.ts:28-34 | on an unknown non-empty id, get-or-create adds exactly one session, under that id, with the placeholder code, JavaScript and no users, and returns it |
| `Service.RemoveUserFrom` | hw-2/backend/src/session.service.ts:68-76 | removeUser changes only the users of the named session, which lose every entry with the id; an unknown session id leaves the registry unchanged |
| `Service.WithCode` | hw-2/backend/src/session.service.ts:36-44 | updateCode changes only the code of a stored session (language, users and other sessions kept); an unknown id changes nothing |
| `Service.WithLanguage` | hw-2/backend/src/session.service.ts:46-54 | updateLanguage changes only the language of a stored session; an unknown id changes nothing |
| `Service.AddUserToKnownKey` | hw-2/backend/src/session.service.ts:56-66 | addUser on a non-empty id stores under that id the old session (or a new default one) with the user upserted, and no other session changes |
| `Service.MutationsKeepWellFormed` | hw-2/backend/src/session.service.ts:28-76 | get-or-create, addUser and removeUser keep every session under its own id with unique user ids |
| `Service.SessionService.constructor` | hw-2/backend/src/session.service.ts:6 | the registry starts empty |
| `Service.SessionService.CreateSession` | hw-2/backend/src/session.service.ts:8-22 | stores under the given id (or the generated one when it is missing or empty) a session with the placeholder code, no users and the given language (JavaScript by default), replacing any earlier entry and touching no other id |
| `Service.SessionService.GetSession` | hw-2/backend/src/session.service.ts:24-26 | returns the stored session or none, and changes nothing |
| `Service.SessionService.GetOrCreateSession` | hw-2/backend/src/session.service.ts:28-34 | returns the stored session unchanged, or creates and returns a new JavaScript session |
| `Service.SessionService.UpdateCode` | hw-2/backend/src/session.service.ts:36-44 | returns true exactly when the session exists, and then only its code changes; otherwise nothing changes and no session is created |
| `Service.SessionService.UpdateLanguage` | hw-2/backend/src/session.service.ts:46-54 | returns true exactly when the session exists, and then only its language changes; otherwise nothing changes |
| `Service.SessionService.AddUser` | hw-2/backend/src/session.service.ts:56-66 | always returns true; the get-or-created session gets the user upserted |
| `Service.SessionService.RemoveUser` | hw-2/backend/src/session.service.ts:68-76 | returns true exactly when the session exists and then filters the id out; otherwise nothing changes and nothing is created |
| `Service.SessionService.GetUsers` | hw-2/backend/src/session.service.ts:78-81 | returns the stored list, or the empty list for an unknown id |
| `Gateway.JoinRoom` | hw-2/backend/src/session.gateway.ts:61 | joining a room adds the connection to that room only |
| `Gateway.LeaveRoom` | hw-2/backend/src/session.gateway.ts:56-58 | leaving a room removes the connection from that room only |
| `Gateway.LeaveAll` | hw-2/backend/src/session.gateway.ts:31 | a closing connection is removed from every room and nothing else changes |
| `Gateway.NoEcho` | hw-2/backend/src/session.gateway.ts:92-95 | a `client.to(room)` emission reaches every other room member once, and reaches neither the sender nor anyone outside the room |
| `Gateway.JoinDelivery` | hw-2/backend/src/session.gateway.ts:71-80 | join-session sends the joiner exactly the initial state (code, language, users); every other room member gets the user list and then the new user; nobody else gets anything |
| `Gateway.LeaveDelivery` | hw-2/backend/src/session.gateway.ts:39-41 | disconnect sends every remaining room member the user list and then the departing id; the departing connection and outsiders get nothing |
| `Gateway.JoinMovesConnection` | hw-2/backend/src/session.gateway.ts:54-62 | after join the connection is in the new room and out of a truthy previous one, other connections' rooms are unchanged, and mapping and rooms stay consistent |
| `Gateway.RejoinStopsUpdates` | hw-2/backend/src/session.gateway.ts:55-62 | after moving to another session, code updates broadcast in the previous session no longer reach the connection |
| `Gateway.AtMostOneRoom` | hw-2/backend/src/session.gateway.ts:55-62 | under the invariant a connection is in at most one room with a non-empty name |
| `Gateway.DisconnectKeepsConsistent` | hw-2/backend/src/session.gateway.ts:34-44 | leaving all rooms and dropping a truthy mapping keeps mapping and rooms consistent |
| `Gateway.EmptyPreviousRoomIsKept` | hw-2/backend/src/session.gateway.ts:55-58 | a previous mapping to `""` is falsy, so rejoining leaves the connection in both the `""` room and the new one |
| `Gateway.JoinKeepsInvariant` | hw-2/backend/src/session.gateway.ts:52-69 | join-session keeps the registry well formed, mapping and rooms consistent, and every mapped session stored |
| `Gateway.DisconnectKeepsInvariant` | hw-2/backend/src/session.gateway.ts:34-44 | disconnect keeps the same invariant |
| `Gateway.JoinNonEmptyId` | hw-2/backend/src/session.gateway.ts:64-69 | on a non-empty id the user, with the connection's id, is upserted into that very session; the session's old code and language are kept (or are the defaults); no other session changes, including a previous session's user list; that session is what the joiner is sent |
| `Gateway.JoinAfterOthers` | hw-2/backend/src/session.gateway.ts:64-76 | a connection joining a session whose users do not include it is sent those users in their order, followed by itself |
| `Gateway.JoinEmptyIdSplits` | hw-2/backend/src/session.gateway.ts:64-69 | on the empty id the user lands in a session under the first generated id, while the joiner is sent a second, empty session; every session stored before is left as it was |
| `Gateway.SessionGateway.constructor` | hw-2/backend/src/session.gateway.ts:23-25 | the gateway starts with no mappings, no rooms and nothing sent, over the given store |
| `Gateway.SessionGateway.HandleJoinSession` | hw-2/backend/src/session.gateway.ts:47-83 | sets the mapping to the new session, moves rooms as `RoomsAfterJoin`, runs addUser (with the connection's own id, whatever id was sent) then get-or-create, and appends the three join emissions built from the resulting session; keeps the invariant |
| `Gateway.SessionGateway.HandleCodeChange` | hw-2/backend/src/session.gateway.ts:85-96 | runs updateCode, then forwards the exact code to every other room member; the sender gets nothing; mapping and rooms unchanged |
| `Gateway.SessionGateway.HandleLanguageChange` | hw-2/backend/src/session.gateway.ts:98-109 | runs updateLanguage (no change on an unknown session), then broadcasts the language to every other room member even on an unknown session |
| `Gateway.SessionGateway.HandleDisconnect` | hw-2/backend/src/session.gateway.ts:31-45 | for a truthy mapping: removes the connection's id from that session, appends the user list without that id and the departing id for the rest of the room, and deletes the mapping. For no mapping: store, map and outbox are unchanged |

## Left out

- Timestamps (`createdAt`, `updatedAt`) are wall-clock values and are not modelled.
- `generateSessionId` uses `Math.random`. It is not modelled; each method that may call it takes the id it would return as an argument.
- `handleConnection` only logs. All `console.log` output is left out.
- socket.io is left out: the transport, the decorators and CORS. Rooms and emits are modelled as state and an outbox.
- Every socket.io connection is also in a room named by its own id. This is not modelled, so a session id equal to a connection id is not covered.
- The model keeps a room with no members as an entry with an empty set; socket.io deletes such a room. The difference cannot be observed.
- A session is a value in the map, not a shared mutable object. Each emitted payload is the session's state at the moment of the emit, which is when socket.io encodes it.
- A user is modelled by `id` and `name`. Any other fields the client puts in the join payload are copied by the source's spread; they are not modelled.
- The HTTP controller (`hw-2/backend/src/app.controller.ts`) is left out, and so is its `initialCode` field, which the source ignores. The dependency wiring (`app.module.ts`) is left out too.
- The frontend is left out: the editor, the code runners and the clipboard.
- The hw-1 todo application is not part of this model.
- `Gateway.SessionGateway.HandleJoinSession`: who receives which event after a join is not stated in its contract. It is stated about the same outbox expression by `Gateway.JoinDelivery`.
- `Gateway.SessionGateway.HandleDisconnect`: who receives the leave events is stated by `Gateway.LeaveDelivery`, in the same way.
