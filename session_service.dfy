/**
 * The in-memory session registry of the collaborative editor backend:
 * a map from session id to session, with the user list of each session
 * kept free of duplicate ids.
 */
module Service {

  datatype Option<T> = None | Some(value: T)

  /** The two editor languages a session can be in. */
  datatype Language = JavaScript | Python

  datatype User = User(id: string, name: string)

  /** A session record (its creation and update timestamps are not modelled). */
  datatype Session = Session(sessionId: string, code: string, language: Language, users: seq<User>)

  /** The code every new session starts with. */
  const Placeholder: string := "// Start coding...\n"

  function NewSession(sid: string, language: Language): Session
  {
    Session(sid, Placeholder, language, [])
  }

  /**
   * The key createSession stores under: `sessionId || generateSessionId()`.
   * Both a missing id and the empty string are falsy, so both fall back to
   * the generated id.
   */
  function ChosenId(sessionId: Option<string>, generated: string): string
  {
    if sessionId.Some? && sessionId.value != "" then sessionId.value else generated
  }

  // ---------------------------------------------------------------------
  // User lists

  predicate HasId(users: seq<User>, id: string)
  {
    exists i :: 0 <= i < |users| && users[i].id == id
  }

  predicate UniqueIds(users: seq<User>)
  {
    forall i, j :: 0 <= i < j < |users| ==> users[i].id != users[j].id
  }

  /** `users.filter(u => u.id !== id)`. */
  function WithoutId(users: seq<User>, id: string): (r: seq<User>)
    ensures |r| <= |users|
    ensures forall u :: u in r <==> u in users && u.id != id
  {
    if users == [] then []
    else
      assert users == [users[0]] + users[1..];
      if users[0].id == id then WithoutId(users[1..], id)
      else [users[0]] + WithoutId(users[1..], id)
  }

  /** The user list addUser leaves: every entry with the user's id dropped, then the user pushed. */
  function Upsert(users: seq<User>, user: User): (r: seq<User>)
    ensures |r| > 0 && r[|r| - 1] == user
    ensures forall i :: 0 <= i < |r| - 1 ==> r[i].id != user.id
    ensures forall u :: u in r <==> u == user || (u in users && u.id != user.id)
  {
    var rest := WithoutId(users, user.id);
    assert forall i :: 0 <= i < |rest| ==> rest[i] in rest;
    rest + [user]
  }

  /** Filtering distributes over concatenation: the kept entries stay in their order. */
  lemma {:induction false} WithoutIdConcat(a: seq<User>, b: seq<User>, id: string)
    ensures WithoutId(a + b, id) == WithoutId(a, id) + WithoutId(b, id)
  {
    if a == [] {
      assert a + b == b;
    } else {
      assert (a + b)[0] == a[0];
      assert (a + b)[1..] == a[1..] + b;
      WithoutIdConcat(a[1..], b, id);
    }
  }

  /** Filtering out an id nobody has leaves the list as it is. */
  lemma {:induction false} WithoutIdAbsent(users: seq<User>, id: string)
    requires !HasId(users, id)
    ensures WithoutId(users, id) == users
  {
    if users != [] {
      assert users[0].id != id;
      assert !HasId(users[1..], id) by {
        forall i | 0 <= i < |users[1..]| ensures users[1..][i].id != id {
          assert users[1..][i] == users[i + 1];
        }
      }
      WithoutIdAbsent(users[1..], id);
      assert users == [users[0]] + users[1..];
    }
  }

  /** Filtering keeps ids unique and removes the id completely. */
  lemma {:induction false} WithoutIdUnique(users: seq<User>, id: string)
    requires UniqueIds(users)
    ensures UniqueIds(WithoutId(users, id))
    ensures !HasId(WithoutId(users, id), id)
  {
    var r := WithoutId(users, id);
    assert forall i :: 0 <= i < |r| ==> r[i] in r;
    if users != [] {
      assert UniqueIds(users[1..]) by {
        forall i, j | 0 <= i < j < |users[1..]| ensures users[1..][i].id != users[1..][j].id {
          assert users[1..][i] == users[i + 1] && users[1..][j] == users[j + 1];
        }
      }
      WithoutIdUnique(users[1..], id);
      var tail := WithoutId(users[1..], id);
      if users[0].id != id {
        assert r == [users[0]] + tail;
        forall j | 0 <= j < |tail| ensures tail[j].id != users[0].id {
          assert tail[j] in tail;
          var k :| 0 <= k < |users[1..]| && users[1..][k] == tail[j];
          assert users[k + 1] == tail[j];
        }
      }
    }
  }

  /** Removing the entry in the middle of a duplicate-free list closes the gap around it. */
  lemma RemoveFromMiddle(a: seq<User>, v: User, b: seq<User>)
    requires UniqueIds(a + [v] + b)
    ensures WithoutId(a + [v] + b, v.id) == a + b
  {
    var s := a + [v] + b;
    assert !HasId(a, v.id) by {
      forall i | 0 <= i < |a| ensures a[i].id != v.id {
        assert s[i] == a[i] && s[|a|] == v;
      }
    }
    assert !HasId(b, v.id) by {
      forall i | 0 <= i < |b| ensures b[i].id != v.id {
        assert s[|a| + 1 + i] == b[i] && s[|a|] == v;
      }
    }
    WithoutIdConcat(a + [v], b, v.id);
    WithoutIdConcat(a, [v], v.id);
    WithoutIdAbsent(a, v.id);
    WithoutIdAbsent(b, v.id);
    assert WithoutId([v], v.id) == [] by {
      assert [v][1..] == [];
    }
    assert WithoutId(a + [v], v.id) == a;
  }

  /** Adding a user whose id is not yet present appends it. */
  lemma UpsertAppendsNew(users: seq<User>, user: User)
    requires !HasId(users, user.id)
    ensures Upsert(users, user) == users + [user]
  {
    WithoutIdAbsent(users, user.id);
  }

  /** Re-adding a present user moves it to the end; the others keep their order. */
  lemma UpsertMovesToEnd(a: seq<User>, v: User, b: seq<User>, user: User)
    requires UniqueIds(a + [v] + b)
    requires v.id == user.id
    ensures Upsert(a + [v] + b, user) == a + b + [user]
  {
    RemoveFromMiddle(a, v, b);
  }

  /** Adding keeps the ids of a list unique. */
  lemma UpsertUnique(users: seq<User>, user: User)
    requires UniqueIds(users)
    ensures UniqueIds(Upsert(users, user))
  {
    WithoutIdUnique(users, user.id);
    var rest := WithoutId(users, user.id);
    var r := Upsert(users, user);
    assert r == rest + [user];
    forall i, j | 0 <= i < j < |r| ensures r[i].id != r[j].id {
      if j < |rest| {
        assert r[i] == rest[i] && r[j] == rest[j];
      }
    }
  }

  /** The list grows by one exactly when the id was absent. */
  lemma UpsertLength(users: seq<User>, user: User)
    requires UniqueIds(users)
    ensures |Upsert(users, user)| == if HasId(users, user.id) then |users| else |users| + 1
  {
    if HasId(users, user.id) {
      var i :| 0 <= i < |users| && users[i].id == user.id;
      assert users == users[..i] + [users[i]] + users[i + 1..];
      UpsertMovesToEnd(users[..i], users[i], users[i + 1..], user);
    } else {
      UpsertAppendsNew(users, user);
    }
  }

  /** Adding the same id twice in a row is the same as adding it once, with the second record. */
  lemma UpsertTwice(users: seq<User>, first: User, second: User)
    requires first.id == second.id
    ensures Upsert(Upsert(users, first), second) == Upsert(users, second)
  {
    var rest := WithoutId(users, first.id);
    WithoutIdConcat(rest, [first], first.id);
    assert !HasId(rest, first.id) by {
      forall i | 0 <= i < |rest| ensures rest[i].id != first.id {
        assert rest[i] in rest;
      }
    }
    WithoutIdAbsent(rest, first.id);
  }

  /** The user list after addUser has been called with each of `added` in turn. */
  function AddAll(users: seq<User>, added: seq<User>): seq<User>
    decreases |added|
  {
    if added == [] then users
    else Upsert(AddAll(users, added[..|added| - 1]), added[|added| - 1])
  }

  /** Dropping the last entry of a duplicate-free list leaves it duplicate-free, without the last id. */
  lemma UniqueIdsInit(users: seq<User>)
    requires UniqueIds(users) && users != []
    ensures UniqueIds(users[..|users| - 1])
    ensures !HasId(users[..|users| - 1], users[|users| - 1].id)
  {
    var init := users[..|users| - 1];
    forall i | 0 <= i < |init| ensures init[i] == users[i] {
    }
  }

  /** An id absent from both parts is absent from their concatenation. */
  lemma HasIdConcat(a: seq<User>, b: seq<User>, id: string)
    requires !HasId(a, id) && !HasId(b, id)
    ensures !HasId(a + b, id)
  {
    forall i | 0 <= i < |a + b| ensures (a + b)[i].id != id {
      if i >= |a| {
        assert (a + b)[i] == b[i - |a|];
      }
    }
  }

  /** Users with distinct ids that are new to the list end up in the order they were added. */
  lemma {:induction false} AddAllDistinct(users: seq<User>, added: seq<User>)
    requires UniqueIds(added)
    requires forall i :: 0 <= i < |added| ==> !HasId(users, added[i].id)
    ensures AddAll(users, added) == users + added
  {
    if added != [] {
      var init := added[..|added| - 1];
      var last := added[|added| - 1];
      UniqueIdsInit(added);
      assert forall i :: 0 <= i < |init| ==> init[i] == added[i];
      AddAllDistinct(users, init);
      HasIdConcat(users, init, last.id);
      UpsertAppendsNew(users + init, last);
      assert init + [last] == added;
      assert users + init + [last] == users + added;
    }
  }

  // ---------------------------------------------------------------------
  // The registry as a value

  /** Every session is stored under its own id and lists each user id at most once. */
  predicate WellFormed(sessions: map<string, Session>)
  {
    forall k :: k in sessions ==> sessions[k].sessionId == k && UniqueIds(sessions[k].users)
  }

  /** The session getOrCreateSession hands back: the stored one, or a new JavaScript session. */
  function Resolve(sessions: map<string, Session>, sessionId: string, generated: string): Session
  {
    if sessionId in sessions then sessions[sessionId]
    else NewSession(ChosenId(Some(sessionId), generated), JavaScript)
  }

  /** The registry after addUser: the resolved session, stored under its own id, with the user upserted. */
  function AddUserTo(sessions: map<string, Session>, sessionId: string, user: User, generated: string): map<string, Session>
  {
    var s := Resolve(sessions, sessionId, generated);
    sessions[s.sessionId := s.(users := Upsert(s.users, user))]
  }

  /** The registry after getOrCreateSession: unchanged on a stored id, otherwise with the new session added. */
  function GetOrCreateIn(sessions: map<string, Session>, sessionId: string, generated: string): (r: map<string, Session>)
    ensures sessions.Keys <= r.Keys
    ensures sessionId in sessions ==> r == sessions
  {
    if sessionId in sessions then sessions
    else
      var s := Resolve(sessions, sessionId, generated);
      sessions[s.sessionId := s]
  }

  /** The registry after removeUser. */
  function RemoveUserFrom(sessions: map<string, Session>, sessionId: string, userId: string): (r: map<string, Session>)
    ensures r.Keys == sessions.Keys
    ensures forall k :: k in sessions && k != sessionId ==> r[k] == sessions[k]
    ensures sessionId in sessions ==>
      r[sessionId] == sessions[sessionId].(users := WithoutId(sessions[sessionId].users, userId))
  {
    if sessionId in sessions then
      sessions[sessionId := sessions[sessionId].(users := WithoutId(sessions[sessionId].users, userId))]
    else sessions
  }

  /** What getUsers answers. */
  function UsersOf(sessions: map<string, Session>, sessionId: string): seq<User>
  {
    if sessionId in sessions then sessions[sessionId].users else []
  }

  /** The registry after updateCode: only the code of a stored session changes. */
  function WithCode(sessions: map<string, Session>, sessionId: string, code: string): (r: map<string, Session>)
    ensures r.Keys == sessions.Keys
    ensures forall k :: k in sessions && k != sessionId ==> r[k] == sessions[k]
    ensures sessionId in sessions ==> r[sessionId] == sessions[sessionId].(code := code)
  {
    if sessionId in sessions then sessions[sessionId := sessions[sessionId].(code := code)] else sessions
  }

  /** The registry after updateLanguage: only the language of a stored session changes. */
  function WithLanguage(sessions: map<string, Session>, sessionId: string, language: Language): (r: map<string, Session>)
    ensures r.Keys == sessions.Keys
    ensures forall k :: k in sessions && k != sessionId ==> r[k] == sessions[k]
    ensures sessionId in sessions ==> r[sessionId] == sessions[sessionId].(language := language)
  {
    if sessionId in sessions then sessions[sessionId := sessions[sessionId].(language := language)] else sessions
  }

  /**
   * addUser on a non-empty id: afterwards the session under that id exists,
   * keeps its code and language (or has the defaults when it was new), and
   * its users are the old ones with the user upserted; other sessions are untouched.
   */
  lemma AddUserToKnownKey(sessions: map<string, Session>, sessionId: string, user: User, generated: string)
    requires WellFormed(sessions)
    requires sessionId != ""
    ensures var r := AddUserTo(sessions, sessionId, user, generated);
      && r.Keys == sessions.Keys + {sessionId}
      && (forall k :: k in sessions && k != sessionId ==> r[k] == sessions[k])
      && r[sessionId].users == Upsert(UsersOf(sessions, sessionId), user)
      && r[sessionId].code == (if sessionId in sessions then sessions[sessionId].code else Placeholder)
      && r[sessionId].language == (if sessionId in sessions then sessions[sessionId].language else JavaScript)
  {
  }

  /**
   * getOrCreateSession on an unknown non-empty id creates exactly one session,
   * under that id, with the placeholder code, JavaScript and no users.
   */
  lemma GetOrCreateNew(sessions: map<string, Session>, sessionId: string, generated: string)
    requires sessionId !in sessions && sessionId != ""
    ensures var r := GetOrCreateIn(sessions, sessionId, generated);
      && r.Keys == sessions.Keys + {sessionId}
      && |r| == |sessions| + 1
      && (forall k :: k in sessions ==> r[k] == sessions[k])
      && r[sessionId] == Session(sessionId, Placeholder, JavaScript, [])
      && Resolve(sessions, sessionId, generated) == r[sessionId]
  {
    var r := GetOrCreateIn(sessions, sessionId, generated);
    assert r == sessions[sessionId := NewSession(sessionId, JavaScript)];
  }

  /** getOrCreateSession, addUser and removeUser keep every session stored under its id with unique user ids. */
  lemma MutationsKeepWellFormed(sessions: map<string, Session>, sessionId: string, user: User, userId: string, generated: string)
    requires WellFormed(sessions)
    ensures WellFormed(GetOrCreateIn(sessions, sessionId, generated))
    ensures WellFormed(AddUserTo(sessions, sessionId, user, generated))
    ensures WellFormed(RemoveUserFrom(sessions, sessionId, userId))
  {
    var s := Resolve(sessions, sessionId, generated);
    assert UniqueIds(s.users);
    UpsertUnique(s.users, user);
    if sessionId in sessions {
      WithoutIdUnique(sessions[sessionId].users, userId);
    }
  }

  // ---------------------------------------------------------------------
  // The service object

  class SessionService {
    var sessions: map<string, Session>

    ghost predicate Valid()
      reads this
    {
      WellFormed(sessions)
    }

    constructor ()
      ensures Valid() && sessions == map[]
    {
      sessions := map[];
    }

    /**
     * Stores a new session under the given id, or under `generated` when the
     * id is missing or empty, replacing whatever was stored there.
     */
    method CreateSession(sessionId: Option<string>, generated: string, language: Language := JavaScript) returns (s: Session)
      requires Valid()
      modifies this
      ensures Valid()
      ensures s.sessionId == ChosenId(sessionId, generated)
      ensures s.code == Placeholder && s.language == language && s.users == []
      ensures sessions == old(sessions)[s.sessionId := s]
    {
      var sid := ChosenId(sessionId, generated);
      s := NewSession(sid, language);
      sessions := sessions[sid := s];
    }

    /** A pure lookup. */
    method GetSession(sessionId: string) returns (r: Option<Session>)
      ensures r.Some? <==> sessionId in sessions
      ensures r.Some? ==> r.value == sessions[sessionId]
    {
      if sessionId in sessions {
        r := Some(sessions[sessionId]);
      } else {
        r := None;
      }
    }

    method GetOrCreateSession(sessionId: string, generated: string) returns (s: Session)
      requires Valid()
      modifies this
      ensures Valid()
      ensures s == Resolve(old(sessions), sessionId, generated)
      ensures sessions == GetOrCreateIn(old(sessions), sessionId, generated)
    {
      var found := GetSession(sessionId);
      if found.Some? {
        s := found.value;
      } else {
        s := CreateSession(Some(sessionId), generated);
      }
    }

    method UpdateCode(sessionId: string, code: string) returns (ok: bool)
      requires Valid()
      modifies this
      ensures Valid()
      ensures ok <==> sessionId in old(sessions)
      ensures sessions == WithCode(old(sessions), sessionId, code)
    {
      if sessionId in sessions {
        sessions := sessions[sessionId := sessions[sessionId].(code := code)];
        ok := true;
      } else {
        ok := false;
      }
    }

    method UpdateLanguage(sessionId: string, language: Language) returns (ok: bool)
      requires Valid()
      modifies this
      ensures Valid()
      ensures ok <==> sessionId in old(sessions)
      ensures sessions == WithLanguage(old(sessions), sessionId, language)
    {
      if sessionId in sessions {
        sessions := sessions[sessionId := sessions[sessionId].(language := language)];
        ok := true;
      } else {
        ok := false;
      }
    }

    /** Get-or-creates the session, then drops any entry with the user's id and pushes the user. */
    method AddUser(sessionId: string, user: User, generated: string) returns (ok: bool)
      requires Valid()
      modifies this
      ensures Valid()
      ensures ok
      ensures sessions == AddUserTo(old(sessions), sessionId, user, generated)
    {
      MutationsKeepWellFormed(sessions, sessionId, user, user.id, generated);
      var s := GetOrCreateSession(sessionId, generated);
      sessions := sessions[s.sessionId := s.(users := Upsert(s.users, user))];
      ok := true;
    }

    method RemoveUser(sessionId: string, userId: string) returns (ok: bool)
      requires Valid()
      modifies this
      ensures Valid()
      ensures ok <==> sessionId in old(sessions)
      ensures sessions == RemoveUserFrom(old(sessions), sessionId, userId)
    {
      MutationsKeepWellFormed(sessions, sessionId, User(userId, ""), userId, "");
      if sessionId in sessions {
        sessions := sessions[sessionId := sessions[sessionId].(users := WithoutId(sessions[sessionId].users, userId))];
        ok := true;
      } else {
        ok := false;
      }
    }

    method GetUsers(sessionId: string) returns (users: seq<User>)
      ensures sessionId in sessions ==> users == sessions[sessionId].users
      ensures sessionId !in sessions ==> users == []
    {
      if sessionId in sessions {
        users := sessions[sessionId].users;
      } else {
        users := [];
      }
    }
  }
}
