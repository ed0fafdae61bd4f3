/**
 * Connections, sessions and pending change requests of the broker, as values: an object's address is a Handle, and an
 * object that is freed leaves its map.
 */
module LoginState {

  type Handle = nat

  datatype Option<T> = None | Some(value: T)

  datatype ConnectionState = Initial | Connecting | Connected

  datatype Connection = Connection(state: ConnectionState, loggedOut: bool, session: Option<Handle>, refs: int)

  datatype Session = Session(clientId: string, current: Option<Handle>, clean: bool, refs: int)

  datatype Request =
    | Login(client: Handle, clientId: string, clean: bool)
    | Logout(client: Handle)
    | Subscribe(session: Handle)

  /** `sessions` holds the sessions found through `byId` and those in `deleted`, which wait to be freed. */
  datatype State = State(
    clients: map<Handle, Connection>, sessions: map<Handle, Session>, byId: map<string, Handle>, deleted: set<Handle>,
    queue: seq<Request>, internal: seq<Request>, shouldCleanup: bool)

  const START := State(map[], map[], map[], {}, [], [], false)

  function SetClient(s: State, c: Handle, v: Connection): State {
    s.(clients := s.clients[c := v])
  }

  function SetSession(s: State, h: Handle, v: Session): State {
    s.(sessions := s.sessions[h := v])
  }

  // The invariant

  /** Each client id finds its own session, and every other session waits to be freed. */
  ghost predicate Table(s: State) {
    && (forall id :: id in s.byId ==>
          s.byId[id] in s.sessions && s.sessions[s.byId[id]].clientId == id && s.byId[id] !in s.deleted)
    && (forall h :: h in s.sessions && h !in s.deleted ==> Listed(s, h))
    && s.deleted <= s.sessions.Keys
  }

  ghost predicate Listed(s: State, h: Handle)
    requires h in s.sessions
  {
    s.sessions[h].clientId in s.byId && s.byId[s.sessions[h].clientId] == h
  }

  /** The link between a connection and its session is symmetric, and only a connection that is in use has one. */
  ghost predicate Links(s: State) {
    && (forall c :: c in s.clients && s.clients[c].session.Some? ==> ToSession(s, c))
    && (forall h :: h in s.sessions && s.sessions[h].current.Some? ==> ToClient(s, h))
    && (forall h :: h in s.sessions && h !in s.deleted && s.sessions[h].clean ==> s.sessions[h].current.Some?)
  }

  ghost predicate ToSession(s: State, c: Handle)
    requires c in s.clients && s.clients[c].session.Some?
  {
    var h := s.clients[c].session.value;
    h in s.sessions && h !in s.deleted && s.sessions[h].current == Some(c) && !s.clients[c].loggedOut
  }

  ghost predicate ToClient(s: State, h: Handle)
    requires h in s.sessions && s.sessions[h].current.Some?
  {
    var c := s.sessions[h].current.value;
    c in s.clients && s.clients[c].session == Some(h)
  }

  function ClientRefs(q: seq<Request>, c: Handle): nat {
    if q == [] then 0 else ClientRefs(q[1..], c) + if !q[0].Subscribe? && q[0].client == c then 1 else 0
  }

  function SessionRefs(q: seq<Request>, h: Handle): nat {
    if q == [] then 0 else SessionRefs(q[1..], h) + if q[0].Subscribe? && q[0].session == h then 1 else 0
  }

  function LoginRefs(q: seq<Request>, c: Handle): nat {
    if q == [] then 0 else LoginRefs(q[1..], c) + if q[0].Login? && q[0].client == c then 1 else 0
  }

  /** All requests not finished: those being executed, then the queued ones. */
  function Pending(s: State, running: seq<Request>): seq<Request> {
    running + s.queue + s.internal
  }

  /** Reference counts are the numbers of pending requests, which name objects not freed; a connection logs in once. */
  ghost predicate Counted(s: State, p: seq<Request>) {
    && (forall c :: c in s.clients ==> ClientCounted(s, p, c))
    && (forall h :: h in s.sessions ==> s.sessions[h].refs == SessionRefs(p, h))
    && (forall r :: r in p ==> Names(s, r))
  }

  ghost predicate ClientCounted(s: State, p: seq<Request>, c: Handle)
    requires c in s.clients
  {
    var v := s.clients[c];
    && v.refs == ClientRefs(p, c) && LoginRefs(p, c) <= (if v.state == Connecting then 1 else 0)
    && (v.session.Some? ==> v.state == Connected)
  }

  predicate Names(s: State, r: Request) {
    if r.Subscribe? then r.session in s.sessions else r.client in s.clients
  }

  /** A logged-out connection that nothing refers to any more is due to be freed. */
  ghost predicate Swept(s: State) {
    forall c :: c in s.clients && s.clients[c].loggedOut && s.clients[c].refs == 0 ==> s.shouldCleanup
  }

  ghost predicate Core(s: State) {
    Table(s) && Links(s)
  }

  ghost predicate Inv(s: State, running: seq<Request>) {
    Core(s) && Counted(s, Pending(s, running)) && Swept(s)
  }

  // The operations

  /** Unlinks a session from its connection. */
  function DropCurrentClient(s: State, h: Handle): State
    requires h in s.sessions && s.sessions[h].current.Some? && s.sessions[h].current.value in s.clients
  {
    var c := s.sessions[h].current.value;
    SetSession(SetClient(s, c, s.clients[c].(session := None)), h, s.sessions[h].(current := None))
  }

  /** The search of the table for a session. */
  function IdsOf(s: State, h: Handle): (ids: set<string>)
    ensures forall id :: id in ids <==> id in s.byId && s.byId[id] == h
  {
    set id | id in s.byId && s.byId[id] == h
  }

  /** Takes a session out of the table, to be freed later. */
  function Forget(s: State, h: Handle): State {
    var ids := IdsOf(s, h);
    if ids == {} then s else s.(byId := s.byId - ids, deleted := s.deleted + {h}, shouldCleanup := true)
  }

  function LoggedOut(s: State, c: Handle): State
    requires c in s.clients && Core(s)
  {
    if s.clients[c].loggedOut then s else
    var s1 := SetClient(s, c, s.clients[c].(loggedOut := true)).(shouldCleanup := true);
    match s.clients[c].session
    case None => s1
    case Some(h) =>
      assert ToSession(s, c);
      var s2 := DropCurrentClient(s1, h);
      if s2.sessions[h].clean then Forget(s2, h) else s2
  }

  /** Makes c the connection of session h, unlinking the one it had. */
  function Replaced(s: State, h: Handle, c: Handle, clean: bool): State
    requires h in s.sessions && c in s.clients
             && (s.sessions[h].current.Some? ==> s.sessions[h].current.value in s.clients)
  {
    var prev := s.sessions[h].current;
    var s1 := if prev.Some? then SetClient(s, prev.value, s.clients[prev.value].(session := None)) else s;
    SetSession(SetClient(s1, c, s1.clients[c].(session := Some(h))), h,
               s.sessions[h].(current := Some(c), clean := clean))
  }

  /** A session of this client id exists: connection c takes it over, and the one it had is logged out. */
  function TakenOver(s: State, c: Handle, id: string, clean: bool): State
    requires c in s.clients && id in s.byId && Core(s) && s.clients[c].session == None && !s.clients[c].loggedOut
  {
    var h := s.byId[id];
    assert s.sessions[h].current.Some? ==> ToClient(s, h);
    var s1 := Replaced(s, h, c, clean);
    match s.sessions[h].current
    case None => s1
    case Some(prev) => ReplacedCore(s, h, c, clean); LoggedOut(s1, prev)
  }

  /** No session of this client id exists: one is made, at the unused address `made`. */
  function Created(s: State, c: Handle, id: string, clean: bool, made: Handle): State
    requires c in s.clients
  {
    var s1 := SetSession(s, made, Session(id, Some(c), clean, 0)).(byId := s.byId[id := made]);
    Replaced(s1, made, c, clean)
  }

  function LoggedIn(s: State, c: Handle, id: string, clean: bool, made: Handle): State
    requires c in s.clients && Core(s) && s.clients[c].session == None
  {
    if s.clients[c].loggedOut then s else
    var s1 := if id in s.byId then TakenOver(s, c, id, clean) else Created(s, c, id, clean, made);
    KeepsClients(s, c, id, clean, made);
    SetClient(s1, c, s1.clients[c].(state := Connected))
  }

  lemma KeepsClients(s: State, c: Handle, id: string, clean: bool, made: Handle)
    requires c in s.clients && Core(s) && s.clients[c].session == None && !s.clients[c].loggedOut
    ensures (if id in s.byId then TakenOver(s, c, id, clean) else Created(s, c, id, clean, made)).clients.Keys
            == s.clients.Keys
  {
    if id in s.byId {
      var h := s.byId[id];
      if s.sessions[h].current.Some? {
        assert ToClient(s, h);
        ReplacedCore(s, h, c, clean);
        assert ToSession(s, s.sessions[h].current.value);
      }
    }
  }

  lemma ReplacedCore(s: State, h: Handle, c: Handle, clean: bool)
    requires Core(s) && h in s.sessions && h !in s.deleted && c in s.clients && s.clients[c].session == None
             && !s.clients[c].loggedOut
    ensures s.sessions[h].current.Some? ==> s.sessions[h].current.value in s.clients
    ensures Core(Replaced(s, h, c, clean))
  {
    hide Table;
    if s.sessions[h].current.Some? { assert ToClient(s, h); }
    var t := Replaced(s, h, c, clean);
    assert Table(t) by { ReplacedTable(s, h, c, clean); }
    forall x | x in t.clients && t.clients[x].session.Some? ensures ToSession(t, x) {
      if x != c { assert ToSession(s, x); }
    }
    forall g | g in t.sessions && t.sessions[g].current.Some? ensures ToClient(t, g) {
      if g != h { assert ToClient(s, g); }
    }
  }

  lemma ReplacedTable(s: State, h: Handle, c: Handle, clean: bool)
    requires Table(s) && h in s.sessions && c in s.clients
             && (s.sessions[h].current.Some? ==> s.sessions[h].current.value in s.clients)
    ensures Table(Replaced(s, h, c, clean))
  {
    var t := Replaced(s, h, c, clean);
    forall g | g in t.sessions && g !in t.deleted ensures Listed(t, g) {
      assert Listed(s, g);
    }
  }

  lemma LoggedOutCore(s: State, c: Handle)
    requires Core(s) && c in s.clients
    ensures Core(LoggedOut(s, c))
  {
    var t := LoggedOut(s, c);
    if !s.clients[c].loggedOut && s.clients[c].session.Some? {
      assert ToSession(s, c);
      var h := s.clients[c].session.value;
      assert Listed(s, h);
      LoggedOutLinked(s, c, h);
    } else {
      LoggedOutPlain(s, c);
    }
  }

  lemma LoggedOutPlain(s: State, c: Handle)
    requires Core(s) && c in s.clients && (s.clients[c].loggedOut || s.clients[c].session == None)
    ensures Core(LoggedOut(s, c))
  {
    var t := LoggedOut(s, c);
    assert Table(t) by {
      forall g | g in t.sessions && g !in t.deleted ensures Listed(t, g) { assert Listed(s, g); }
    }
    forall x | x in t.clients && t.clients[x].session.Some? ensures ToSession(t, x) { assert ToSession(s, x); }
    forall g | g in t.sessions && t.sessions[g].current.Some? ensures ToClient(t, g) { assert ToClient(s, g); }
  }

  lemma LoggedOutLinked(s: State, c: Handle, h: Handle)
    requires Core(s) && c in s.clients && !s.clients[c].loggedOut && s.clients[c].session == Some(h)
    ensures Core(LoggedOut(s, c))
  {
    assert ToSession(s, c) && Listed(s, h);
    assert Table(LoggedOut(s, c)) by { LoggedOutTable(s, c, h); }
    assert Links(LoggedOut(s, c)) by { LoggedOutLinks(s, c, h); }
  }

  lemma Forgotten(s: State, h: Handle, id: string)
    requires id in s.byId && s.byId[id] == h
    ensures h in Forget(s, h).deleted
  {
    assert id in IdsOf(s, h);
  }

  lemma LoggedOutTable(s: State, c: Handle, h: Handle)
    requires Core(s) && c in s.clients && !s.clients[c].loggedOut && s.clients[c].session == Some(h)
    ensures Table(LoggedOut(s, c))
  {
    var t := LoggedOut(s, c);
    assert ToSession(s, c) && Listed(s, h);
    forall g | g in t.sessions && g !in t.deleted ensures Listed(t, g) { assert Listed(s, g); }
  }

  lemma LoggedOutLinks(s: State, c: Handle, h: Handle)
    requires Core(s) && c in s.clients && !s.clients[c].loggedOut && s.clients[c].session == Some(h)
    ensures Links(LoggedOut(s, c))
  {
    var t := LoggedOut(s, c);
    assert ToSession(s, c) && Listed(s, h);
    var s1 := SetClient(s, c, s.clients[c].(loggedOut := true)).(shouldCleanup := true);
    Forgotten(DropCurrentClient(s1, h), h, s.sessions[h].clientId);
    forall x | x in t.clients && t.clients[x].session.Some? ensures ToSession(t, x) { assert ToSession(s, x); }
    forall g | g in t.sessions && t.sessions[g].current.Some? ensures ToClient(t, g) { assert ToClient(s, g); }
  }

  lemma CreatedCore(s: State, c: Handle, id: string, clean: bool, made: Handle)
    requires Core(s) && c in s.clients && s.clients[c].session == None && !s.clients[c].loggedOut && id !in s.byId
             && made !in s.sessions
    ensures Core(Created(s, c, id, clean, made))
  {
    var t := Created(s, c, id, clean, made);
    assert Table(t) by {
      forall g | g in t.sessions && g !in t.deleted ensures Listed(t, g) {
        if g != made { assert Listed(s, g); }
      }
    }
    forall x | x in t.clients && t.clients[x].session.Some? ensures ToSession(t, x) {
      if x != c { assert ToSession(s, x); }
    }
    forall g | g in t.sessions && t.sessions[g].current.Some? ensures ToClient(t, g) {
      if g != made { assert ToClient(s, g); }
    }
  }

  lemma LoggedInCore(s: State, c: Handle, id: string, clean: bool, made: Handle)
    requires Core(s) && c in s.clients && s.clients[c].session == None && made !in s.sessions
    ensures Core(LoggedIn(s, c, id, clean, made))
  {
    if !s.clients[c].loggedOut {
      if id in s.byId {
        TakenOverCore(s, c, id, clean);
        StateCore(TakenOver(s, c, id, clean), c, Connected);
      } else {
        CreatedCore(s, c, id, clean, made);
        StateCore(Created(s, c, id, clean, made), c, Connected);
      }
    }
  }

  lemma StateCore(s: State, c: Handle, state: ConnectionState)
    requires Core(s) && c in s.clients
    ensures Core(SetClient(s, c, s.clients[c].(state := state)))
  {
    var t := SetClient(s, c, s.clients[c].(state := state));
    assert Table(t) by {
      forall g | g in t.sessions && g !in t.deleted ensures Listed(t, g) { assert Listed(s, g); }
    }
    forall x | x in t.clients && t.clients[x].session.Some? ensures ToSession(t, x) { assert ToSession(s, x); }
    forall g | g in t.sessions && t.sessions[g].current.Some? ensures ToClient(t, g) { assert ToClient(s, g); }
  }

  lemma TakenOverCore(s: State, c: Handle, id: string, clean: bool)
    requires Core(s) && c in s.clients && s.clients[c].session == None && !s.clients[c].loggedOut && id in s.byId
    ensures Core(TakenOver(s, c, id, clean))
  {
    var h := s.byId[id];
    assert s.sessions[h].current.Some? ==> ToClient(s, h);
    ReplacedCore(s, h, c, clean);
    if s.sessions[h].current.Some? {
      LoggedOutCore(Replaced(s, h, c, clean), s.sessions[h].current.value);
    }
  }
}
