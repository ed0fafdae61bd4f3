/** Every run of accepting, asking, executing, expiring and freeing keeps the links and the reference counts right. */
module LoginRuns {
  import opened LoginState

  // Executing a request

  function Inc(s: State, r: Request): State
    requires Names(s, r)
  {
    if r.Subscribe? then SetSession(s, r.session, s.sessions[r.session].(refs := s.sessions[r.session].refs + 1))
    else SetClient(s, r.client, s.clients[r.client].(refs := s.clients[r.client].refs + 1))
  }

  /** Only the last reference to a logged-out connection asks for a cleanup. */
  function Dec(s: State, r: Request): State
    requires Names(s, r)
  {
    if r.Subscribe? then SetSession(s, r.session, s.sessions[r.session].(refs := s.sessions[r.session].refs - 1)) else
    var c := s.clients[r.client].(refs := s.clients[r.client].refs - 1);
    SetClient(s, r.client, c).(shouldCleanup := s.shouldCleanup || (c.refs == 0 && c.loggedOut))
  }

  function EffectiveId(id: string, generated: string): string {
    if id == "" then generated else id
  }

  function Visited(s: State, r: Request, made: Handle, generated: string): State
    requires Core(s) && Names(s, r) && (r.Login? ==> s.clients[r.client].session == None)
  {
    match r
    case Login(c, id, clean) => LoggedIn(s, c, EffectiveId(id, generated), clean, made)
    case Logout(c) => LoggedOut(s, c)
    case Subscribe(_) => s
  }

  /** What an operation leaves alone, but for the state and session of connection e. */
  ghost predicate Keeps(s: State, t: State, e: Handle) {
    && t.clients.Keys == s.clients.Keys && t.queue == s.queue && t.internal == s.internal
    && (forall c :: c in s.clients ==> KeepsClient(s, t, e, c))
    && s.sessions.Keys <= t.sessions.Keys
    && (forall h :: h in t.sessions ==> t.sessions[h].refs == if h in s.sessions then s.sessions[h].refs else 0)
    && (s.shouldCleanup ==> t.shouldCleanup)
  }

  ghost predicate KeepsClient(s: State, t: State, e: Handle, c: Handle)
    requires c in s.clients && c in t.clients
  {
    var v, w := s.clients[c], t.clients[c];
    && w.refs == v.refs && (w.loggedOut ==> v.loggedOut || t.shouldCleanup)
    && (c != e ==> w.state == v.state && (w.session.Some? ==> v.session.Some?))
  }

  lemma KeepsTrans(s: State, t: State, u: State, e: Handle)
    requires Keeps(s, t, e) && Keeps(t, u, e)
    ensures Keeps(s, u, e)
  {
    forall c | c in s.clients ensures KeepsClient(s, u, e, c) {
      assert KeepsClient(s, t, e, c) && KeepsClient(t, u, e, c);
    }
  }

  lemma LoggedOutKeeps(s: State, c: Handle, e: Handle)
    requires c in s.clients && Core(s)
    ensures Keeps(s, LoggedOut(s, c), e)
    ensures LoggedOut(s, c).clients[c].loggedOut && LoggedOut(s, c).clients[c].session == None
  {
    if s.clients[c].session.Some? {
      assert ToSession(s, c);
      LinkedOutKeeps(s, c, e);
    }
  }

  lemma LinkedOutKeeps(s: State, c: Handle, e: Handle)
    requires c in s.clients && Core(s) && s.clients[c].session.Some? && ToSession(s, c)
    ensures Keeps(s, LoggedOut(s, c), e)
    ensures LoggedOut(s, c).clients[c].loggedOut && LoggedOut(s, c).clients[c].session == None
  {
    hide Core;
  }

  lemma ReplacedKeeps(s: State, h: Handle, c: Handle, clean: bool)
    requires h in s.sessions && c in s.clients
             && (s.sessions[h].current.Some? ==> s.sessions[h].current.value in s.clients)
    ensures Keeps(s, Replaced(s, h, c, clean), c)
  {
  }

  lemma StateKeeps(s: State, c: Handle, state: ConnectionState)
    requires c in s.clients
    ensures Keeps(s, SetClient(s, c, s.clients[c].(state := state)), c)
  {
  }

  lemma LoggedInKeeps(s: State, c: Handle, id: string, clean: bool, made: Handle)
    requires c in s.clients && Core(s) && s.clients[c].session == None && made !in s.sessions
    ensures var t := LoggedIn(s, c, id, clean, made); Keeps(s, t, c) && (t.clients[c].state == Connected || t == s)
  {
    hide Keeps;
    if s.clients[c].loggedOut {
      SameKeeps(s, c);
    } else {
      if id in s.byId {
        TakenOverKeeps(s, c, id, clean);
      } else {
        CreatedKeeps(s, c, id, clean, made);
      }
      KeepsClients(s, c, id, clean, made);
      var s1 := if id in s.byId then TakenOver(s, c, id, clean) else Created(s, c, id, clean, made);
      StateKeeps(s1, c, Connected);
      KeepsTrans(s, s1, LoggedIn(s, c, id, clean, made), c);
    }
  }

  lemma SameKeeps(s: State, e: Handle)
    ensures Keeps(s, s, e)
  {
  }

  lemma TakenOverKeeps(s: State, c: Handle, id: string, clean: bool)
    requires c in s.clients && id in s.byId && Core(s) && s.clients[c].session == None && !s.clients[c].loggedOut
    ensures Keeps(s, TakenOver(s, c, id, clean), c)
  {
    hide Keeps;
    var h := s.byId[id];
    ReplacedCore(s, h, c, clean);
    ReplacedKeeps(s, h, c, clean);
    if s.sessions[h].current.Some? {
      var s1, prev := Replaced(s, h, c, clean), s.sessions[h].current.value;
      LoggedOutKeeps(s1, prev, c);
      KeepsTrans(s, s1, LoggedOut(s1, prev), c);
    }
  }

  lemma CreatedKeeps(s: State, c: Handle, id: string, clean: bool, made: Handle)
    requires c in s.clients && made !in s.sessions
    ensures Keeps(s, Created(s, c, id, clean, made), c)
  {
  }

  lemma VisitedKeeps(s: State, r: Request, made: Handle, generated: string)
    requires Core(s) && Names(s, r) && (r.Login? ==> s.clients[r.client].session == None) && made !in s.sessions
    ensures var t := Visited(s, r, made, generated);
            && Core(t) && Keeps(s, t, if r.Subscribe? then 0 else r.client)
            && (!r.Subscribe? ==>
                  t.clients[r.client].state == s.clients[r.client].state
                  || (r.Login? && t.clients[r.client].state == Connected))
            && (!r.Subscribe? && t.clients[r.client].session.Some? ==>
                  s.clients[r.client].session.Some? || t.clients[r.client].state == Connected)
  {
    hide Keeps;
    match r
    case Login(c, id, clean) =>
      LoggedInCore(s, c, EffectiveId(id, generated), clean, made);
      LoggedInKeeps(s, c, EffectiveId(id, generated), clean, made);
    case Logout(c) =>
      LoggedOutCore(s, c);
      LoggedOutKeeps(s, c, c);
      LoggedOutState(s, c);
    case Subscribe(_) => SameKeeps(s, 0);
  }

  lemma LoggedOutState(s: State, c: Handle)
    requires c in s.clients && Core(s)
    ensures c in LoggedOut(s, c).clients && LoggedOut(s, c).clients[c].state == s.clients[c].state
    ensures LoggedOut(s, c).clients[c].session == None
  {
    LoggedOutKeeps(s, c, c);
  }

  // Counting

  lemma {:induction false} RefsCat(a: seq<Request>, b: seq<Request>, x: Handle)
    ensures ClientRefs(a + b, x) == ClientRefs(a, x) + ClientRefs(b, x)
    ensures SessionRefs(a + b, x) == SessionRefs(a, x) + SessionRefs(b, x)
    ensures LoginRefs(a + b, x) == LoginRefs(a, x) + LoginRefs(b, x)
  {
    if a == [] {
      assert a + b == b;
    } else {
      RefsCat(a[1..], b, x);
      assert (a + b)[1..] == a[1..] + b && (a + b)[0] == a[0];
    }
  }

  lemma RefsOne(r: Request, x: Handle)
    ensures ClientRefs([r], x) == (if !r.Subscribe? && r.client == x then 1 else 0)
    ensures SessionRefs([r], x) == (if r.Subscribe? && r.session == x then 1 else 0)
    ensures LoginRefs([r], x) == (if r.Login? && r.client == x then 1 else 0)
  {
    assert [r][1..] == [];
  }

  /** Requests in another order count the same. */
  lemma Reordered(a: seq<Request>, b: seq<Request>, x: Handle)
    ensures ClientRefs(a + b, x) == ClientRefs(b + a, x)
    ensures SessionRefs(a + b, x) == SessionRefs(b + a, x)
    ensures LoginRefs(a + b, x) == LoginRefs(b + a, x)
  {
    RefsCat(a, b, x);
    RefsCat(b, a, x);
  }

  lemma CountedReordered(s: State, a: seq<Request>, b: seq<Request>)
    requires Counted(s, a + b)
    ensures Counted(s, b + a)
  {
    forall c | c in s.clients ensures ClientCounted(s, b + a, c) {
      assert ClientCounted(s, a + b, c);
      Reordered(a, b, c);
    }
    forall h | h in s.sessions ensures s.sessions[h].refs == SessionRefs(b + a, h) {
      Reordered(a, b, h);
    }
  }

  /** A request asked for is one more reference. */
  lemma IncCounted(s: State, r: Request, p: seq<Request>)
    requires Counted(s, p) && Names(s, r)
    requires r.Login? ==> s.clients[r.client].state == Connecting && LoginRefs(p, r.client) == 0
    ensures Counted(Inc(s, r), [r] + p)
  {
    var t := Inc(s, r);
    forall c | c in t.clients ensures ClientCounted(t, [r] + p, c) {
      assert ClientCounted(s, p, c);
      RefsCat([r], p, c);
      RefsOne(r, c);
    }
    forall h | h in t.sessions ensures t.sessions[h].refs == SessionRefs([r] + p, h) {
      RefsCat([r], p, h);
      RefsOne(r, h);
    }
    forall q | q in [r] + p ensures Names(t, q) {
      assert q == r || q in p;
    }
  }

  /** A request executed is one reference fewer. */
  lemma ExecutedCounted(s: State, r: Request, rest: seq<Request>, made: Handle, generated: string)
    requires Core(s) && Counted(s, [r] + rest) && made !in s.sessions
    ensures Names(s, r) && (r.Login? ==> s.clients[r.client].session == None)
    ensures var t := Visited(s, r, made, generated); Names(t, r) && Counted(Dec(t, r), rest)
  {
    RunningNamed(s, r, rest);
    var t := Visited(s, r, made, generated);
    VisitedKeeps(s, r, made, generated);
    NamesKept(s, t, r);
    forall c | c in t.clients ensures ClientCounted(Dec(t, r), rest, c) {
      DecClient(s, r, rest, made, generated, c);
    }
    forall h | h in t.sessions ensures Dec(t, r).sessions[h].refs == SessionRefs(rest, h) {
      DecSession(s, t, r, rest, h);
    }
    forall q | q in rest ensures Names(Dec(t, r), q) {
      assert q in [r] + rest;
      NamesKept(s, t, q);
    }
  }

  lemma RunningNamed(s: State, r: Request, rest: seq<Request>)
    requires Core(s) && Counted(s, [r] + rest)
    ensures Names(s, r) && (r.Login? ==> s.clients[r.client].session == None)
  {
    assert r in [r] + rest;
    if r.Login? {
      assert ClientCounted(s, [r] + rest, r.client);
      RefsCat([r], rest, r.client);
      RefsOne(r, r.client);
    }
  }

  lemma NamesKept(s: State, t: State, r: Request)
    requires Names(s, r) && s.clients.Keys <= t.clients.Keys && s.sessions.Keys <= t.sessions.Keys
    ensures Names(t, r)
  {
  }

  lemma DecClient(s: State, r: Request, rest: seq<Request>, made: Handle, generated: string, c: Handle)
    requires Core(s) && Counted(s, [r] + rest) && made !in s.sessions && Names(s, r) && c in s.clients
    requires r.Login? ==> s.clients[r.client].session == None
    ensures var t := Visited(s, r, made, generated); Names(t, r) && c in t.clients && ClientCounted(Dec(t, r), rest, c)
  {
    hide Core, Visited, ClientRefs, LoginRefs;
    var t := Visited(s, r, made, generated);
    VisitedKeeps(s, r, made, generated);
    assert ClientCounted(s, [r] + rest, c);
    assert KeepsClient(s, t, if r.Subscribe? then 0 else r.client, c);
    SubscribeSame(s, r, made, generated);
    RefsCat([r], rest, c);
    RefsOne(r, c);
  }

  lemma SubscribeSame(s: State, r: Request, made: Handle, generated: string)
    requires Core(s) && Names(s, r) && (r.Login? ==> s.clients[r.client].session == None)
    ensures r.Subscribe? ==> Visited(s, r, made, generated) == s
  {
  }

  lemma DecSession(s: State, t: State, r: Request, rest: seq<Request>, h: Handle)
    requires Counted(s, [r] + rest) && Names(s, r) && Names(t, r) && h in t.sessions
    requires t.sessions[h].refs == if h in s.sessions then s.sessions[h].refs else 0
    ensures Dec(t, r).sessions[h].refs == SessionRefs(rest, h)
  {
    RefsCat([r], rest, h);
    RefsOne(r, h);
    if h !in s.sessions {
      Unnamed(s, [r] + rest, h);
    }
  }

  /** A session that does not exist has no requests. */
  lemma {:induction false} Unnamed(s: State, p: seq<Request>, h: Handle)
    requires h !in s.sessions && forall r :: r in p ==> Names(s, r)
    ensures SessionRefs(p, h) == 0
  {
    if p != [] {
      assert p[0] in p;
      Unnamed(s, p[1..], h);
    }
  }

  // Steps

  lemma RefsCore(s: State, t: State)
    requires Core(s) && t.byId == s.byId && t.deleted == s.deleted && t.sessions.Keys == s.sessions.Keys
             && t.clients.Keys == s.clients.Keys
    requires forall c :: c in s.clients ==>
               t.clients[c].session == s.clients[c].session && t.clients[c].loggedOut == s.clients[c].loggedOut
    requires forall h :: h in s.sessions ==> t.sessions[h] == s.sessions[h].(refs := t.sessions[h].refs)
    ensures Core(t)
  {
    forall g | g in t.sessions && g !in t.deleted ensures Listed(t, g) { assert Listed(s, g); }
    forall x | x in t.clients && t.clients[x].session.Some? ensures ToSession(t, x) { assert ToSession(s, x); }
    forall g | g in t.sessions && t.sessions[g].current.Some? ensures ToClient(t, g) { assert ToClient(s, g); }
  }

  datatype Event =
    | Accept(client: Handle)
    | Ask(request: Request, toInternal: bool)
    | AskNow(now: Request, made: Handle, generated: string)
    | Execute(fromInternal: bool, madeLater: Handle, generatedLater: string)
    | Expire(expired: Handle)
    | Free

  /** Who asks: a connection asks for its login once, as its first packet; a session is named by its connection. */
  predicate MayAsk(s: State, r: Request) {
    match r
    case Login(c, id, clean) => c in s.clients && s.clients[c].state == Initial && (id == "" ==> clean)
    case Logout(c) => c in s.clients
    case Subscribe(h) => exists c :: c in s.clients && s.clients[c].session == Some(h)
  }

  predicate FreshFor(s: State, made: Handle, generated: string) {
    made !in s.sessions && generated !in s.byId
  }

  predicate Enabled(s: State, e: Event) {
    match e
    case Accept(c) => c !in s.clients
    case Ask(r, _) => MayAsk(s, r)
    case AskNow(r, made, generated) => MayAsk(s, r) && FreshFor(s, made, generated)
    case Execute(fromInternal, made, generated) => (if fromInternal then s.internal else s.queue) != []
        && FreshFor(s, made, generated)
    case Expire(c) => c in s.clients
    case Free => s.shouldCleanup
  }

  function Asking(s: State, r: Request): State
    requires r.Login? ==> r.client in s.clients
  {
    if r.Login? then SetClient(s, r.client, s.clients[r.client].(state := Connecting)) else s
  }

  function Executed(s: State, r: Request, made: Handle, generated: string): State
    requires Core(s) && Names(s, r) && (r.Login? ==> s.clients[r.client].session == None) && made !in s.sessions
  {
    VisitedKeeps(s, r, made, generated);
    Dec(Visited(s, r, made, generated), r)
  }

  function Enqueued(s: State, r: Request, toInternal: bool): State {
    if toInternal then s.(internal := s.internal + [r]) else s.(queue := s.queue + [r])
  }

  function Popped(s: State, fromInternal: bool): State
    requires (if fromInternal then s.internal else s.queue) != []
  {
    if fromInternal then s.(internal := s.internal[1..]) else s.(queue := s.queue[1..])
  }

  /** Frees the connections and the deleted sessions that no request names. */
  function Freed(s: State): State {
    var gone := set c | c in s.clients && s.clients[c].loggedOut && s.clients[c].refs == 0;
    var dead := set h | h in s.deleted && h in s.sessions && s.sessions[h].refs == 0;
    s.(clients := s.clients - gone, sessions := s.sessions - dead, deleted := s.deleted - dead, shouldCleanup := false)
  }

  ghost predicate Good(s: State) {
    Inv(s, [])
  }

  lemma MayAskNames(s: State, r: Request)
    requires Good(s) && MayAsk(s, r)
    ensures Names(s, r) && Core(Asking(s, r)) && Names(Asking(s, r), r)
    ensures Counted(Inc(Asking(s, r), r), [r] + Pending(s, [])) && Core(Inc(Asking(s, r), r))
            && Swept(Inc(Asking(s, r), r))
    ensures r.Login? ==> s.clients[r.client].session == None
  {
    var p := Pending(s, []);
    if r.Subscribe? {
      var c :| c in s.clients && s.clients[c].session == Some(r.session);
      assert ToSession(s, c);
    } else if r.Login? {
      assert ClientCounted(s, p, r.client);
      StateCore(s, r.client, Connecting);
      AskingCounted(s, r.client, p);
    }
    IncCounted(Asking(s, r), r, p);
    IncCore(Asking(s, r), r);
  }

  lemma AskingCounted(s: State, c: Handle, p: seq<Request>)
    requires Counted(s, p) && c in s.clients && s.clients[c].state == Initial
    ensures Counted(SetClient(s, c, s.clients[c].(state := Connecting)), p) && LoginRefs(p, c) == 0
  {
    var t := SetClient(s, c, s.clients[c].(state := Connecting));
    assert ClientCounted(s, p, c);
    forall x | x in t.clients ensures ClientCounted(t, p, x) { assert ClientCounted(s, p, x); }
    forall q | q in p ensures Names(t, q) { assert Names(s, q); }
  }

  lemma IncCore(s: State, r: Request)
    requires Core(s) && Names(s, r)
    ensures Core(Inc(s, r))
  {
    RefsCore(s, Inc(s, r));
  }

  lemma DecCore(s: State, r: Request)
    requires Core(s) && Names(s, r)
    ensures Core(Dec(s, r))
  {
    RefsCore(s, Dec(s, r));
  }

  /** Executing request r, of those pending, keeps the invariant for the rest. */
  lemma ExecutedInv(s: State, r: Request, rest: seq<Request>, made: Handle, generated: string)
    requires Core(s) && Counted(s, [r] + rest) && Swept(s) && made !in s.sessions
    ensures Names(s, r) && (r.Login? ==> s.clients[r.client].session == None)
    ensures var t := Executed(s, r, made, generated);
            Core(t) && Counted(t, rest) && Swept(t) && t.queue == s.queue && t.internal == s.internal
  {
    hide Core, Counted;
    ExecutedCounted(s, r, rest, made, generated);
    VisitedKeeps(s, r, made, generated);
    DecCore(Visited(s, r, made, generated), r);
    VisitedSwept(s, r, made, generated);
    DecSwept(Visited(s, r, made, generated), r);
  }

  lemma VisitedSwept(s: State, r: Request, made: Handle, generated: string)
    requires Core(s) && Names(s, r) && (r.Login? ==> s.clients[r.client].session == None) && made !in s.sessions
             && Swept(s)
    ensures Swept(Visited(s, r, made, generated))
  {
    hide Core, Visited;
    VisitedKeeps(s, r, made, generated);
    var t := Visited(s, r, made, generated);
    forall c | c in t.clients && t.clients[c].loggedOut && t.clients[c].refs == 0 ensures t.shouldCleanup {
      assert KeepsClient(s, t, if r.Subscribe? then 0 else r.client, c);
    }
  }

  lemma DecSwept(s: State, r: Request)
    requires Names(s, r) && Swept(s)
    ensures Swept(Dec(s, r))
  {
  }

  lemma AskKeeps(s: State, r: Request, toInternal: bool)
    requires Good(s) && MayAsk(s, r)
    ensures Names(Asking(s, r), r) && Good(Enqueued(Inc(Asking(s, r), r), r, toInternal))
  {
    hide Counted, Core, Swept;
    MayAskNames(s, r);
    var s1 := Inc(Asking(s, r), r);
    var t := Enqueued(s1, r, toInternal);
    QueueCore(s1, t);
    AskedPending(s, r, toInternal);
    if toInternal {
      CountedReordered(s1, [r], Pending(s, []));
    } else {
      CountedMiddle(s1, [r], s.queue, s.internal);
    }
    QueueCounted(s1, t, Pending(t, []));
    assert Swept(t) by { SweptSame(s1, t); }
  }

  lemma QueueCore(s: State, t: State)
    requires Core(s) && t.clients == s.clients && t.sessions == s.sessions && t.byId == s.byId && t.deleted == s.deleted
    ensures Core(t)
  {
    RefsCore(s, t);
  }

  lemma SweptSame(s: State, t: State)
    requires Swept(s) && t.clients == s.clients && t.shouldCleanup == s.shouldCleanup
    ensures Swept(t)
  {
  }

  lemma AskedPending(s: State, r: Request, toInternal: bool)
    requires (r.Login? ==> r.client in s.clients) && Names(Asking(s, r), r)
    ensures var t := Enqueued(Inc(Asking(s, r), r), r, toInternal);
            Pending(t, []) == (if toInternal then Pending(s, []) + [r] else (s.queue + [r]) + s.internal)
    ensures [r] + Pending(s, []) == ([r] + s.queue) + s.internal
  {
    var q, i := s.queue, s.internal;
    assert Pending(s, []) == q + i;
    assert [r] + (q + i) == ([r] + q) + i;
    assert (q + i) + [r] == q + (i + [r]);
    assert [] + (q + [r]) == q + [r];
  }

  lemma CountedMiddle(s: State, a: seq<Request>, b: seq<Request>, c: seq<Request>)
    requires Counted(s, (a + b) + c)
    ensures Counted(s, (b + a) + c)
  {
    forall x | x in s.clients ensures ClientCounted(s, (b + a) + c, x) {
      assert ClientCounted(s, (a + b) + c, x);
      RefsCat(a + b, c, x); RefsCat(b + a, c, x);
      Reordered(a, b, x);
    }
    forall h | h in s.sessions ensures s.sessions[h].refs == SessionRefs((b + a) + c, h) {
      RefsCat(a + b, c, h); RefsCat(b + a, c, h);
      Reordered(a, b, h);
    }
  }

  lemma QueueCounted(s: State, t: State, p: seq<Request>)
    requires Counted(s, p) && t.clients == s.clients && t.sessions == s.sessions
    ensures Counted(t, p)
  {
    forall x | x in t.clients ensures ClientCounted(t, p, x) { assert ClientCounted(s, p, x); }
    forall q | q in p ensures Names(t, q) { assert Names(s, q); }
  }

  lemma AskNowKeeps(s: State, r: Request, made: Handle, generated: string)
    requires Good(s) && MayAsk(s, r) && FreshFor(s, made, generated)
    ensures Names(Asking(s, r), r)
    ensures var s1 := Inc(Asking(s, r), r);
            && Core(s1) && Names(s1, r) && (r.Login? ==> s1.clients[r.client].session == None) && made !in s1.sessions
            && Good(Executed(s1, r, made, generated))
  {
    MayAskNames(s, r);
    ExecutedInv(Inc(Asking(s, r), r), r, Pending(s, []), made, generated);
  }

  lemma ExecuteKeeps(s: State, fromInternal: bool, made: Handle, generated: string)
    requires Good(s) && Enabled(s, Execute(fromInternal, made, generated))
    ensures var r, s1 := (if fromInternal then s.internal else s.queue)[0], Popped(s, fromInternal);
            && Core(s1) && Names(s1, r) && (r.Login? ==> s1.clients[r.client].session == None) && made !in s1.sessions
            && Good(Executed(s1, r, made, generated))
  {
    var q := if fromInternal then s.internal else s.queue;
    var r, s1 := q[0], Popped(s, fromInternal);
    assert q == [r] + q[1..];
    if fromInternal {
      assert Pending(s, []) == (s.queue + [r]) + q[1..];
      CountedMiddle(s, s.queue, [r], q[1..]);
      assert ([r] + s.queue) + q[1..] == [r] + Pending(s1, []);
    } else {
      assert Pending(s, []) == [r] + Pending(s1, []);
    }
    QueueCounted(s, s1, [r] + Pending(s1, []));
    RefsCore(s, s1);
    ExecutedInv(s1, r, Pending(s1, []), made, generated);
  }

  lemma ExpireKeeps(s: State, c: Handle)
    requires Good(s) && c in s.clients
    ensures Good(LoggedOut(s, c))
  {
    hide Core;
    LoggedOutCore(s, c);
    LoggedOutKeeps(s, c, c);
    LoggedOutState(s, c);
    var t, p := LoggedOut(s, c), Pending(s, []);
    forall x | x in t.clients ensures ClientCounted(t, p, x) {
      assert ClientCounted(s, p, x) && KeepsClient(s, t, c, x);
    }
    forall h | h in t.sessions ensures t.sessions[h].refs == SessionRefs(p, h) {
      if h !in s.sessions { Unnamed(s, p, h); }
    }
    forall q | q in p ensures Names(t, q) { NamesKept(s, t, q); }
    forall x | x in t.clients && t.clients[x].loggedOut && t.clients[x].refs == 0 ensures t.shouldCleanup {
      assert KeepsClient(s, t, c, x);
    }
  }

  lemma AcceptKeeps(s: State, c: Handle)
    requires Good(s) && c !in s.clients
    ensures Good(SetClient(s, c, Connection(Initial, false, None, 0)))
  {
    var t, p := SetClient(s, c, Connection(Initial, false, None, 0)), Pending(s, []);
    AcceptCore(s, c);
    forall x | x in t.clients ensures ClientCounted(t, p, x) {
      if x == c { NoRequests(s, p, c); } else { assert ClientCounted(s, p, x); }
    }
    forall q | q in p ensures Names(t, q) { assert Names(s, q); }
  }

  lemma AcceptCore(s: State, c: Handle)
    requires Core(s) && c !in s.clients
    ensures Core(SetClient(s, c, Connection(Initial, false, None, 0)))
  {
    var t := SetClient(s, c, Connection(Initial, false, None, 0));
    forall g | g in t.sessions && g !in t.deleted ensures Listed(t, g) { assert Listed(s, g); }
    forall x | x in t.clients && t.clients[x].session.Some? ensures ToSession(t, x) { assert ToSession(s, x); }
    forall g | g in t.sessions && t.sessions[g].current.Some? ensures ToClient(t, g) { assert ToClient(s, g); }
  }

  lemma {:induction false} NoRequests(s: State, p: seq<Request>, c: Handle)
    requires c !in s.clients && forall r :: r in p ==> Names(s, r)
    ensures ClientRefs(p, c) == 0 && LoginRefs(p, c) == 0
  {
    if p != [] {
      assert p[0] in p;
      NoRequests(s, p[1..], c);
    }
  }

  /** Nothing still named by a session or by a request is freed. */
  lemma FreedUnnamed(s: State)
    requires Good(s)
    ensures forall c :: c in s.clients && c !in Freed(s).clients ==>
      ((forall h :: h in s.sessions ==> s.sessions[h].current != Some(c))
       && (forall r :: r in Pending(s, []) ==> r.Subscribe? || r.client != c))
    ensures forall h :: h in s.sessions && h !in Freed(s).sessions ==>
      ((forall c :: c in s.clients ==> s.clients[c].session != Some(h))
       && (forall r :: r in Pending(s, []) ==> !r.Subscribe? || r.session != h)
       && forall id :: id in s.byId ==> s.byId[id] != h)
  {
    var p := Pending(s, []);
    forall c | c in s.clients && c !in Freed(s).clients
      ensures (forall h :: h in s.sessions ==> s.sessions[h].current != Some(c))
              && (forall r :: r in p ==> r.Subscribe? || r.client != c)
    {
      assert ClientCounted(s, p, c);
      UnnamedClient(s, c);
      Unasked(p, c);
    }
    forall h | h in s.sessions && h !in Freed(s).sessions
      ensures (forall c :: c in s.clients ==> s.clients[c].session != Some(h))
              && (forall r :: r in p ==> !r.Subscribe? || r.session != h)
              && forall id :: id in s.byId ==> s.byId[id] != h
    {
      UnnamedSession(s, h);
      Unasked(p, h);
    }
  }

  lemma UnnamedClient(s: State, c: Handle)
    requires Core(s) && c in s.clients && s.clients[c].loggedOut
    ensures forall h :: h in s.sessions ==> s.sessions[h].current != Some(c)
  {
    forall h | h in s.sessions ensures s.sessions[h].current != Some(c) {
      if s.sessions[h].current.Some? {
        assert ToClient(s, h);
        assert ToSession(s, s.sessions[h].current.value);
      }
    }
  }

  lemma UnnamedSession(s: State, h: Handle)
    requires Core(s) && h in s.deleted
    ensures forall c :: c in s.clients ==> s.clients[c].session != Some(h)
    ensures s.sessions[h].current == None
  {
    forall c | c in s.clients ensures s.clients[c].session != Some(h) {
      if s.clients[c].session.Some? { assert ToSession(s, c); }
    }
    assert s.sessions[h].current.Some? ==> ToClient(s, h);
  }

  /** An object with no counted requests is named by none. */
  lemma {:induction false} Unasked(p: seq<Request>, x: Handle)
    ensures ClientRefs(p, x) == 0 ==> forall r :: r in p ==> r.Subscribe? || r.client != x
    ensures SessionRefs(p, x) == 0 ==> forall r :: r in p ==> !r.Subscribe? || r.session != x
  {
    if p != [] {
      Unasked(p[1..], x);
      assert forall r :: r in p ==> r == p[0] || r in p[1..];
    }
  }

  lemma FreeKeeps(s: State)
    requires Good(s)
    ensures Good(Freed(s))
  {
    hide Core;
    var t, p := Freed(s), Pending(s, []);
    FreedUnnamed(s);
    FreedCore(s);
    forall c | c in t.clients ensures ClientCounted(t, p, c) { assert ClientCounted(s, p, c); }
    forall q | q in p ensures Names(t, q) { assert Names(s, q); }
  }

  lemma FreedCore(s: State)
    requires Good(s)
    ensures Core(Freed(s))
  {
    FreedUnnamed(s);
    var t := Freed(s);
    forall g | g in t.sessions && g !in t.deleted ensures Listed(t, g) { assert Listed(s, g); }
    forall x | x in t.clients && t.clients[x].session.Some? ensures ToSession(t, x) { assert ToSession(s, x); }
    forall g | g in t.sessions && t.sessions[g].current.Some? ensures ToClient(t, g) { assert ToClient(s, g); }
  }

  // Runs

  ghost function Apply(s: State, e: Event): State
    requires Good(s) && Enabled(s, e)
  {
    match e
    case Accept(c) => SetClient(s, c, Connection(Initial, false, None, 0))
    case Ask(r, toInternal) =>
      MayAskNames(s, r);
      Enqueued(Inc(Asking(s, r), r), r, toInternal)
    case AskNow(r, made, generated) =>
      AskNowKeeps(s, r, made, generated);
      Executed(Inc(Asking(s, r), r), r, made, generated)
    case Execute(fromInternal, made, generated) =>
      ExecuteKeeps(s, fromInternal, made, generated);
      Executed(Popped(s, fromInternal), (if fromInternal then s.internal else s.queue)[0], made, generated)
    case Expire(c) => LoggedOut(s, c)
    case Free => Freed(s)
  }

  lemma ApplyKeeps(s: State, e: Event)
    requires Good(s) && Enabled(s, e)
    ensures Good(Apply(s, e))
  {
    hide Inv;
    match e
    case Accept(c) => AcceptKeeps(s, c);
    case Ask(r, toInternal) => AskKeeps(s, r, toInternal);
    case AskNow(r, made, generated) => AskNowKeeps(s, r, made, generated);
    case Execute(fromInternal, made, generated) => ExecuteKeeps(s, fromInternal, made, generated);
    case Expire(c) => ExpireKeeps(s, c);
    case Free => FreeKeeps(s);
  }

  /**
   * A run from the empty broker; what an event does is defined by the invariant, which RunGood shows to hold
   * throughout.
   */
  ghost predicate Run(ss: seq<State>, es: seq<Event>) {
    && |ss| == |es| + 1 && ss[0] == START
    && forall i :: 0 <= i < |es| ==> Enabled(ss[i], es[i]) && (Good(ss[i]) ==> ss[i + 1] == Apply(ss[i], es[i]))
  }

  lemma {:induction false} RunGood(ss: seq<State>, es: seq<Event>, i: nat)
    requires Run(ss, es) && i <= |es|
    ensures Good(ss[i])
  {
    hide Inv, Apply;
    if i == 0 {
      StartGood();
    } else {
      RunGood(ss, es, i - 1);
      ApplyKeeps(ss[i - 1], es[i - 1]);
    }
  }

  lemma StartGood()
    ensures Good(START)
  {
    assert Pending(START, []) == [];
  }

  /**
   * In every run the links are symmetric, one to one, and only between a session in the table and a connection in use.
   */
  lemma LinksOverRuns(ss: seq<State>, es: seq<Event>, i: nat, c: Handle, h: Handle)
    requires Run(ss, es) && i <= |es| && c in ss[i].clients && h in ss[i].sessions
    ensures var s := ss[i];
            && (s.clients[c].session == Some(h) <==> s.sessions[h].current == Some(c))
            && (s.clients[c].session == Some(h) ==> !s.clients[c].loggedOut && h !in s.deleted)
            && (h !in s.deleted && s.sessions[h].clean ==> s.sessions[h].current.Some?)
            && (h !in s.deleted ==> s.sessions[h].clientId in s.byId && s.byId[s.sessions[h].clientId] == h)
  {
    RunGood(ss, es, i);
    var s := ss[i];
    if s.clients[c].session.Some? { assert ToSession(s, c); }
    if s.sessions[h].current.Some? { assert ToClient(s, h); }
    if h !in s.deleted { assert Listed(s, h); }
  }

  /**
   * In every run a connection's reference count is the number of requests pending for it, and at most one is a login.
   */
  lemma RefsOverRuns(ss: seq<State>, es: seq<Event>, i: nat, c: Handle)
    requires Run(ss, es) && i <= |es| && c in ss[i].clients
    ensures var s := ss[i];
            && s.clients[c].refs == ClientRefs(s.queue + s.internal, c)
            && LoginRefs(s.queue + s.internal, c) <= 1
            && (s.clients[c].loggedOut && s.clients[c].refs == 0 ==> s.shouldCleanup)
  {
    RunGood(ss, es, i);
    var s := ss[i];
    assert [] + s.queue == s.queue;
    assert ClientCounted(s, Pending(s, []), c);
  }

  /** In every run, what a cleanup frees is named by nothing that stays. */
  lemma FreedOverRuns(ss: seq<State>, es: seq<Event>, i: nat)
    requires Run(ss, es) && i < |es| && es[i].Free?
    ensures var s, t := ss[i], ss[i + 1];
            && (forall h :: h in t.sessions && t.sessions[h].current.Some? ==> t.sessions[h].current.value in t.clients)
            && (forall c :: c in t.clients && t.clients[c].session.Some? ==> t.clients[c].session.value in t.sessions)
            && (forall r :: r in t.queue + t.internal ==> Names(t, r))
            && (forall c :: c in s.clients ==> (c in t.clients <==> !s.clients[c].loggedOut || s.clients[c].refs != 0))
  {
    RunGood(ss, es, i);
    RunGood(ss, es, i + 1);
    var s, t := ss[i], ss[i + 1];
    assert [] + t.queue == t.queue;
    forall h | h in t.sessions && t.sessions[h].current.Some?
      ensures t.sessions[h].current.value in t.clients { assert ToClient(t, h); }
    forall c | c in t.clients && t.clients[c].session.Some?
      ensures t.clients[c].session.value in t.sessions { assert ToSession(t, c); }
  }
}
