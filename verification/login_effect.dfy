/** What one login and one logout do to every connection and every session, and what that keeps over runs. */
module LoginEffect {
  import opened LoginState
  import opened LoginRuns

  /** Connections other than c and p are the same in s and t. */
  ghost predicate SameClients(s: State, t: State, c: Handle, p: Handle) {
    t.clients.Keys == s.clients.Keys && forall x :: x in s.clients && x != c && x != p ==> t.clients[x] == s.clients[x]
  }

  /** A logout unlinks the connection and its session, and deletes the session exactly if that one is clean. */
  lemma LogoutEffect(s: State, c: Handle)
    requires Core(s) && c in s.clients
    ensures var t := LoggedOut(s, c);
            && (s.clients[c].loggedOut ==> t == s)
            && (!s.clients[c].loggedOut ==>
                  && t.shouldCleanup && t.queue == s.queue && t.internal == s.internal && SameClients(s, t, c, c)
                  && t.clients[c] == s.clients[c].(loggedOut := true, session := None))
    ensures !s.clients[c].loggedOut && s.clients[c].session == None ==>
              var t := LoggedOut(s, c); t.sessions == s.sessions && t.byId == s.byId && t.deleted == s.deleted
    ensures !s.clients[c].loggedOut && s.clients[c].session.Some? ==>
              var t, h := LoggedOut(s, c), s.clients[c].session.value;
              && h in s.sessions && h !in s.deleted
              && t.sessions == s.sessions[h := s.sessions[h].(current := None)]
              && (s.sessions[h].clean ==>
                    t.deleted == s.deleted + {h} && t.byId == s.byId - {s.sessions[h].clientId})
              && (!s.sessions[h].clean ==>
                    && t.deleted == s.deleted && t.byId == s.byId
                    && s.sessions[h].clientId in t.byId && t.byId[s.sessions[h].clientId] == h)
  {
    if !s.clients[c].loggedOut && s.clients[c].session.Some? {
      assert ToSession(s, c);
      var h := s.clients[c].session.value;
      assert Listed(s, h);
      OneId(s, h);
    }
  }

  /** A session in the table is found by its own client id only. */
  lemma OneId(s: State, h: Handle)
    requires Table(s) && h in s.sessions && h !in s.deleted
    ensures IdsOf(s, h) == {s.sessions[h].clientId}
  {
    assert Listed(s, h);
  }

  /** The connection a session has, or c if it has none. */
  function Previous(s: State, h: Handle, c: Handle): Handle {
    if h in s.sessions && s.sessions[h].current.Some? then s.sessions[h].current.value else c
  }

  /**
   * A login links the connection with the session its client id finds, or with a new one, gives that session the
   * login's clean flag, and logs out the connection the session had; nothing else changes.
   */
  lemma LoginEffect(s: State, c: Handle, id: string, clean: bool, made: Handle)
    requires Core(s) && c in s.clients && s.clients[c].session == None && !s.clients[c].loggedOut && made !in s.sessions
    ensures var t, h := LoggedIn(s, c, id, clean, made), if id in s.byId then s.byId[id] else made;
            var p := Previous(s, h, c);
            && t.clients.Keys == s.clients.Keys && p in s.clients && SameClients(s, t, c, p)
            && t.clients[c] == Connection(Connected, false, Some(h), s.clients[c].refs)
            && (p != c ==> t.clients[p] == s.clients[p].(loggedOut := true, session := None))
            && t.sessions == s.sessions[h := Session(id, Some(c), clean, if id in s.byId then s.sessions[h].refs
                                                     else 0)]
            && t.byId == s.byId[id := h] && t.deleted == s.deleted && h !in t.deleted
            && t.queue == s.queue && t.internal == s.internal && (t.shouldCleanup <==> s.shouldCleanup || p != c)
  {
    hide LoggedOut;
    KeepsClients(s, c, id, clean, made);
    if id in s.byId {
      TakeOverEffect(s, c, id, clean);
    } else {
      assert made !in s.deleted;
    }
  }

  lemma TakeOverEffect(s: State, c: Handle, id: string, clean: bool)
    requires Core(s) && c in s.clients && s.clients[c].session == None && !s.clients[c].loggedOut && id in s.byId
    ensures var t, h := TakenOver(s, c, id, clean), s.byId[id];
            var p := Previous(s, h, c);
            && t.clients.Keys == s.clients.Keys && p in s.clients && SameClients(s, t, c, p)
            && t.clients[c] == s.clients[c].(session := Some(h))
            && (p != c ==> t.clients[p] == s.clients[p].(loggedOut := true, session := None))
            && t.sessions == s.sessions[h := Session(id, Some(c), clean, s.sessions[h].refs)]
            && t.byId == s.byId && t.deleted == s.deleted && h !in t.deleted
            && t.queue == s.queue && t.internal == s.internal && (t.shouldCleanup <==> s.shouldCleanup || p != c)
  {
    hide LoggedOut;
    var h := s.byId[id];
    assert Listed(s, h);
    ReplacedCore(s, h, c, clean);
    if s.sessions[h].current.Some? {
      var p := s.sessions[h].current.value;
      assert ToClient(s, h);
      assert ToSession(s, p);
      LogoutEffect(Replaced(s, h, c, clean), p);
    }
  }

  /** The executed login request: one reference fewer, and an empty client id is replaced by the generated one. */
  lemma ExecutedLogin(s: State, c: Handle, asked: string, clean: bool, made: Handle, generated: string)
    requires Core(s) && c in s.clients && s.clients[c].session == None && !s.clients[c].loggedOut && made !in s.sessions
    ensures Names(s, Login(c, asked, clean))
    ensures var t := Executed(s, Login(c, asked, clean), made, generated);
            var id := if asked == "" then generated else asked;
            var h := if id in s.byId then s.byId[id] else made;
            var p := Previous(s, h, c);
            && SameClients(s, t, c, p) && t.clients[c] == Connection(Connected, false, Some(h), s.clients[c].refs - 1)
            && (p != c ==> p in s.clients && t.clients[p] == s.clients[p].(loggedOut := true, session := None))
            && t.sessions == s.sessions[h := Session(id, Some(c), clean, if id in s.byId then s.sessions[h].refs
                                                     else 0)]
            && t.byId == s.byId[id := h] && t.deleted == s.deleted
  {
    hide Core, LoggedIn;
    LoginEffect(s, c, EffectiveId(asked, generated), clean, made);
    VisitedKeeps(s, Login(c, asked, clean), made, generated);
  }

  // What runs keep

  /**
   * A connected connection that was not logged out has a session, every deleted session is a clean one, and a cleanup
   * is due only when some connection was logged out.
   */
  ghost predicate Tidy(s: State) {
    && (forall c :: c in s.clients ==> HasSession(s.clients[c]))
    && (forall h :: h in s.deleted && h in s.sessions ==> s.sessions[h].clean)
    && (s.shouldCleanup ==> exists c :: c in s.clients && s.clients[c].loggedOut)
  }

  predicate HasSession(v: Connection) {
    v.state == Connected && !v.loggedOut ==> v.session.Some?
  }

  lemma LogoutTidy(s: State, c: Handle)
    requires Core(s) && Tidy(s) && c in s.clients
    ensures Tidy(LoggedOut(s, c))
  {
    hide Core, LoggedOut;
    LogoutEffect(s, c);
    var t := LoggedOut(s, c);
    forall x | x in t.clients ensures HasSession(t.clients[x]) { if x != c { assert HasSession(s.clients[x]); } }
  }

  lemma LoginTidy(s: State, c: Handle, id: string, clean: bool, made: Handle)
    requires Core(s) && Tidy(s) && c in s.clients && s.clients[c].session == None && made !in s.sessions
    ensures Tidy(LoggedIn(s, c, id, clean, made))
  {
    hide LoggedIn;
    if s.clients[c].loggedOut {
      LoginRefused(s, c, id, clean, made);
    } else {
      LoginEffect(s, c, id, clean, made);
      var t, h := LoggedIn(s, c, id, clean, made), if id in s.byId then s.byId[id] else made;
      var p := Previous(s, h, c);
      forall x | x in t.clients ensures HasSession(t.clients[x]) {
        if x != c && x != p { assert HasSession(s.clients[x]); }
      }
      if s.shouldCleanup {
        var x :| x in s.clients && s.clients[x].loggedOut;
        assert x != c && t.clients[x].loggedOut;
      }
    }
  }

  /** A connection that was logged out before its login is executed stays as it is. */
  lemma LoginRefused(s: State, c: Handle, id: string, clean: bool, made: Handle)
    requires Core(s) && c in s.clients && s.clients[c].session == None && s.clients[c].loggedOut
    ensures LoggedIn(s, c, id, clean, made) == s
  {
  }

  lemma ExecutedTidy(s: State, r: Request, made: Handle, generated: string)
    requires Core(s) && Names(s, r) && (r.Login? ==> s.clients[r.client].session == None) && made !in s.sessions
             && Tidy(s)
    ensures Tidy(Executed(s, r, made, generated))
  {
    hide Core, LoggedIn, LoggedOut, KeepsClient, Tidy;
    VisitedKeeps(s, r, made, generated);
    match r {
      case Login(c, id, clean) => LoginTidy(s, c, EffectiveId(id, generated), clean, made);
      case Logout(c) => LogoutTidy(s, c);
      case Subscribe(_) =>
    }
    DecTidy(Visited(s, r, made, generated), r);
  }

  lemma DecTidy(s: State, r: Request)
    requires Names(s, r) && Tidy(s)
    ensures Tidy(Dec(s, r))
  {
    var t := Dec(s, r);
    forall x | x in t.clients ensures HasSession(t.clients[x]) { assert HasSession(s.clients[x]); }
    if s.shouldCleanup {
      var x :| x in s.clients && s.clients[x].loggedOut;
      assert t.clients[x].loggedOut;
    } else if t.shouldCleanup {
      assert t.clients[r.client].loggedOut;
    }
  }

  lemma IncTidy(s: State, r: Request)
    requires (r.Login? ==> r.client in s.clients) && Names(Asking(s, r), r) && Tidy(s)
    ensures Tidy(Inc(Asking(s, r), r))
  {
    var t := Inc(Asking(s, r), r);
    forall x | x in t.clients ensures HasSession(t.clients[x]) { assert HasSession(s.clients[x]); }
    if s.shouldCleanup {
      var x :| x in s.clients && s.clients[x].loggedOut;
      assert t.clients[x].loggedOut;
    }
  }

  lemma SameTidy(s: State, t: State)
    requires Tidy(s) && t.clients == s.clients && t.sessions == s.sessions && t.deleted == s.deleted
    requires t.shouldCleanup ==> s.shouldCleanup
    ensures Tidy(t)
  {
  }

  lemma AcceptTidy(s: State, c: Handle)
    requires Tidy(s) && c !in s.clients
    ensures Tidy(SetClient(s, c, Connection(Initial, false, None, 0)))
  {
    var t := SetClient(s, c, Connection(Initial, false, None, 0));
    forall x | x in t.clients ensures HasSession(t.clients[x]) { if x != c { assert HasSession(s.clients[x]); } }
    if s.shouldCleanup {
      var x :| x in s.clients && s.clients[x].loggedOut;
      assert t.clients[x].loggedOut;
    }
  }

  lemma FreeTidy(s: State)
    requires Tidy(s)
    ensures Tidy(Freed(s))
  {
  }

  lemma ApplyTidy(s: State, e: Event)
    requires Good(s) && Enabled(s, e) && Tidy(s)
    ensures Tidy(Apply(s, e))
  {
    hide Tidy, Core, Counted, Executed, Inc, LoggedOut, Freed;
    match e
    case Accept(c) => AcceptTidy(s, c);
    case Ask(r, toInternal) =>
      MayAskNames(s, r);
      IncTidy(s, r);
      SameTidy(Inc(Asking(s, r), r), Apply(s, e));
    case AskNow(r, made, generated) =>
      AskNowKeeps(s, r, made, generated);
      IncTidy(s, r);
      ExecutedTidy(Inc(Asking(s, r), r), r, made, generated);
    case Execute(fromInternal, made, generated) =>
      ExecuteKeeps(s, fromInternal, made, generated);
      SameTidy(s, Popped(s, fromInternal));
      ExecutedTidy(Popped(s, fromInternal), (if fromInternal then s.internal else s.queue)[0], made, generated);
    case Expire(c) => LogoutTidy(s, c);
    case Free => FreeTidy(s);
  }

  lemma {:induction false} RunTidy(ss: seq<State>, es: seq<Event>, i: nat)
    requires Run(ss, es) && i <= |es|
    ensures Tidy(ss[i])
  {
    hide Inv, Apply, Enabled;
    if i > 0 {
      RunTidy(ss, es, i - 1);
      RunGood(ss, es, i - 1);
      ApplyTidy(ss[i - 1], es[i - 1]);
    }
  }

  /** In every run a connected connection that was not logged out has a session. */
  lemma ConnectedOverRuns(ss: seq<State>, es: seq<Event>, i: nat, c: Handle)
    requires Run(ss, es) && i <= |es| && c in ss[i].clients
    ensures ss[i].clients[c].state == Connected && !ss[i].clients[c].loggedOut ==> ss[i].clients[c].session.Some?
  {
    RunTidy(ss, es, i);
    assert HasSession(ss[i].clients[c]);
  }

  /** In every run only clean sessions are deleted. */
  lemma DeletedOverRuns(ss: seq<State>, es: seq<Event>, i: nat, h: Handle)
    requires Run(ss, es) && i <= |es| && h in ss[i].deleted
    ensures h in ss[i].sessions && ss[i].sessions[h].clean
  {
    RunTidy(ss, es, i);
    RunGood(ss, es, i);
  }

  /** In every run a cleanup is due only when some connection was logged out. */
  lemma CleanupOverRuns(ss: seq<State>, es: seq<Event>, i: nat)
    requires Run(ss, es) && i <= |es| && ss[i].shouldCleanup
    ensures exists c :: c in ss[i].clients && ss[i].clients[c].loggedOut
  {
    RunTidy(ss, es, i);
  }

  // The order of requests

  /** The requests put into a queue during the first n events. */
  function Queued(es: seq<Event>, n: nat, internal: bool): seq<Request>
    requires n <= |es|
  {
    if n == 0 then [] else
    Queued(es, n - 1, internal)
    + if es[n - 1].Ask? && es[n - 1].toInternal == internal then [es[n - 1].request] else []
  }

  /** The requests that the worker found at the head of a queue during the first n events. */
  function Taken(ss: seq<State>, es: seq<Event>, n: nat, internal: bool): seq<Request>
    requires n <= |es| && n <= |ss|
  {
    if n == 0 then [] else
    var q := if internal then ss[n - 1].internal else ss[n - 1].queue;
    Taken(ss, es, n - 1, internal)
    + if es[n - 1].Execute? && es[n - 1].fromInternal == internal && q != [] then [q[0]] else []
  }

  /** In every run each queue is served in the order it was filled, and holds exactly what was not served yet. */
  lemma {:induction false} ServedInOrder(ss: seq<State>, es: seq<Event>, n: nat, internal: bool)
    requires Run(ss, es) && n <= |es|
    ensures Queued(es, n, internal)
         == Taken(ss, es, n, internal) + if internal then ss[n].internal else ss[n].queue
  {
    hide Inv, Apply, Enabled;
    if n > 0 {
      ServedInOrder(ss, es, n - 1, internal);
      RunGood(ss, es, n - 1);
      QueueStep(ss[n - 1], es[n - 1], internal);
    }
  }

  lemma QueueStep(s: State, e: Event, internal: bool)
    requires Good(s) && Enabled(s, e)
    ensures var q, r := if internal then s.internal else s.queue, if internal then Apply(s, e).internal
            else Apply(s, e).queue;
            if e.Ask? && e.toInternal == internal then r == q + [e.request]
            else if e.Execute? && e.fromInternal == internal then q != [] && r == q[1..] && q == [q[0]] + r
            else r == q
  {
    hide Inv, Core, Executed, LoggedOut;
    match e
    case Accept(_) =>
    case Ask(r, toInternal) => MayAskNames(s, r);
    case AskNow(r, made, generated) =>
      AskNowKeeps(s, r, made, generated);
      SameQueues(Inc(Asking(s, r), r), r, made, generated);
    case Execute(fromInternal, made, generated) =>
      ExecuteKeeps(s, fromInternal, made, generated);
      SameQueues(Popped(s, fromInternal), (if fromInternal then s.internal else s.queue)[0], made, generated);
    case Expire(c) => LogoutQueues(s, c);
    case Free =>
  }

  lemma SameQueues(s: State, r: Request, made: Handle, generated: string)
    requires Core(s) && Names(s, r) && (r.Login? ==> s.clients[r.client].session == None) && made !in s.sessions
    ensures Executed(s, r, made, generated).queue == s.queue && Executed(s, r, made, generated).internal == s.internal
  {
    hide Core, Visited;
    VisitedKeeps(s, r, made, generated);
  }

  lemma LogoutQueues(s: State, c: Handle)
    requires Good(s) && c in s.clients
    ensures LoggedOut(s, c).queue == s.queue && LoggedOut(s, c).internal == s.internal
  {
    LoggedOutKeeps(s, c, c);
  }
}
