/** Whether a deleted session that nothing refers to any more is always due to be freed. */
module LoginSweep {
  import opened LoginState
  import opened LoginRuns

  /** A deleted session that no request names is due to be freed, as Swept says of connections. */
  predicate SessionsSwept(s: State) {
    forall h :: h in s.deleted && h in s.sessions && s.sessions[h].refs == 0 ==> s.shouldCleanup
  }

  /** The worker is about to execute the last request for a deleted session while no cleanup is due. */
  predicate LeavesBehind(s: State, e: Event) {
    && e.Execute? && (if e.fromInternal then s.internal else s.queue) != []
    && LastFor(s, (if e.fromInternal then s.internal else s.queue)[0])
  }

  predicate LastFor(s: State, r: Request) {
    r.Subscribe? && r.session in s.deleted && r.session in s.sessions && s.sessions[r.session].refs == 1
        && !s.shouldCleanup
  }

  /** Sessions that were deleted on the way from s to t are due to be freed; the others are those of s. */
  predicate Asks(s: State, t: State) {
    t.shouldCleanup || t.deleted == s.deleted
  }

  lemma LoggedOutAsks(s: State, c: Handle)
    requires c in s.clients && Core(s)
    ensures Asks(s, LoggedOut(s, c))
  {
  }

  lemma TakenOverAsks(s: State, c: Handle, id: string, clean: bool)
    requires c in s.clients && id in s.byId && Core(s) && s.clients[c].session == None && !s.clients[c].loggedOut
    ensures Asks(s, TakenOver(s, c, id, clean))
  {
    hide Links, LoggedOut;
    var h := s.byId[id];
    ReplacedCore(s, h, c, clean);
    if s.sessions[h].current.Some? { LoggedOutAsks(Replaced(s, h, c, clean), s.sessions[h].current.value); }
  }

  lemma VisitedAsks(s: State, r: Request, made: Handle, generated: string)
    requires Core(s) && Names(s, r) && (r.Login? ==> s.clients[r.client].session == None)
    ensures Asks(s, Visited(s, r, made, generated))
  {
    hide Core, LoggedOut, TakenOver;
    match r
    case Login(c, id, clean) =>
      var id' := EffectiveId(id, generated);
      if id' in s.byId && !s.clients[c].loggedOut { TakenOverAsks(s, c, id', clean); }
    case Logout(c) => LoggedOutAsks(s, c);
    case Subscribe(_) =>
  }

  /** What keeps the sessions' references and asks for what it deletes keeps SessionsSwept. */
  lemma AsksKeeps(s: State, t: State, e: Handle)
    requires Keeps(s, t, e) && Asks(s, t) && s.deleted <= s.sessions.Keys && SessionsSwept(s)
    ensures SessionsSwept(t)
  {
  }

  /** Executing a request leaves a session behind exactly if it is the last one for it and no cleanup is due. */
  lemma ExecutedIff(s: State, r: Request, made: Handle, generated: string)
    requires Core(s) && Names(s, r) && (r.Login? ==> s.clients[r.client].session == None) && made !in s.sessions
             && SessionsSwept(s)
    ensures SessionsSwept(Executed(s, r, made, generated)) <==> !LastFor(s, r)
  {
    hide Keeps, LoggedOut, LoggedIn;
    VisitedKeeps(s, r, made, generated);
    if r.Subscribe? {
      DecIff(s, r);
    } else {
      VisitedAsks(s, r, made, generated);
      AsksKeeps(s, Visited(s, r, made, generated), r.client);
    }
  }

  lemma DecIff(s: State, r: Request)
    requires Names(s, r) && r.Subscribe? && SessionsSwept(s)
    ensures SessionsSwept(Dec(s, r)) <==> !LastFor(s, r)
  {
    var t := Dec(s, r);
    if LastFor(s, r) { assert r.session in t.deleted && t.sessions[r.session].refs == 0; }
  }

  /** A session named by a connection is not deleted, so asking for it matters to no deleted one. */
  lemma IncSwept(s: State, r: Request)
    requires Good(s) && MayAsk(s, r) && SessionsSwept(s) && (r.Login? ==> r.client in s.clients)
             && Names(Asking(s, r), r)
    ensures var t := Inc(Asking(s, r), r); SessionsSwept(t) && !LastFor(t, r)
  {
    if r.Subscribe? {
      var c :| c in s.clients && s.clients[c].session == Some(r.session);
      assert ToSession(s, c);
    }
  }

  /** One step: the sessions stay swept exactly if the step leaves none behind. */
  lemma SweptIff(s: State, e: Event)
    requires Good(s) && Enabled(s, e) && SessionsSwept(s)
    ensures SessionsSwept(Apply(s, e)) <==> !LeavesBehind(s, e)
  {
    hide Keeps, Counted, Links, Executed, Inc, LoggedOut, Freed;
    match e
    case Accept(_) =>
    case Ask(r, toInternal) =>
      MayAskNames(s, r);
      IncSwept(s, r);
    case AskNow(r, made, generated) =>
      AskNowKeeps(s, r, made, generated);
      IncSwept(s, r);
      ExecutedIff(Inc(Asking(s, r), r), r, made, generated);
    case Execute(fromInternal, made, generated) =>
      ExecuteKeeps(s, fromInternal, made, generated);
      ExecutedIff(Popped(s, fromInternal), (if fromInternal then s.internal else s.queue)[0], made, generated);
    case Expire(c) =>
      LoggedOutAsks(s, c);
      LoggedOutKeeps(s, c, c);
      AsksKeeps(s, LoggedOut(s, c), c);
    case Free => FreedSwept(s);
  }

  lemma FreedSwept(s: State)
    ensures SessionsSwept(Freed(s))
  {
  }

  /** Over a run: they are swept throughout exactly if no step leaves one behind. */
  lemma {:induction false} SweptOverRuns(ss: seq<State>, es: seq<Event>, n: nat)
    requires Run(ss, es) && n <= |es|
    ensures (forall i :: 0 <= i <= n ==> SessionsSwept(ss[i]))
            <==> (forall k :: 0 <= k < n ==> !LeavesBehind(ss[k], es[k]))
  {
    hide Inv, Apply, Enabled, LeavesBehind;
    if n == 0 {
      assert SessionsSwept(START);
    } else {
      SweptOverRuns(ss, es, n - 1);
      RunGood(ss, es, n - 1);
      assert ss[n - 1 + 1] == Apply(ss[n - 1], es[n - 1]);
      if SessionsSwept(ss[n - 1]) {
        SweptIff(ss[n - 1], es[n - 1]);
      }
      assert (forall i :: 0 <= i <= n ==> SessionsSwept(ss[i])) ==> SessionsSwept(ss[n - 1]) && SessionsSwept(ss[n]);
    }
  }

  /** What is left behind: the session waits, unnamed, and nothing is due to free it. */
  lemma LastReferenceOfSession(s: State, e: Event)
    requires Good(s) && Enabled(s, e) && LeavesBehind(s, e)
    ensures var h, t := (if e.fromInternal then s.internal else s.queue)[0].session, Apply(s, e);
            h in t.deleted && h in t.sessions && t.sessions[h].refs == 0 && !Enabled(t, Free)
  {
    ExecuteKeeps(s, e.fromInternal, e.madeLater, e.generatedLater);
  }

  // A run that leaves one behind

  const LINKED := State(map[0 := Connection(Connected, false, Some(1), 0)],
                        map[1 := LoginState.Session("a", Some(0), true, 0)],
                        map["a" := 1], {}, [], [], false)
  const ASKED := LINKED.(sessions := map[1 := LoginState.Session("a", Some(0), true, 1)], queue := [Subscribe(1)])
  const LEFT := State(map[0 := Connection(Connected, true, None, 0)], map[1 := LoginState.Session("a", None, true, 1)],
                      map[], {1}, [Subscribe(1)], [], true)
  const FREED := LEFT.(clients := map[], shouldCleanup := false)

  /** The session's connection is freed first, and with that the cleanup is done. */
  lemma LeavingRun() returns (ss: seq<State>, es: seq<Event>)
    ensures Run(ss, es) && |es| == 6 && LeavesBehind(ss[5], es[5]) && !SessionsSwept(ss[6])
  {
    hide Inv, Apply, Enabled, SessionsSwept;
    var s1 := LogInOne();
    AskOne();
    LogOutOne();
    FreeOne();
    var s6 := ExecuteOne();
    ss := [START, s1, LINKED, ASKED, LEFT, FREED, s6];
    es := [Accept(0), AskNow(Login(0, "a", true), 1, "b"), Ask(Subscribe(1), false), Expire(0), Free,
           Execute(false, 2, "b")];
  }

  lemma LogInOne() returns (s1: State)
    ensures Enabled(START, Accept(0)) && Good(START) && s1 == Apply(START, Accept(0))
    ensures var e := AskNow(Login(0, "a", true), 1, "b"); Enabled(s1, e) && Good(s1) && LINKED == Apply(s1, e)
    ensures Good(LINKED)
  {
    hide Inv;
    StartGood();
    ApplyKeeps(START, Accept(0));
    s1 := Apply(START, Accept(0));
    Connect(s1);
    ApplyKeeps(s1, AskNow(Login(0, "a", true), 1, "b"));
  }

  lemma Connect(s1: State)
    requires Good(s1) && s1 == START.(clients := map[0 := Connection(Initial, false, None, 0)])
    ensures var e := AskNow(Login(0, "a", true), 1, "b"); Enabled(s1, e) && LINKED == Apply(s1, e)
  {
    hide Inv;
    var login := Login(0, "a", true);
    AskNowKeeps(s1, login, 1, "b");
    var s := Inc(Asking(s1, login), login);
    assert s == START.(clients := map[0 := Connection(Connecting, false, None, 1)]);
  }

  lemma AskOne()
    requires Good(LINKED)
    ensures Enabled(LINKED, Ask(Subscribe(1), false)) && ASKED == Apply(LINKED, Ask(Subscribe(1), false)) && Good(ASKED)
  {
    hide Inv;
    assert 0 in LINKED.clients && LINKED.clients[0].session == Some(1);
    assert MayAsk(LINKED, Subscribe(1));
    ApplyKeeps(LINKED, Ask(Subscribe(1), false));
  }

  lemma LogOutOne()
    requires Good(ASKED)
    ensures Enabled(ASKED, Expire(0)) && LEFT == Apply(ASKED, Expire(0)) && Good(LEFT)
  {
    hide Core, Counted;
    ApplyKeeps(ASKED, Expire(0));
    var s := LoggedOut(ASKED, 0);
    assert ASKED.byId == map["a" := 1];
    assert IdsOf(ASKED, 1) == {"a"};
    assert s.clients == LEFT.clients && s.sessions == LEFT.sessions;
    assert s.byId == LEFT.byId && s.deleted == {1};
  }

  lemma FreeOne()
    requires Good(LEFT)
    ensures Enabled(LEFT, Free) && FREED == Apply(LEFT, Free) && Good(FREED)
  {
    hide Inv;
    ApplyKeeps(LEFT, Free);
    assert Freed(LEFT).clients == map[];
  }

  lemma ExecuteOne() returns (s6: State)
    requires Good(FREED)
    ensures var e := Execute(false, 2, "b"); Enabled(FREED, e) && LeavesBehind(FREED, e) && s6 == Apply(FREED, e)
    ensures !SessionsSwept(s6)
  {
    hide Inv;
    var e := Execute(false, 2, "b");
    assert Enabled(FREED, e) && LeavesBehind(FREED, e);
    s6 := Apply(FREED, e);
    LastReferenceOfSession(FREED, e);
  }
}
