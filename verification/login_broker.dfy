/** The broker's handlers for login, logout and cleanup, updating its tables in place. */
module LoginBroker {
  import opened LoginState
  import opened LoginRuns

  class ApplicationState {
    var mClients: map<Handle, Connection>
    var mSessions: map<Handle, Session>
    var mPersistentClientStates: map<string, Handle>
    var mDeletedPersistentClientStates: set<Handle>
    var mQueue: seq<Request>
    var mQueueInternal: seq<Request>
    var mShouldCleanup: bool

    function Value(): State
      reads this
    {
      State(mClients, mSessions, mPersistentClientStates, mDeletedPersistentClientStates, mQueue, mQueueInternal,
            mShouldCleanup)
    }

    constructor ()
      ensures Value() == START
    {
      mClients, mSessions, mPersistentClientStates, mDeletedPersistentClientStates := map[], map[], map[], {};
      mQueue, mQueueInternal, mShouldCleanup := [], [], false;
    }

    method DropCurrentClient(h: Handle)
      requires h in mSessions && mSessions[h].current.Some? && mSessions[h].current.value in mClients
      modifies this
      ensures Value() == LoginState.DropCurrentClient(old(Value()), h)
    {
      var c := mSessions[h].current.value;
      mClients := mClients[c := mClients[c].(session := None)];
      mSessions := mSessions[h := mSessions[h].(current := None)];
    }

    method LogoutClient(client: Handle)
      requires client in mClients && Core(Value())
      modifies this
      ensures Value() == LoggedOut(old(Value()), client)
    {
      if mClients[client].loggedOut {
        return;
      }
      assert mClients[client].session.Some? ==> ToSession(Value(), client);
      mShouldCleanup := true;
      mClients := mClients[client := mClients[client].(loggedOut := true)];
      var session := mClients[client].session;
      if session.Some? {
        var h := session.value;
        DropCurrentClient(h);
        if mSessions[h].clean {
          var ids := IdsOf(Value(), h);
          if ids == {} {
            return;
          }
          mDeletedPersistentClientStates := mDeletedPersistentClientStates + {h};
          mPersistentClientStates := mPersistentClientStates - ids;
          mShouldCleanup := true;
        }
      }
    }

    method ReplaceCurrentClient(h: Handle, newConnection: Handle, clean: bool)
      requires h in mSessions && newConnection in mClients
               && (mSessions[h].current.Some? ==> mSessions[h].current.value in mClients)
      modifies this
      ensures Value() == Replaced(old(Value()), h, newConnection, clean)
    {
      var current := mSessions[h].current;
      if current.Some? {
        mClients := mClients[current.value := mClients[current.value].(session := None)];
      }
      mSessions := mSessions[h := mSessions[h].(current := Some(newConnection), clean := clean)];
      mClients := mClients[newConnection := mClients[newConnection].(session := Some(h))];
    }

    /** `made` is where a new session would be allocated, `generated` the client id made up for an empty one. */
    method Login(client: Handle, clientId: string, clean: bool, made: Handle, generated: string)
      requires client in mClients && Core(Value()) && mClients[client].session == None
               && FreshFor(Value(), made, generated)
      modifies this
      ensures Value() == LoggedIn(old(Value()), client, EffectiveId(clientId, generated), clean, made)
    {
      if mClients[client].loggedOut {
        return;
      }
      ghost var s := Value();
      var id := if clientId == "" then generated else clientId;
      KeepsClients(s, client, id, clean, made);
      if id in mPersistentClientStates {
        var h := mPersistentClientStates[id];
        var existingClient := mSessions[h].current;
        ReplacedCore(s, h, client, clean);
        ReplaceCurrentClient(h, client, clean);
        if existingClient.Some? {
          LogoutClient(existingClient.value);
        }
        assert Value() == TakenOver(s, client, id, clean);
      } else {
        mSessions := mSessions[made := Session(id, Some(client), clean, 0)];
        mPersistentClientStates := mPersistentClientStates[id := made];
        ReplaceCurrentClient(made, client, clean);
        assert Value() == Created(s, client, id, clean, made);
      }
      mClients := mClients[client := mClients[client].(state := Connected)];
    }

    method ExecuteChangeRequest(r: Request, made: Handle, generated: string)
      requires Core(Value()) && Names(Value(), r) && (r.Login? ==> mClients[r.client].session == None)
               && FreshFor(Value(), made, generated)
      modifies this
      ensures Value() == Executed(old(Value()), r, made, generated)
    {
      hide Core, Executed, Visited, LoggedIn, LoggedOut, Dec, FreshFor, EffectiveId;
      ghost var s := Value();
      ExecutedIs(s, r, made, generated);
      match r
      case Login(client, clientId, clean) =>
        NamesClient(s, r);
        Login(client, clientId, clean, made, generated);
        ReleaseReference(r);
      case Logout(client) =>
        NamesClient(s, r);
        LogoutClient(client);
        ReleaseReference(r);
      case Subscribe(_) =>
        ReleaseReference(r);
    }

    method ReleaseReference(r: Request)
      requires Names(Value(), r)
      modifies this
      ensures Value() == Dec(old(Value()), r)
    {
      if r.Subscribe? {
        mSessions := mSessions[r.session := mSessions[r.session].(refs := mSessions[r.session].refs - 1)];
      } else {
        mClients := mClients[r.client := mClients[r.client].(refs := mClients[r.client].refs - 1)];
        if mClients[r.client].refs == 0 && mClients[r.client].loggedOut {
          mShouldCleanup := true;
        }
      }
    }

    /** A login also moves the connection on, so that it asks only once. */
    method TakeReference(r: Request)
      requires (r.Login? ==> r.client in mClients) && Names(Value(), r)
      modifies this
      ensures Names(Asking(old(Value()), r), r) && Value() == Inc(Asking(old(Value()), r), r)
    {
      if r.Login? {
        mClients := mClients[r.client := mClients[r.client].(state := Connecting)];
      }
      if r.Subscribe? {
        mSessions := mSessions[r.session := mSessions[r.session].(refs := mSessions[r.session].refs + 1)];
      } else {
        mClients := mClients[r.client := mClients[r.client].(refs := mClients[r.client].refs + 1)];
      }
    }

    /** Takes the reference, then executes the request now or leaves it to the worker. */
    method RequestChange(r: Request, now: bool, toInternal: bool, made: Handle, generated: string)
      requires Good(Value()) && MayAsk(Value(), r) && FreshFor(Value(), made, generated)
      modifies this
      ensures Good(Value())
      ensures Value() == Apply(old(Value()), if now then AskNow(r, made, generated) else Ask(r, toInternal))
    {
      hide Core, Inv, Executed, Visited, Dec, Inc, Asking, Enqueued, FreshFor, Apply, MayAsk, Names;
      ghost var s := Value();
      ghost var e := if now then AskNow(r, made, generated) else Ask(r, toInternal);
      AskingIs(s, r);
      TakeReference(r);
      if now {
        ApplyNowIs(s, r, made, generated);
        ExecuteChangeRequest(r, made, generated);
      } else {
        ApplyLaterIs(s, r, toInternal);
        if toInternal {
          mQueueInternal := mQueueInternal + [r];
        } else {
          mQueue := mQueue + [r];
        }
        EnqueuedIs(Inc(Asking(s, r), r), r, toInternal);
      }
      ApplyKeeps(s, e);
    }

    /** A new TCP connection is added to the list of clients. */
    method HandleNewClientConnection(client: Handle)
      requires Good(Value()) && client !in mClients
      modifies this
      ensures Good(Value()) && Value() == Apply(old(Value()), Accept(client))
    {
      AcceptKeeps(Value(), client);
      mClients := mClients[client := Connection(Initial, false, None, 0)];
    }

    /** The worker takes the next request from one of its two queues. */
    method ExecuteNext(fromInternal: bool, made: Handle, generated: string)
      requires Good(Value()) && Enabled(Value(), Execute(fromInternal, made, generated))
      modifies this
      ensures Good(Value()) && Value() == Apply(old(Value()), Execute(fromInternal, made, generated))
    {
      hide Core, Inv, Executed, Visited, Dec, FreshFor, Names;
      ghost var s := Value();
      ExecuteKeeps(s, fromInternal, made, generated);
      PoppedFresh(s, fromInternal, made, generated);
      var r;
      if fromInternal {
        r := mQueueInternal[0];
        mQueueInternal := mQueueInternal[1..];
      } else {
        r := mQueue[0];
        mQueue := mQueue[1..];
      }
      ExecuteChangeRequest(r, made, generated);
    }

    /** Logs out the connections that fell silent, then frees what nothing refers to any more. */
    method Cleanup(timedOut: set<Handle>) returns (ghost mid: State)
      requires Good(Value()) && timedOut <= mClients.Keys
      modifies this
      ensures Good(Value()) && !mShouldCleanup
      ensures Expired(old(Value()), timedOut, mid) && Value() == if mid.shouldCleanup then Freed(mid) else mid
      ensures forall c :: c in old(mClients) ==>
        (c in mClients <==> !((old(mClients[c].loggedOut) || c in timedOut) && old(mClients[c].refs) == 0))
      ensures mQueue == old(mQueue) && mQueueInternal == old(mQueueInternal)
    {
      hide Expired, Core, LoggedOut;
      LogoutAll(timedOut);
      var s1 := Value();
      mid := s1;
      FreeKeeps(s1);
      if mShouldCleanup {
        EraseClients();
        EraseSessions();
        mShouldCleanup := false;
        assert Value() == Freed(s1);
      } else {
        assert Swept(s1);
      }
    }

    method LogoutAll(timedOut: set<Handle>)
      requires Good(Value()) && timedOut <= mClients.Keys
      modifies this
      ensures Good(Value()) && mClients.Keys == old(mClients).Keys && mQueue == old(mQueue)
              && mQueueInternal == old(mQueueInternal)
      ensures Expired(old(Value()), timedOut, Value())
      ensures forall c :: c in mClients ==>
        (mClients[c].refs == old(mClients)[c].refs
         && (mClients[c].loggedOut <==> old(mClients)[c].loggedOut || c in timedOut))
    {
      hide Inv, Expired, Core, LoggedOut;
      ghost var first, start := mClients, Value();
      var todo := timedOut;
      assert timedOut - todo == {};
      ExpiredNone(start);
      while todo != {}
        invariant Good(Value()) && mClients.Keys == first.Keys && todo <= timedOut
        invariant mQueue == old(mQueue) && mQueueInternal == old(mQueueInternal)
        invariant Expired(start, timedOut - todo, Value())
        invariant forall c :: c in mClients ==>
          (mClients[c].refs == first[c].refs && (mClients[c].loggedOut <==> first[c].loggedOut || c in timedOut - todo))
        decreases todo
      {
        var c :| c in todo;
        ghost var s := Value();
        GoodCore(s);
        ExpireKeeps(s, c);
        OnlyExpires(s, c);
        LogoutClient(c);
        ExpiredMore(start, timedOut - todo, s, c);
        assert timedOut - (todo - {c}) == timedOut - todo + {c};
        todo := todo - {c};
      }
      assert timedOut - todo == timedOut;
    }

    method EraseClients()
      modifies this`mClients
      ensures mClients == old(mClients) - (set c | c in old(mClients) && old(mClients)[c].loggedOut
                                           && old(mClients)[c].refs == 0)
    {
      ghost var first := mClients;
      var todo := mClients.Keys;
      while todo != {}
        invariant todo <= first.Keys
        invariant mClients == first - (set c | c in first && c !in todo && first[c].loggedOut && first[c].refs == 0)
        decreases todo
      {
        var c :| c in todo;
        if mClients[c].loggedOut && mClients[c].refs == 0 {
          mClients := mClients - {c};
        }
        todo := todo - {c};
      }
    }

    method EraseSessions()
      modifies this`mSessions, this`mDeletedPersistentClientStates
      ensures var dead := set h | h in old(mDeletedPersistentClientStates) && h in old(mSessions)
              && old(mSessions)[h].refs == 0;
              mSessions == old(mSessions) - dead
                  && mDeletedPersistentClientStates == old(mDeletedPersistentClientStates) - dead
    {
      ghost var sessions, deleted := mSessions, mDeletedPersistentClientStates;
      var todo := mDeletedPersistentClientStates;
      while todo != {}
        invariant todo <= deleted
        invariant var dead := set h | h in deleted && h !in todo && h in sessions && sessions[h].refs == 0;
                  mSessions == sessions - dead && mDeletedPersistentClientStates == deleted - dead
        decreases todo
      {
        var h :| h in todo;
        if h in mSessions && mSessions[h].refs == 0 {
          mSessions := mSessions - {h};
          mDeletedPersistentClientStates := mDeletedPersistentClientStates - {h};
        }
        todo := todo - {h};
      }
    }
  }

  /** t is s after the connections of some set were logged out one by one. */
  ghost predicate Expired(s: State, gone: set<Handle>, t: State) {
    if gone == {} then t == s
    else exists c, u :: c in gone && Expired(s, gone - {c}, u) && Core(u) && c in u.clients && t == LoggedOut(u, c)
  }

  lemma ExpiredNone(s: State)
    ensures Expired(s, {}, s)
  {
  }

  lemma ExpiredMore(s: State, gone: set<Handle>, u: State, c: Handle)
    requires Expired(s, gone, u) && c !in gone && Core(u) && c in u.clients
    ensures Expired(s, gone + {c}, LoggedOut(u, c))
  {
    assert gone + {c} - {c} == gone;
  }

  lemma GoodCore(s: State)
    requires Good(s)
    ensures Core(s)
  {
  }

  lemma OnlyExpires(s: State, c: Handle)
    requires Core(s) && c in s.clients
    ensures var t := LoggedOut(s, c);
            && t.clients.Keys == s.clients.Keys && t.queue == s.queue && t.internal == s.internal
            && forall x :: x in s.clients ==>
                 (t.clients[x].refs == s.clients[x].refs
                  && (t.clients[x].loggedOut <==> s.clients[x].loggedOut || x == c))
  {
    if s.clients[c].session.Some? { assert ToSession(s, c); }
  }

  lemma PoppedFresh(s: State, fromInternal: bool, made: Handle, generated: string)
    requires Enabled(s, Execute(fromInternal, made, generated))
    ensures FreshFor(Popped(s, fromInternal), made, generated)
  {
  }

  lemma NamesClient(s: State, r: Request)
    requires Names(s, r) && !r.Subscribe?
    ensures r.client in s.clients
  {
  }

  lemma ExecutedIs(s: State, r: Request, made: Handle, generated: string)
    requires Core(s) && Names(s, r) && (r.Login? ==> s.clients[r.client].session == None)
             && FreshFor(s, made, generated)
    ensures made !in s.sessions
    ensures var t := Visited(s, r, made, generated); Names(t, r) && Executed(s, r, made, generated) == Dec(t, r)
    ensures r.Login? ==>
              Visited(s, r, made, generated) == LoggedIn(s, r.client, EffectiveId(r.clientId, generated), r.clean, made)
    ensures r.Logout? ==> Visited(s, r, made, generated) == LoggedOut(s, r.client)
    ensures r.Subscribe? ==> Visited(s, r, made, generated) == s
  {
    hide Core, LoggedIn, LoggedOut;
    VisitedKeeps(s, r, made, generated);
  }

  lemma AskingIs(s: State, r: Request)
    requires Good(s) && MayAsk(s, r)
    ensures (r.Login? ==> r.client in s.clients) && Names(s, r)
  {
    hide Inv;
    MayAskNames(s, r);
  }

  lemma ApplyNowIs(s: State, r: Request, made: Handle, generated: string)
    requires Good(s) && MayAsk(s, r) && FreshFor(s, made, generated)
    ensures (r.Login? ==> r.client in s.clients) && Names(Asking(s, r), r) && Enabled(s, AskNow(r, made, generated))
    ensures var s1 := Inc(Asking(s, r), r);
            && Core(s1) && Names(s1, r) && (r.Login? ==> s1.clients[r.client].session == None)
               && FreshFor(s1, made, generated)
            && made !in s1.sessions && Apply(s, AskNow(r, made, generated)) == Executed(s1, r, made, generated)
  {
    hide Inv, Executed;
    MayAskNames(s, r);
    AskNowKeeps(s, r, made, generated);
  }

  lemma ApplyLaterIs(s: State, r: Request, toInternal: bool)
    requires Good(s) && MayAsk(s, r)
    ensures (r.Login? ==> r.client in s.clients) && Names(Asking(s, r), r) && Enabled(s, Ask(r, toInternal))
    ensures Apply(s, Ask(r, toInternal)) == Enqueued(Inc(Asking(s, r), r), r, toInternal)
  {
    hide Inv, Inc;
    MayAskNames(s, r);
  }

  lemma EnqueuedIs(s: State, r: Request, toInternal: bool)
    ensures Enqueued(s, r, toInternal)
         == if toInternal then s.(internal := s.internal + [r]) else s.(queue := s.queue + [r])
  {
  }
}
