/** What becomes of a message whose packet identifier is taken up again too early. */
module QosReuse {
  import opened QosSession
  import opened QosProtocol

  // Taking everything in flight

  /** The receiver has taken everything that was on its way to it. */
  function Drained(w: World): World
    decreases |w.down|
  {
    if w.down == [] then w else Drained(Received(w))
  }

  /** The identifiers that await PUBREL after the packets of q were taken. */
  function Kept(receiving: set<Id>, q: seq<Packet>): set<Id>
    decreases |q|
  {
    if q == [] then receiving
    else
      match q[0]
      case Publish(id, _, _, _) => Kept(receiving + {id}, q[1..])
      case PubRel(id) => Kept(receiving - {id}, q[1..])
      case _ => Kept(receiving, q[1..])
  }

  /** The messages handed onward while the packets of q are taken. */
  function Handed(receiving: set<Id>, q: seq<Packet>): seq<Message>
    decreases |q|
  {
    if q == [] then []
    else
      match q[0]
      case Publish(id, m, _, _) => (if id in receiving then [] else [m]) + Handed(receiving + {id}, q[1..])
      case PubRel(id) => Handed(receiving - {id}, q[1..])
      case _ => Handed(receiving, q[1..])
  }

  lemma {:induction false} DrainedIs(w: World)
    ensures Drained(w).delivered == w.delivered + Handed(w.receiver.receiving, w.down)
    ensures Drained(w).receiver.receiving == Kept(w.receiver.receiving, w.down)
    ensures Drained(w).sender == w.sender && Drained(w).down == []
    decreases |w.down|
  {
    if w.down != [] {
      var v := Received(w);
      DrainedIs(v);
    }
  }

  lemma {:induction false} TakenCat(receiving: set<Id>, a: seq<Packet>, b: seq<Packet>)
    ensures Kept(receiving, a + b) == Kept(Kept(receiving, a), b)
    ensures Handed(receiving, a + b) == Handed(receiving, a) + Handed(Kept(receiving, a), b)
    decreases |a|
  {
    if a == [] {
      assert a + b == b;
    } else {
      assert (a + b)[0] == a[0] && (a + b)[1..] == a[1..] + b;
      match a[0]
      case Publish(id, _, _, _) => TakenCat(receiving + {id}, a[1..], b);
      case PubRel(id) => TakenCat(receiving - {id}, a[1..], b);
      case _ => TakenCat(receiving, a[1..], b);
    }
  }

  /** An identifier awaits PUBREL afterwards if a message came with it, or if it did before and no PUBREL came. */
  lemma {:induction false} KeptIs(receiving: set<Id>, q: seq<Packet>, id: Id)
    requires Distinct(q)
    ensures id in Kept(receiving, q)
            <==> (exists p :: p in q && p.Publish? && p.id == id) || (id in receiving && PubRel(id) !in q)
    decreases |q|
  {
    if q != [] {
      SentTail(q);
      assert forall p :: p in q <==> p == q[0] || p in q[1..];
      match q[0]
      case Publish(x, _, _, _) => KeptIs(receiving + {x}, q[1..], id);
      case PubRel(x) => KeptIs(receiving - {x}, q[1..], id);
      case _ => KeptIs(receiving, q[1..], id);
    }
  }

  lemma OnePublish(receiving: set<Id>, id: Id, m: Message, dup: bool)
    ensures Handed(receiving, [Publish(id, m, ExactlyOnce, dup)]) == if id in receiving then [] else [m]
  {
  }

  lemma {:induction false} RelsHandNothing(receiving: set<Id>, q: seq<Packet>)
    requires forall p :: p in q ==> p.PubRel?
    ensures Handed(receiving, q) == []
    decreases |q|
  {
    if q != [] {
      assert q[0] in q;
      RelsHandNothing(receiving - {q[0].id}, q[1..]);
    }
  }

  // Publishing under an identifier that may be in use

  /** On a connection: whether a new message reaches the application once everything in flight was taken. */
  lemma ReuseLosesMessage(w: World, m: Message)
    requires Inv(w) && w.connected
    ensures var id := NextId(w.sender.counter);
            var passes := id !in w.sender.sending && (id in w.receiver.receiving ==> PubRel(id) in w.down);
            Drained(Published(w, m)).delivered == Drained(w).delivered + (if passes then [m] else [])
  {
    hide Log, Stores, Owed, Ordered, Distinct, Kept, Handed, Lively, Sets;
    var id, v := NextId(w.sender.counter), Published(w, m);
    var p := Publish(id, m, ExactlyOnce, false);
    DrainedIs(w);
    DrainedIs(v);
    TakenCat(w.receiver.receiving, w.down, [p]);
    KeptIs(w.receiver.receiving, w.down, id);
    OnePublish(Kept(w.receiver.receiving, w.down), id, m, false);
    InUse(w, id);
  }

  /**
   * An identifier awaits PUBREL after everything in flight was taken, unless it is free or its PUBREL is on the way.
   */
  lemma InUse(w: World, id: Id)
    requires Inv(w) && w.connected
    ensures ((exists p :: p in w.down && p.Publish? && p.id == id)
             || (id in w.receiver.receiving && PubRel(id) !in w.down))
       <==> !(id !in w.sender.sending && (id in w.receiver.receiving ==> PubRel(id) in w.down))
  {
    hide Log, Stores, Owed, Ordered, Distinct;
    if p :| p in w.down && p.Publish? && p.id == id { assert DownPacket(w, p); }
    if PubRel(id) in w.down { assert DownPacket(w, PubRel(id)); }
    if id in w.sender.sending && id !in w.receiver.receiving {
      NextInFlight(w, id);
      var j := DownIs(w, id);
      assert w.down[j] in w.down && w.down[j].Publish?;
    }
  }

  /** Without a connection: whether the next resumption makes a new message reach the application. */
  lemma ReuseOffline(w: World, m: Message, l: seq<Packet>, l': seq<Packet>)
    requires Inv(w) && !w.connected
    requires ResumeList(w.sender.sending, l) && ResumeList(Published(w, m).sender.sending, l')
    ensures var id := NextId(w.sender.counter);
            var passes := id !in w.sender.sending && id !in w.receiver.receiving;
            Drained(Resumed(Published(w, m), l')).delivered
                == Drained(Resumed(w, l)).delivered + (if passes then [m] else [])
  {
    hide Log, Stores, Owed, Ordered, Distinct, Kept, Handed, Lively, Sets, Channels, ResumeList;
    var id, r, rels := NextId(w.sender.counter), w.receiver.receiving, ResentRels(w.sender.pubrec);
    var p := Publish(id, m, ExactlyOnce, true);
    ListWith(w, m, l, l');
    DrainedIs(Resumed(w, l));
    DrainedIs(Resumed(Published(w, m), l'));
    ResumedIds(w, l);
    TakenCat(r, l, rels);
    TakenCat(r, l', rels);
    RelsHandNothing(Kept(r, l), rels);
    RelsHandNothing(Kept(r, l'), rels);
    if id !in w.sender.sending {
      TakenCat(r, l, [p]);
      OnePublish(Kept(r, l), id, m, true);
      KeptIs(r, l, id);
      NotResent(w.sender.sending, l, id);
    }
  }

  lemma NotResent(sending: map<Id, Stored>, l: seq<Packet>, id: Id)
    requires id !in sending && forall p :: p in l ==> Resent(sending, p)
    ensures PubRel(id) !in l && !exists p :: p in l && p.Publish? && p.id == id
  {
  }

  /** The list resent after a publication: one packet more, unless the identifier was in use. */
  lemma ListWith(w: World, m: Message, l: seq<Packet>, l': seq<Packet>)
    requires Inv(w) && ResumeList(w.sender.sending, l) && ResumeList(Published(w, m).sender.sending, l')
    ensures var id := NextId(w.sender.counter);
            l' == if id in w.sender.sending then l else l + [Publish(id, m, ExactlyOnce, true)]
  {
    hide Channels, Ordered, Lively, Owed, ResumeList;
    var id, p := NextId(w.sender.counter), Stored(m, w.clock, ExactlyOnce);
    OrdersDiffer(w);
    if id in w.sender.sending {
      ResumeListUnique(w.sender.sending, l, l');
    } else {
      OneMoreResent(w.sender.sending, l, id, p);
      ResumeListUnique(w.sender.sending[id := p], l', l + [Publish(id, m, ExactlyOnce, true)]);
    }
  }

  lemma OrdersDiffer(w: World)
    requires Log(w) && Stores(w)
    ensures forall a, b :: a in w.sender.sending && b in w.sender.sending && a != b ==>
              w.sender.sending[a].order != w.sender.sending[b].order
    ensures forall a :: a in w.sender.sending ==> w.sender.sending[a].order < w.clock
  {
    forall a | a in w.sender.sending ensures Owns(w, a) {}
  }

  lemma OneMoreResent(sending: map<Id, Stored>, l: seq<Packet>, id: Id, p: Stored)
    requires ResumeList(sending, l) && id !in sending && forall a :: a in sending ==> sending[a].order < p.order
    ensures ResumeList(sending[id := p], l + [Publish(id, p.message, p.qos, true)])
  {
    var q := l + [Publish(id, p.message, p.qos, true)];
    forall j | 0 <= j < |l| ensures Resent(sending, l[j]) && q[j] == l[j] {}
    Inserted(sending, l, id, p, |l|, q);
  }

  /**
   * A message is stored under the next identifier exactly if that one is not in use: a stored packet is not replaced.
   */
  lemma StoredUnlessInUse(s: Session, p: Stored)
    ensures var t := AfterPublish(s, p);
            (t.sending == s.sending[t.counter := p]) <==> (t.counter !in s.sending || s.sending[t.counter] == p)
  {
    var t := AfterPublish(s, p);
    assert s.sending[t.counter := p][t.counter] == p;
  }

  // The counter comes round to a stalled identifier

  /**
   * Once the counter stands before a stalled identifier, runs end: no event but a resumption can free it, and none
   * publishes.
   */
  lemma StalledBlocks(w: World, e: Event, id: Id, m: Message)
    requires Inv(w) && Stalled(w, id) && NextId(w.sender.counter) == id
    ensures !Enabled(w, AppPublish(m))
    ensures Enabled(w, e) ==> NextId(Apply(w, e).sender.counter) == id
    ensures Enabled(w, e) ==> (Stalled(Apply(w, e), id)
                               <==> !(e.Resume? && id < (AtMostAllIds(w.sender.pubrec); |w.sender.pubrec|)))
  {
    if Enabled(w, e) { StalledStays(w, e, id); }
  }

  /** Nothing is in flight or stored, and identifier 2 is stalled. */
  ghost predicate Quiet(w: World, counter: Id) {
    && w.connected && w.down == [] && w.up == []
    && w.sender == Session(map[], {2}, {}, counter) && w.receiver.receiving == {2}
  }

  function Cycle(m: Message): seq<Event> {
    [AppPublish(m), ToReceiver, ToSender, ToReceiver, ToSender]
  }

  /** A message is published and all its packets are taken. */
  lemma OneCycle(w: World, m: Message, counter: Id) returns (ws: seq<World>)
    requires Quiet(w, counter) && NextId(counter) != 2
    ensures Steps(ws, Cycle(m)) && ws[0] == w && Quiet(ws[5], NextId(counter))
  {
    var w1 := Published(w, m);
    var w2 := Received(w1);
    var w3 := Answered(w2);
    var w4 := Received(w3);
    var w5 := Answered(w4);
    ws := [w, w1, w2, w3, w4, w5];
    var id := NextId(counter);
    assert w1.down == [Publish(id, m, ExactlyOnce, false)];
    assert w2.down == [] && w2.up == [PubRec(id)];
    assert w3.down == [PubRel(id)] && w3.up == [];
    assert w3.sender.sending == map[] && w3.sender.pubrec == {2, id};
    assert w4.down == [] && w4.up == [PubComp(id)] && w4.receiver.receiving == {2};
    assert w5.sender.pubrec == {2};
  }

  /** As a run, from any world. */
  ghost predicate Steps(ws: seq<World>, es: seq<Event>) {
    && |ws| == |es| + 1
    && forall i :: 0 <= i < |es| ==> Enabled(ws[i], es[i]) && ws[i + 1] == Apply(ws[i], es[i])
  }

  lemma StepsCat(a: seq<World>, es: seq<Event>, b: seq<World>, fs: seq<Event>)
    requires Steps(a, es) && Steps(b, fs) && a[|es|] == b[0]
    ensures Steps(a + b[1..], es + fs) && (a + b[1..])[0] == a[0] && (a + b[1..])[|es + fs|] == b[|fs|]
  {
    hide Enabled, Apply;
    var c, gs := a + b[1..], es + fs;
    forall i | 0 <= i < |gs| ensures Enabled(c[i], gs[i]) && c[i + 1] == Apply(c[i], gs[i]) {
      if i >= |es| { assert c[i] == b[i - |es|] && c[i + 1] == b[i - |es| + 1]; }
    }
  }

  /** n messages one after another, none of them under identifier 2. */
  lemma {:induction false} ManyCycles(w: World, m: Message, counter: Id, n: nat)
    returns (ws: seq<World>, es: seq<Event>)
    requires Quiet(w, counter) && counter > 0 && forall j :: 0 < j <= n ==> NthId(counter, j) != 2
    ensures Steps(ws, es) && ws[0] == w && Quiet(ws[|es|], NthId(counter, n))
  {
    hide Quiet, Enabled, Apply, Steps, Cycle;
    if n == 0 {
      ws, es := [w], [];
      NoSteps(w);
    } else {
      var us, fs := ManyCycles(w, m, counter, n - 1);
      StepsLength(us, fs);
      assert NthId(counter, n) != 2;
      var vs := OneCycle(us[|fs|], m, NthId(counter, n - 1));
      StepsLength(vs, Cycle(m));
      StepsCat(us, fs, vs, Cycle(m));
      ws, es := us + vs[1..], fs + Cycle(m);
      CycleLength(m);
    }
  }

  lemma RunIsSteps(ws: seq<World>, es: seq<Event>)
    ensures Run(ws, es) <==> Steps(ws, es) && ws[0] == START
  {
  }

  lemma NoSteps(w: World)
    ensures Steps([w], [])
  {
  }

  lemma StepsLength(ws: seq<World>, es: seq<Event>)
    requires Steps(ws, es)
    ensures |ws| == |es| + 1
  {
  }

  lemma CycleLength(m: Message)
    ensures |Cycle(m)| == 5
  {
  }

  /**
   * A run that reaches it: identifier 2 stalls, 65534 messages later its turn comes again.  A message published then is
   * not handed onward, and the PUBREC that it is answered with removes it from the store.
   */
  lemma StalledReuse(m: Message) returns (ws: seq<World>, es: seq<Event>)
    ensures Run(ws, es)
    ensures var w := ws[|es|];
            && Stalled(w, 2) && NextId(w.sender.counter) == 2 && w.sender.sending == map[]
            && !Enabled(w, AppPublish(m))
            && Drained(Published(w, m)).delivered == w.delivered
            && Drained(Published(w, m)).up == [PubRec(2)] && Answered(Drained(Published(w, m))).sender.sending == map[]
  {
    hide Inv, Enabled, Apply, Run, Steps, Published, Drained, Answered;
    var us, fs := StallingRun(m);
    RunIsSteps(us, fs);
    StepsLength(us, fs);
    forall j | 0 < j <= 65534 ensures NthId(2, j) != 2 { IdsCycle(2, j); }
    IdsCycle(2, 65534);
    var vs, gs := ManyCycles(us[|fs|], m, 2, 65534);
    StepsCat(us, fs, vs, gs);
    StepsLength(vs, gs);
    ws, es := us + vs[1..], fs + gs;
    RunIsSteps(ws, es);
    StepsLength(ws, es);
    LastReuse(ws[|es|], m);
  }

  lemma LastReuse(w: World, m: Message)
    requires Quiet(w, 1)
    ensures Stalled(w, 2) && NextId(w.sender.counter) == 2 && !Enabled(w, AppPublish(m))
    ensures Drained(Published(w, m)).delivered == w.delivered
    ensures Drained(Published(w, m)).up == [PubRec(2)] && Answered(Drained(Published(w, m))).sender.sending == map[]
  {
    var v := Published(w, m);
    assert v.down == [Publish(2, m, ExactlyOnce, false)];
    var u := Received(v);
    assert u.down == [] && Drained(u) == u && Drained(v) == u;
  }
}
