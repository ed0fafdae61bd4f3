/**
 * Exactly-once delivery over whole runs: a sending and a receiving session joined by two FIFO channels that lose
 * everything at a disconnection, with any number of resumptions.
 */
module QosProtocol {
  import opened QosSession

  /**
   * `down` carries packets to the receiver and `up` its answers.  The rest is history: the messages published and those
   * handed on by the receiver, the identifier each message was given, the message each identifier last stood for, and
   * the identifiers whose PUBREL the last resumption did not send again.
   */
  datatype World = World(
    sender: Session, receiver: Session, connected: bool, down: seq<Packet>, up: seq<Packet>, clock: nat,
    published: seq<Stored>, delivered: seq<Message>, ids: seq<Id>, index: map<Id, nat>, skipped: set<Id>)

  datatype Event =
    | AppPublish(message: Message)
    | OtherSession
    | ToReceiver
    | ToSender
    | Disconnect
    | Resume(l: seq<Packet>)

  const START := World(FRESH, FRESH, false, [], [], 0, [], [], [], map[], {})

  /** An identifier is unfinished while it is in one of the sender's sets; the counter must not come back to one. */
  predicate Unfinished(s: Session, id: Id) {
    id in s.sending || id in s.pubrec
  }

  ghost predicate Enabled(w: World, e: Event) {
    match e
    case AppPublish(_) => !Unfinished(w.sender, NextId(w.sender.counter))
    case OtherSession => true
    case ToReceiver => w.down != []
    case ToSender => w.up != []
    case Disconnect => w.connected
    case Resume(l) => !w.connected && ResumeList(w.sender.sending, l)
  }

  function Published(w: World, m: Message): World {
    var p, id := Stored(m, w.clock, ExactlyOnce), NextId(w.sender.counter);
    w.(sender := AfterPublish(w.sender, p), clock := w.clock + 1, published := w.published + [p], ids := w.ids + [id],
       index := w.index[id := |w.published|],
       down := if w.connected then w.down + [Publish(id, m, ExactlyOnce, false)] else w.down)
  }

  function Received(w: World): World
    requires w.down != []
  {
    var p, w1 := w.down[0], w.(down := w.down[1..]);
    match p
    case Publish(id, m, _, _) =>
      w1.(receiver := AfterReceive(w.receiver, id), up := w.up + [PubRec(id)],
          delivered := if id in w.receiver.receiving then w.delivered else w.delivered + [m])
    case PubRel(id) => w1.(receiver := AfterPubRel(w.receiver, id), up := w.up + [PubComp(id)])
    case _ => w1
  }

  function Answered(w: World): World
    requires w.up != []
  {
    var p, w1 := w.up[0], w.(up := w.up[1..]);
    match p
    case PubRec(id) => w1.(sender := AfterPubRec(w.sender, id), down := w.down + [PubRel(id)])
    case PubComp(id) => w1.(sender := AfterPubComp(w.sender, id))
    case _ => w1
  }

  function Dropped(w: World): World {
    w.(connected := false, down := [], up := [])
  }

  function Resumed(w: World, l: seq<Packet>): World {
    var rels := ResentRels(w.sender.pubrec);
    w.(connected := true, down := l + rels, up := [], skipped := set id | id in w.sender.pubrec && PubRel(id) !in rels)
  }

  ghost function Apply(w: World, e: Event): World
    requires Enabled(w, e)
  {
    match e
    case AppPublish(m) => Published(w, m)
    case OtherSession => w.(clock := w.clock + 1)
    case ToReceiver => Received(w)
    case ToSender => Answered(w)
    case Disconnect => Dropped(w)
    case Resume(l) => Resumed(w, l)
  }

  /** A run: every event is enabled where it happens. */
  ghost predicate Run(ws: seq<World>, es: seq<Event>) {
    && |ws| == |es| + 1 && ws[0] == START
    && forall i :: 0 <= i < |es| ==> Enabled(ws[i], es[i]) && ws[i + 1] == Apply(ws[i], es[i])
  }

  // The invariant

  function SentIds(q: seq<Packet>): set<Id> {
    set p | p in q :: p.id
  }

  ghost predicate Sets(w: World) {
    && w.sender.sending.Keys !! w.sender.pubrec
    && w.receiver.receiving <= w.sender.sending.Keys + w.sender.pubrec
    && 0 !in w.sender.sending && 0 !in w.sender.pubrec
  }

  ghost predicate Log(w: World) {
    && |w.delivered| <= |w.published| == |w.ids|
    && (forall k :: 0 <= k < |w.delivered| ==> w.delivered[k] == w.published[k].message)
    && (forall k :: 0 <= k < |w.published| ==> w.published[k].order < w.clock && w.published[k].qos == ExactlyOnce)
    && (forall j, k :: 0 <= j < k < |w.published| ==> w.published[j].order < w.published[k].order)
  }

  /**
   * A stored packet is the message its identifier stands for, and the receiver holds the identifier once it handed it
   * on.
   */
  ghost predicate Owns(w: World, id: Id) {
    && id in w.sender.sending && id in w.index && w.index[id] < |w.published|
    && w.published[w.index[id]] == w.sender.sending[id]
    && (id in w.receiver.receiving <==> w.index[id] < |w.delivered|)
  }

  ghost predicate Stores(w: World) {
    && (forall id :: id in w.sender.sending ==> Owns(w, id))
    && (forall a, b :: a in w.sender.sending && b in w.sender.sending && a != b && a in w.index && b in w.index
          ==> w.index[a] != w.index[b])
  }

  /** Nothing is lost: a message not yet handed on is still stored. */
  ghost predicate Owed(w: World) {
    |w.ids| == |w.published|
    && forall k :: |w.delivered| <= k < |w.ids| ==>
         w.ids[k] in w.sender.sending && w.ids[k] in w.index && w.index[w.ids[k]] == k
  }

  ghost predicate Distinct(q: seq<Packet>) {
    forall i, j :: 0 <= i < j < |q| ==> q[i].id != q[j].id
  }

  ghost predicate DownPacket(w: World, p: Packet) {
    match p
    case Publish(id, m, _, _) => id in w.sender.sending && w.sender.sending[id].message == m
    case PubRel(id) => id in w.sender.pubrec
    case _ => false
  }

  ghost predicate UpPacket(w: World, p: Packet) {
    match p
    case PubRec(id) => id in w.sender.sending && id in w.receiver.receiving
    case PubComp(id) => id in w.sender.pubrec && id !in w.receiver.receiving
    case _ => false
  }

  /** At most one packet in flight for each identifier, of the kind the two sessions' sets call for. */
  ghost predicate Channels(w: World) {
    && Distinct(w.down) && Distinct(w.up) && SentIds(w.down) !! SentIds(w.up)
    && (forall p :: p in w.down ==> DownPacket(w, p))
    && (forall p :: p in w.up ==> UpPacket(w, p))
    && (!w.connected ==> w.down == [] && w.up == [])
  }

  ghost predicate Ordered(down: seq<Packet>, index: map<Id, nat>) {
    forall i, j :: 0 <= i < j < |down| && down[i].Publish? && down[j].Publish? && down[i].id in index
        && down[j].id in index
      ==> index[down[i].id] < index[down[j].id]
  }

  /** On a connection every unfinished identifier has a packet in flight, but for the PUBRELs not sent again. */
  ghost predicate Lively(w: World) {
    w.connected ==> w.sender.sending.Keys + (w.sender.pubrec - w.skipped) <= SentIds(w.down) + SentIds(w.up)
  }

  ghost predicate Inv(w: World) {
    Sets(w) && Log(w) && Stores(w) && Owed(w) && Channels(w) && Ordered(w.down, w.index) && Lively(w)
  }

  // Channels as sequences

  lemma SentSnoc(q: seq<Packet>, p: Packet)
    ensures SentIds(q + [p]) == SentIds(q) + {p.id}
  {
    assert forall x :: x in q + [p] <==> x in q || x == p;
  }

  lemma SentTail(q: seq<Packet>)
    requires q != [] && Distinct(q)
    ensures SentIds(q[1..]) == SentIds(q) - {q[0].id} && Distinct(q[1..]) && q[0].id in SentIds(q)
    ensures forall p :: p in q[1..] ==> p in q && p.id != q[0].id
  {
    assert q == [q[0]] + q[1..];
    assert q[0] in q;
    forall p | p in q[1..] ensures p in q && p.id != q[0].id {
      var i :| 0 <= i < |q| - 1 && q[1..][i] == p;
      assert q[i + 1] == p;
    }
    assert forall p :: p in q <==> p == q[0] || p in q[1..];
  }

  lemma DistinctSnoc(q: seq<Packet>, p: Packet)
    requires Distinct(q) && p.id !in SentIds(q)
    ensures Distinct(q + [p])
  {
    forall i | 0 <= i < |q| ensures q[i].id != p.id {
      assert q[i] in q;
    }
  }

  // Publishing

  lemma PublishedKeeps(w: World, m: Message)
    requires Inv(w) && Enabled(w, AppPublish(m))
    ensures Inv(Published(w, m))
  {
    hide Sets, Log, Stores, Owed, Channels, Ordered, Lively, Published;
    PublishedSets(w, m);
    PublishedLog(w, m);
    PublishedStores(w, m);
    PublishedOwed(w, m);
    PublishedChannels(w, m);
    PublishedOrdered(w, m);
    PublishedLively(w, m);
  }

  lemma PublishedSets(w: World, m: Message)
    requires Sets(w) && Enabled(w, AppPublish(m))
    ensures Sets(Published(w, m))
  {
  }

  lemma PublishedLog(w: World, m: Message)
    requires Log(w)
    ensures Log(Published(w, m))
  {
  }

  lemma PublishedStores(w: World, m: Message)
    requires Sets(w) && Log(w) && Stores(w) && Enabled(w, AppPublish(m))
    ensures Stores(Published(w, m))
  {
    var v := Published(w, m);
    forall id | id in v.sender.sending ensures Owns(v, id) {
      if id in w.sender.sending { assert Owns(w, id); }
    }
    forall a, b | a in v.sender.sending && b in v.sender.sending && a != b ensures v.index[a] != v.index[b] {
      if a in w.sender.sending { assert Owns(w, a); }
      if b in w.sender.sending { assert Owns(w, b); }
    }
  }

  lemma PublishedOwed(w: World, m: Message)
    requires Log(w) && Owed(w) && Enabled(w, AppPublish(m))
    ensures Owed(Published(w, m))
  {
  }

  lemma PublishedChannels(w: World, m: Message)
    requires Sets(w) && Channels(w) && Enabled(w, AppPublish(m))
    ensures Channels(Published(w, m))
  {
    hide Distinct;
    var v := Published(w, m);
    var id := NextId(w.sender.counter);
    FreshInFlight(w, id);
    if w.connected {
      var p := Publish(id, m, ExactlyOnce, false);
      SentSnoc(w.down, p);
      DistinctSnoc(w.down, p);
    }
    forall p | p in v.down ensures DownPacket(v, p) {
      if p in w.down { assert DownPacket(w, p); }
    }
    forall p | p in v.up ensures UpPacket(v, p) {
      assert UpPacket(w, p);
    }
  }

  lemma DownIs(w: World, id: Id) returns (j: nat)
    requires Channels(w) && id in SentIds(w.down)
    ensures j < |w.down| && w.down[j].id == id && DownPacket(w, w.down[j])
  {
    var p :| p in w.down && p.id == id;
    assert DownPacket(w, p);
    j :| 0 <= j < |w.down| && w.down[j] == p;
  }

  lemma UpIs(w: World, id: Id)
    requires Channels(w) && id in SentIds(w.up)
    ensures if id in w.receiver.receiving then id in w.sender.sending else id in w.sender.pubrec
  {
    var p :| p in w.up && p.id == id;
    assert UpPacket(w, p);
  }

  /** Packets in flight are about unfinished identifiers. */
  lemma FreshInFlight(w: World, id: Id)
    requires Channels(w) && !Unfinished(w.sender, id)
    ensures id !in SentIds(w.down) && id !in SentIds(w.up)
  {
    if id in SentIds(w.down) {
      var j := DownIs(w, id);
    }
    if id in SentIds(w.up) {
      UpIs(w, id);
    }
  }

  lemma PublishedOrdered(w: World, m: Message)
    requires Ordered(w.down, w.index) && Channels(w) && Stores(w) && Enabled(w, AppPublish(m))
    ensures Ordered(Published(w, m).down, Published(w, m).index)
  {
    var v := Published(w, m);
    forall i, j | 0 <= i < j < |v.down| && v.down[i].Publish? && v.down[j].Publish?
               && v.down[i].id in v.index && v.down[j].id in v.index
      ensures v.index[v.down[i].id] < v.index[v.down[j].id]
    {
      assert v.down[i] in w.down && DownPacket(w, v.down[i]) && Owns(w, v.down[i].id);
      if j < |w.down| {
        assert v.down[j] in w.down && DownPacket(w, v.down[j]) && Owns(w, v.down[j].id);
      }
    }
  }

  lemma PublishedLively(w: World, m: Message)
    requires Lively(w)
    ensures Lively(Published(w, m))
  {
    SentSnoc(w.down, Publish(NextId(w.sender.counter), m, ExactlyOnce, false));
  }

  lemma OtherKeeps(w: World)
    requires Inv(w)
    ensures Inv(w.(clock := w.clock + 1))
  {
    var v := w.(clock := w.clock + 1);
    assert Stores(v) by {
      forall id | id in v.sender.sending ensures Owns(v, id) { assert Owns(w, id); }
    }
    assert Channels(v) by {
      forall p | p in v.down ensures DownPacket(v, p) { assert DownPacket(w, p); }
      forall p | p in v.up ensures UpPacket(v, p) { assert UpPacket(w, p); }
    }
  }

  // A packet reaches the receiver

  lemma ReceivedKeeps(w: World)
    requires Inv(w) && w.down != []
    ensures Inv(Received(w))
  {
    hide Sets, Log, Stores, Owed, Channels, Ordered, Lively, Received;
    ReceivedKind(w);
    if w.down[0].Publish? && w.down[0].id !in w.receiver.receiving {
      ReceivedNext(w);
    }
    ReceivedSets(w);
    ReceivedLog(w);
    ReceivedStores(w);
    ReceivedOwed(w);
    ReceivedChannels(w);
    ReceivedOrdered(w);
    ReceivedLively(w);
  }

  lemma ReceivedKind(w: World)
    requires Channels(w) && w.down != []
    ensures DownPacket(w, w.down[0])
  {
    assert w.down[0] in w.down;
  }

  /** The first message in flight that was not handed on yet is the next one in publication order. */
  lemma ReceivedNext(w: World)
    requires Inv(w) && w.down != [] && w.down[0].Publish? && w.down[0].id !in w.receiver.receiving
    ensures w.down[0].id in w.sender.sending && w.down[0].id in w.index
    ensures w.index[w.down[0].id] == |w.delivered| < |w.published|
    ensures w.down[0].message == w.published[|w.delivered|].message
  {
    ReceivedKind(w);
    var id, d := w.down[0].id, |w.delivered|;
    assert Owns(w, id);
    assert d < |w.published|;
    var next := w.ids[d];
    assert next in w.sender.sending && Owns(w, next);
    NextInFlight(w, next);
    var j := DownIs(w, next);
    assert w.down[j].Publish?;
    FirstInOrder(w, j);
  }

  lemma FirstInOrder(w: World, j: nat)
    requires Ordered(w.down, w.index) && j < |w.down| && w.down[0].Publish? && w.down[j].Publish?
    requires w.down[0].id in w.index && w.down[j].id in w.index
    ensures w.index[w.down[0].id] <= w.index[w.down[j].id]
  {
  }

  /** A stored message the receiver has not seen is on its way down. */
  lemma NextInFlight(w: World, id: Id)
    requires w.connected && Sets(w) && Channels(w) && Lively(w) && id in w.sender.sending && id !in w.receiver.receiving
    ensures id in SentIds(w.down)
  {
    assert id in SentIds(w.down) + SentIds(w.up);
    if id in SentIds(w.up) {
      UpIs(w, id);
    }
  }

  lemma ReceivedSets(w: World)
    requires Sets(w) && w.down != [] && DownPacket(w, w.down[0])
    ensures Sets(Received(w))
  {
  }

  lemma ReceivedLog(w: World)
    requires Log(w) && w.down != []
    requires w.down[0].Publish? && w.down[0].id !in w.receiver.receiving ==>
               |w.delivered| < |w.published| && w.down[0].message == w.published[|w.delivered|].message
    ensures Log(Received(w))
  {
  }

  lemma ReceivedStores(w: World)
    requires Sets(w) && Stores(w) && w.down != [] && DownPacket(w, w.down[0])
    requires w.down[0].Publish? && w.down[0].id !in w.receiver.receiving ==>
               w.down[0].id in w.index && w.index[w.down[0].id] == |w.delivered|
    ensures Stores(Received(w))
  {
    var v := Received(w);
    forall id | id in v.sender.sending ensures Owns(v, id) {
      assert Owns(w, id);
      assert Owns(w, w.down[0].id) || w.down[0].PubRel?;
    }
  }

  lemma ReceivedOwed(w: World)
    requires Owed(w) && w.down != []
    ensures Owed(Received(w))
  {
  }

  lemma ReceivedChannels(w: World)
    requires Sets(w) && Channels(w) && w.down != []
    ensures Channels(Received(w))
  {
    hide Distinct;
    var v, p := Received(w), w.down[0];
    ReceivedKind(w);
    SentTail(w.down);
    var r := if p.Publish? then PubRec(p.id) else PubComp(p.id);
    SentSnoc(w.up, r);
    DistinctSnoc(w.up, r);
    forall q | q in v.down ensures DownPacket(v, q) {
      assert DownPacket(w, q);
    }
    forall q | q in v.up ensures UpPacket(v, q) {
      if q != r { assert q in w.up && UpPacket(w, q) && q.id in SentIds(w.up); }
    }
  }

  lemma ReceivedOrdered(w: World)
    requires Ordered(w.down, w.index) && w.down != []
    ensures Ordered(Received(w).down, Received(w).index)
  {
    var t := w.down[1..];
    forall i, j | 0 <= i < j < |t| && t[i].Publish? && t[j].Publish? && t[i].id in w.index && t[j].id in w.index
      ensures w.index[t[i].id] < w.index[t[j].id]
    {
      assert t[i] == w.down[i + 1] && t[j] == w.down[j + 1];
    }
  }

  lemma ReceivedLively(w: World)
    requires Channels(w) && Lively(w) && w.down != [] && DownPacket(w, w.down[0])
    ensures Lively(Received(w))
  {
    hide Distinct;
    SentTail(w.down);
    SentSnoc(w.up, PubRec(w.down[0].id));
    SentSnoc(w.up, PubComp(w.down[0].id));
  }

  // An answer reaches the sender

  lemma AnsweredKeeps(w: World)
    requires Inv(w) && w.up != []
    ensures Inv(Answered(w))
  {
    hide Sets, Log, Stores, Owed, Channels, Ordered, Lively, Answered;
    AnsweredKind(w);
    AnsweredSets(w);
    AnsweredLog(w);
    AnsweredStores(w);
    AnsweredOwed(w);
    AnsweredChannels(w);
    AnsweredOrdered(w);
    AnsweredLively(w);
  }

  /** So a PUBREC always finds its packet still stored. */
  lemma AnsweredKind(w: World)
    requires Channels(w) && w.up != []
    ensures UpPacket(w, w.up[0])
  {
    assert w.up[0] in w.up;
  }

  lemma AnsweredSets(w: World)
    requires Sets(w) && w.up != [] && UpPacket(w, w.up[0])
    ensures Sets(Answered(w))
  {
  }

  lemma AnsweredLog(w: World)
    requires Log(w) && w.up != []
    ensures Log(Answered(w))
  {
  }

  lemma AnsweredStores(w: World)
    requires Stores(w) && w.up != []
    ensures Stores(Answered(w))
  {
    var v := Answered(w);
    forall id | id in v.sender.sending ensures Owns(v, id) { assert Owns(w, id); }
  }

  lemma AnsweredOwed(w: World)
    requires Log(w) && Stores(w) && Owed(w) && w.up != [] && UpPacket(w, w.up[0])
    ensures Owed(Answered(w))
  {
    var v := Answered(w);
    forall k | |v.delivered| <= k < |v.ids|
      ensures v.ids[k] in v.sender.sending && v.ids[k] in v.index && v.index[v.ids[k]] == k
    {
      assert Owns(w, w.ids[k]);
    }
  }

  lemma AnsweredChannels(w: World)
    requires Sets(w) && Channels(w) && w.up != []
    ensures Channels(Answered(w))
  {
    hide Distinct;
    var v, p := Answered(w), w.up[0];
    AnsweredKind(w);
    SentTail(w.up);
    if p.PubRec? {
      SentSnoc(w.down, PubRel(p.id));
      DistinctSnoc(w.down, PubRel(p.id));
    }
    forall q | q in v.down ensures DownPacket(v, q) {
      if q in w.down { assert DownPacket(w, q) && q.id in SentIds(w.down); }
    }
    forall q | q in v.up ensures UpPacket(v, q) {
      assert UpPacket(w, q);
    }
  }

  lemma AnsweredOrdered(w: World)
    requires Ordered(w.down, w.index) && w.up != []
    ensures Ordered(Answered(w).down, Answered(w).index)
  {
  }

  lemma AnsweredLively(w: World)
    requires Sets(w) && Channels(w) && Lively(w) && w.up != [] && UpPacket(w, w.up[0])
    ensures Lively(Answered(w))
  {
    hide Distinct;
    SentTail(w.up);
    SentSnoc(w.down, PubRel(w.up[0].id));
  }

  // Losing and resuming a connection

  lemma DroppedKeeps(w: World)
    requires Inv(w)
    ensures Inv(Dropped(w))
  {
    var v := Dropped(w);
    assert Stores(v) by {
      forall id | id in v.sender.sending ensures Owns(v, id) { assert Owns(w, id); }
    }
  }

  lemma ResumedKeeps(w: World, l: seq<Packet>)
    requires Inv(w) && Enabled(w, Resume(l))
    ensures Inv(Resumed(w, l))
  {
    hide Sets, Log, Stores, Owed, Channels, Ordered, Lively, Resumed, ResumeList;
    ResumedSame(w, l);
    ResumedChannels(w, l);
    ResumedOrdered(w, l);
    ResumedLively(w, l);
  }

  lemma ResumedSame(w: World, l: seq<Packet>)
    requires Sets(w) && Log(w) && Stores(w) && Owed(w)
    ensures Sets(Resumed(w, l)) && Log(Resumed(w, l)) && Stores(Resumed(w, l)) && Owed(Resumed(w, l))
  {
    var v := Resumed(w, l);
    forall id | id in v.sender.sending ensures Owns(v, id) { assert Owns(w, id); }
  }

  lemma SentCat(a: seq<Packet>, b: seq<Packet>)
    ensures SentIds(a + b) == SentIds(a) + SentIds(b)
  {
    assert forall x :: x in a + b <==> x in a || x in b;
  }

  lemma DistinctCat(a: seq<Packet>, b: seq<Packet>)
    requires Distinct(a) && Distinct(b) && SentIds(a) !! SentIds(b)
    ensures Distinct(a + b)
  {
    var q := a + b;
    forall i, j | 0 <= i < j < |q| ensures q[i].id != q[j].id {
      if i < |a| <= j {
        assert a[i] in a && b[j - |a|] in b && a[i].id in SentIds(a) && b[j - |a|].id in SentIds(b);
      }
    }
  }

  /** The identifiers sent again: those stored, and some of those whose PUBCOMP is awaited. */
  lemma ResumedIds(w: World, l: seq<Packet>)
    requires ResumeList(w.sender.sending, l)
    ensures SentIds(l) == w.sender.sending.Keys && Distinct(l)
    ensures forall p :: p in l ==> Resent(w.sender.sending, p)
    ensures var r := ResentRels(w.sender.pubrec);
            SentIds(r) <= w.sender.pubrec && Distinct(r) && forall p :: p in r ==> p.PubRel?
  {
    AtMostAllIds(w.sender.pubrec);
    RelsHas(w.sender.pubrec, 0, |w.sender.pubrec|);
    forall id | id in w.sender.sending ensures id in SentIds(l) {
      var j :| 0 <= j < |l| && l[j].id == id;
      assert l[j] in l;
    }
  }

  lemma ResumedChannels(w: World, l: seq<Packet>)
    requires Sets(w) && ResumeList(w.sender.sending, l)
    ensures Channels(Resumed(w, l))
  {
    hide Distinct, ResumeList, ResentRels;
    var r := ResentRels(w.sender.pubrec);
    ResumedIds(w, l);
    SentCat(l, r);
    DistinctCat(l, r);
    NothingInFlight();
    forall p | p in l + r ensures DownPacket(Resumed(w, l), p) {
      if p in r { assert p.id in SentIds(r); } else { assert Resent(w.sender.sending, p); }
    }
  }

  lemma NothingInFlight()
    ensures Distinct([]) && SentIds([]) == {}
  {
  }

  lemma ResumedOrdered(w: World, l: seq<Packet>)
    requires Log(w) && Stores(w) && ResumeList(w.sender.sending, l)
    ensures Ordered(Resumed(w, l).down, Resumed(w, l).index)
  {
    hide ResentRels, Log, Stores;
    ResumedIds(w, l);
    var r, s := ResentRels(w.sender.pubrec), w.sender.sending;
    var q := l + r;
    NoPublishAfter(l, r);
    forall i, j | 0 <= i < j < |q| && q[i].Publish? && q[j].Publish? && q[i].id in w.index && q[j].id in w.index
      ensures w.index[q[i].id] < w.index[q[j].id]
    {
      assert j < |l|;
      assert q[i] == l[i] && q[j] == l[j] && Resent(s, l[i]) && Resent(s, l[j]);
      assert Order(s, l[i]) <= Order(s, l[j]);
      EarlierFirst(w, l[i].id, l[j].id);
    }
  }

  lemma NoPublishAfter(l: seq<Packet>, r: seq<Packet>)
    requires forall p :: p in r ==> p.PubRel?
    ensures forall j :: |l| <= j < |l + r| ==> (l + r)[j].PubRel?
  {
    forall j | |l| <= j < |l + r| ensures (l + r)[j].PubRel? {
      assert r[j - |l|] in r;
    }
  }

  /** The shared counter orders stored packets as they were published. */
  lemma EarlierFirst(w: World, a: Id, b: Id)
    requires Log(w) && Stores(w) && a in w.sender.sending && b in w.sender.sending && a != b
    requires w.sender.sending[a].order <= w.sender.sending[b].order
    ensures a in w.index && b in w.index && w.index[a] < w.index[b]
  {
    assert Owns(w, a) && Owns(w, b);
  }

  lemma ResumedLively(w: World, l: seq<Packet>)
    requires ResumeList(w.sender.sending, l)
    ensures Lively(Resumed(w, l))
  {
    hide Distinct, ResumeList, ResentRels;
    var v, r := Resumed(w, l), ResentRels(w.sender.pubrec);
    ResumedIds(w, l);
    SentCat(l, r);
    forall id | id in w.sender.pubrec && id !in v.skipped ensures id in SentIds(r) {
      assert PubRel(id) in r;
    }
  }

  // Runs

  lemma StartInv()
    ensures Inv(START)
  {
  }

  lemma ApplyKeeps(w: World, e: Event)
    requires Inv(w) && Enabled(w, e)
    ensures Inv(Apply(w, e))
  {
    hide Inv;
    match e
    case AppPublish(m) => PublishedKeeps(w, m);
    case OtherSession => OtherKeeps(w);
    case ToReceiver => ReceivedKeeps(w);
    case ToSender => AnsweredKeeps(w);
    case Disconnect => DroppedKeeps(w);
    case Resume(l) => ResumedKeeps(w, l);
  }

  lemma {:induction false} RunKeeps(ws: seq<World>, es: seq<Event>, i: nat)
    requires Run(ws, es) && i <= |es|
    ensures Inv(ws[i])
  {
    hide Inv, Apply, Enabled;
    if i == 0 {
      StartInv();
    } else {
      RunKeeps(ws, es, i - 1);
      ApplyKeeps(ws[i - 1], es[i - 1]);
    }
  }

  /**
   * What was handed on is, at every moment of every run, a prefix of what was published: nothing twice, nothing out of
   * order.
   */
  lemma DeliveredIsPrefix(ws: seq<World>, es: seq<Event>, i: nat)
    requires Run(ws, es) && i <= |es|
    ensures var w := ws[i];
            && |w.delivered| <= |w.published|
            && forall k :: 0 <= k < |w.delivered| ==> w.delivered[k] == w.published[k].message
  {
    RunKeeps(ws, es, i);
  }

  /**
   * A message whose identifier has left both of the sender's sets was handed on, and one not handed on is still
   * stored.
   */
  lemma FinishedIsDelivered(ws: seq<World>, es: seq<Event>, i: nat, k: nat)
    requires Run(ws, es) && i <= |es| && k < |ws[i].published|
    ensures var w := ws[i];
            && |w.ids| == |w.published|
            && (!Unfinished(w.sender, w.ids[k]) ==> k < |w.delivered|)
            && (k >= |w.delivered| ==> w.ids[k] in w.sender.sending && w.sender.sending[w.ids[k]] == w.published[k])
  {
    RunKeeps(ws, es, i);
    var w := ws[i];
    if k >= |w.delivered| {
      assert Owns(w, w.ids[k]);
    }
  }

  /**
   * A PUBREC in a run always finds its packet, and it was handed on; so the "no such message id" branch is never
   * taken.
   */
  lemma PubRecFindsPacket(ws: seq<World>, es: seq<Event>, i: nat)
    requires Run(ws, es) && i <= |es| && ws[i].up != [] && ws[i].up[0].PubRec?
    ensures var w, id := ws[i], ws[i].up[0].id;
            && id in w.sender.sending && id !in w.sender.pubrec
            && id in w.index && w.index[id] < |w.delivered| <= |w.published|
               && w.sender.sending[id] == w.published[w.index[id]]
  {
    RunKeeps(ws, es, i);
    AnsweredKind(ws[i]);
    assert Owns(ws[i], ws[i].up[0].id);
  }

  /** When a connection falls silent, everything published was handed on, and only skipped PUBRELs are unfinished. */
  lemma SilenceIsDelivery(ws: seq<World>, es: seq<Event>, i: nat)
    requires Run(ws, es) && i <= |es| && ws[i].connected && ws[i].down == [] && ws[i].up == []
    ensures var w := ws[i];
            && |w.delivered| == |w.published| && w.sender.sending == map[] && w.sender.pubrec <= w.skipped
  {
    RunKeeps(ws, es, i);
    var w := ws[i];
    assert w.sender.sending.Keys == {};
    if |w.published| > 0 {
      FinishedIsDelivered(ws, es, i, |w.published| - 1);
    }
  }

  /** A resumption of a run leaves a PUBREL unsent exactly when there is one to send. */
  lemma ResumeSkipsIff(ws: seq<World>, es: seq<Event>, i: nat)
    requires Run(ws, es) && i < |es| && es[i].Resume?
    ensures ws[i + 1].skipped == {} <==> ws[i].sender.pubrec == {}
  {
    RunKeeps(ws, es, i);
    var s := ws[i].sender.pubrec;
    RelsCompleteOnlyWhenNone(s);
    assert forall id :: id in ws[i + 1].skipped <==> id in s && PubRel(id) !in ResentRels(s);
  }

  /** An identifier awaiting PUBCOMP with nothing about it in flight. */
  ghost predicate Stalled(w: World, id: Id) {
    id in w.sender.pubrec && id !in SentIds(w.down) && id !in SentIds(w.up)
  }

  /** Only a resumption that finds more awaited identifiers than this one's number gets it moving again. */
  lemma StalledStays(w: World, e: Event, id: Id)
    requires Inv(w) && Enabled(w, e) && Stalled(w, id)
    ensures Stalled(Apply(w, e), id) <==> !(e.Resume? && id < (AtMostAllIds(w.sender.pubrec); |w.sender.pubrec|))
  {
    hide Distinct, Log, Stores, Owed, Ordered, Lively, ResumeList;
    match e
    case AppPublish(m) => SentSnoc(w.down, Publish(NextId(w.sender.counter), m, ExactlyOnce, false));
    case OtherSession =>
    case ToReceiver => StalledReceived(w, id);
    case ToSender => StalledAnswered(w, id);
    case Disconnect =>
    case Resume(l) => StalledResumed(w, l, id);
  }

  lemma StalledReceived(w: World, id: Id)
    requires Channels(w) && w.down != [] && Stalled(w, id)
    ensures Stalled(Received(w), id)
  {
    hide Distinct;
    SentTail(w.down);
    SentSnoc(w.up, PubRec(w.down[0].id));
    SentSnoc(w.up, PubComp(w.down[0].id));
  }

  lemma StalledAnswered(w: World, id: Id)
    requires Channels(w) && w.up != [] && Stalled(w, id)
    ensures Stalled(Answered(w), id)
  {
    hide Distinct;
    SentTail(w.up);
    SentSnoc(w.down, PubRel(w.up[0].id));
  }

  lemma StalledResumed(w: World, l: seq<Packet>, id: Id)
    requires Sets(w) && ResumeList(w.sender.sending, l) && Stalled(w, id)
    ensures Stalled(Resumed(w, l), id) <==> !(id < (AtMostAllIds(w.sender.pubrec); |w.sender.pubrec|))
  {
    hide Distinct, ResumeList;
    var s := w.sender.pubrec;
    var r := ResentRels(s);
    ResumedIds(w, l);
    SentCat(l, r);
    AtMostAllIds(s);
    RelsHas(s, 0, |s|);
    if id < |s| { assert PubRel(id) in r; }
  }

  /**
   * The shortest run that stalls: one message, its connection lost after PUBREC, and a resumption that sends nothing.
   */
  lemma StallingRun(m: Message) returns (ws: seq<World>, es: seq<Event>)
    ensures Run(ws, es) && var w := ws[|es|];
              && w.connected && Stalled(w, 2) && w.delivered == [m] && w.receiver.receiving == {2}
              && w.sender == Session(map[], {2}, {}, 2) && w.down == [] && w.up == []
  {
    hide Apply, Enabled, Stalled;
    var w1, w2, w3 := DeliverOne(m);
    var w4, w5, w6 := LoseOne(m, w3);
    es := [Resume([]), AppPublish(m), ToReceiver, ToSender, Disconnect, Resume([])];
    ws := [START, w1, w2, w3, w4, w5, w6];
  }

  lemma DeliverOne(m: Message) returns (w1: World, w2: World, w3: World)
    ensures Enabled(START, Resume([])) && w1 == Apply(START, Resume([]))
    ensures Enabled(w1, AppPublish(m)) && w2 == Apply(w1, AppPublish(m))
    ensures Enabled(w2, ToReceiver) && w3 == Apply(w2, ToReceiver)
    ensures w3.down == [] && w3.up == [PubRec(2)] && w3.delivered == [m] && w3.receiver.receiving == {2} && w3.connected
    ensures w3.sender.sending.Keys == {2} && w3.sender == Session(w3.sender.sending, {}, {}, 2)
  {
    hide ResumeList;
    NothingToResume(map[]);
    assert Rels({}, 0, 0) == [];
    w1 := Resumed(START, []);
    w2 := Published(w1, m);
    assert w2.down == [Publish(2, m, ExactlyOnce, false)];
    w3 := Received(w2);
  }

  lemma LoseOne(m: Message, w3: World) returns (w4: World, w5: World, w6: World)
    requires w3.down == [] && w3.up == [PubRec(2)] && w3.delivered == [m] && w3.receiver.receiving == {2}
             && w3.connected
    requires w3.sender.sending.Keys == {2} && w3.sender == Session(w3.sender.sending, {}, {}, 2)
    ensures Enabled(w3, ToSender) && w4 == Apply(w3, ToSender)
    ensures Enabled(w4, Disconnect) && w5 == Apply(w4, Disconnect)
    ensures Enabled(w5, Resume([])) && w6 == Apply(w5, Resume([]))
    ensures w6.connected && Stalled(w6, 2) && w6.delivered == [m] && w6.receiver.receiving == {2}
    ensures w6.sender == Session(map[], {2}, {}, 2) && w6.down == [] && w6.up == []
  {
    hide ResumeList, ResentRels;
    w4 := Answered(w3);
    assert w4.sender.sending.Keys == {};
    assert w4.sender.pubrec == {2} && w4.sender.sending == map[];
    w5 := Dropped(w4);
    NothingToResume(w5.sender.sending);
    FirstRelIsSkipped();
    NothingInFlight();
    w6 := Resumed(w5, []);
    assert w6.down == [];
  }

  lemma NothingToResume(sending: map<Id, Stored>)
    requires sending == map[]
    ensures ResumeList(sending, [])
  {
  }

  /** The identifier given to the n-th message from now. */
  function NthId(counter: Id, n: nat): Id {
    if n == 0 then counter else NextId(NthId(counter, n - 1))
  }

  /** The counter cycles through 1 .. 65535, so fewer than 65535 messages in a row never share an identifier. */
  lemma {:induction false} IdsCycle(counter: Id, n: nat)
    requires counter > 0
    ensures NthId(counter, n) == (counter - 1 + n) % 0xffff + 1
  {
    if n > 0 {
      IdsCycle(counter, n - 1);
    }
  }

  lemma NoEarlyReuse(counter: Id, j: nat, k: nat)
    requires counter > 0 && j < k < j + 0xffff
    ensures NthId(counter, j) != NthId(counter, k) && NthId(counter, j + 0xffff) == NthId(counter, j)
  {
    IdsCycle(counter, j);
    IdsCycle(counter, k);
    IdsCycle(counter, j + 0xffff);
  }
}
