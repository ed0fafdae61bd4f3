/** The quality-of-service state a broker keeps for one client, as its handlers update it. */
module QosSession {

  type Id = n: nat | n < 0x1_0000

  datatype QoS = AtLeastOnce | ExactlyOnce

  datatype Message = Message(topic: string, payload: string)

  /** A packet kept until it is acknowledged; `order` comes from a counter shared by all sessions. */
  datatype Stored = Stored(message: Message, order: nat, qos: QoS)

  datatype Packet =
    | Publish(id: Id, message: Message, qos: QoS, dup: bool)
    | PubAck(id: Id)
    | PubRec(id: Id)
    | PubRel(id: Id)
    | PubComp(id: Id)

  /**
   * `sending`: not yet acknowledged; `pubrec`: acknowledged with PUBREC, PUBCOMP awaited; `receiving`: PUBREL awaited.
   */
  datatype Session = Session(sending: map<Id, Stored>, pubrec: set<Id>, receiving: set<Id>, counter: Id)

  const FRESH := Session(map[], {}, {}, 1)

  /** Identifier 0 is not allowed, so the counter steps over it. */
  function NextId(counter: Id): Id {
    if counter == 0xffff then 1 else counter + 1
  }

  /** A packet already stored under the identifier stays: the map's emplace does not overwrite. */
  function AfterPublish(s: Session, p: Stored): Session {
    var id := NextId(s.counter);
    s.(counter := id, sending := if id in s.sending then s.sending else s.sending[id := p])
  }

  function AfterAck(s: Session, id: Id): Session {
    s.(sending := s.sending - {id})
  }

  function AfterPubRec(s: Session, id: Id): Session {
    s.(sending := s.sending - {id}, pubrec := s.pubrec + {id})
  }

  function AfterPubComp(s: Session, id: Id): Session {
    s.(pubrec := s.pubrec - {id})
  }

  function AfterReceive(s: Session, id: Id): Session {
    s.(receiving := s.receiving + {id})
  }

  function AfterPubRel(s: Session, id: Id): Session {
    s.(receiving := s.receiving - {id})
  }

  /** What a session resumption sends for the packets not yet acknowledged: all of them, in their original order. */
  ghost predicate ResumeList(sending: map<Id, Stored>, l: seq<Packet>) {
    OnlyStored(sending, l) && AllStored(sending, l) && InOrder(sending, l)
  }

  ghost predicate OnlyStored(sending: map<Id, Stored>, l: seq<Packet>) {
    forall j :: 0 <= j < |l| ==> Resent(sending, l[j])
  }

  ghost predicate AllStored(sending: map<Id, Stored>, l: seq<Packet>) {
    forall id :: id in sending ==> exists j :: 0 <= j < |l| && l[j].id == id
  }

  ghost predicate InOrder(sending: map<Id, Stored>, l: seq<Packet>) {
    forall i, j :: 0 <= i < j < |l| ==> l[i].id != l[j].id && Order(sending, l[i]) <= Order(sending, l[j])
  }

  predicate Resent(sending: map<Id, Stored>, p: Packet) {
    p.id in sending && p == Publish(p.id, sending[p.id].message, sending[p.id].qos, true)
  }

  function Order(sending: map<Id, Stored>, p: Packet): int {
    if p.id in sending then sending[p.id].order else -1
  }

  /** After a PUBACK its packet is not stored and no resumption sends it; every other packet still is and is sent. */
  lemma AckedIsForgotten(s: Session, id: Id, l: seq<Packet>)
    requires ResumeList(AfterAck(s, id).sending, l)
    ensures var t := AfterAck(s, id);
            && id !in t.sending && t.pubrec == s.pubrec && t.receiving == s.receiving && t.counter == s.counter
            && (forall x :: x in s.sending && x != id ==> x in t.sending && t.sending[x] == s.sending[x])
            && forall x :: x in t.sending ==> x in s.sending
    ensures forall j :: 0 <= j < |l| ==> l[j].id != id
    ensures forall x :: x in s.sending && x != id ==> exists j :: 0 <= j < |l| && l[j].id == x
  {
    var t := AfterAck(s, id);
    forall j | 0 <= j < |l| ensures l[j].id != id { assert Resent(t.sending, l[j]); }
    forall x | x in s.sending && x != id ensures exists j :: 0 <= j < |l| && l[j].id == x { assert x in t.sending; }
  }

  /** The PUBRELs for the identifiers in s from lo up to hi. */
  function Rels(s: set<Id>, lo: nat, hi: nat): seq<Packet>
    requires lo <= hi <= 0x1_0000
  {
    if lo == hi then [] else Rels(s, lo, hi - 1) + if hi - 1 in s then [PubRel(hi - 1)] else []
  }

  lemma {:induction false} RelsHas(s: set<Id>, lo: nat, hi: nat)
    requires lo <= hi <= 0x1_0000
    ensures forall j :: 0 <= j < |Rels(s, lo, hi)| ==>
              var p := Rels(s, lo, hi)[j]; p.PubRel? && p.id in s && lo <= p.id < hi
    ensures forall id :: id in s && lo <= id < hi ==> PubRel(id) in Rels(s, lo, hi)
    ensures forall i, j :: 0 <= i < j < |Rels(s, lo, hi)| ==> Rels(s, lo, hi)[i].id < Rels(s, lo, hi)[j].id
  {
    if lo < hi {
      RelsHas(s, lo, hi - 1);
    }
  }

  /** The identifiers below n. */
  function Below(n: nat): (s: set<Id>)
    requires n <= 0x1_0000
    ensures |s| == n && forall id: Id :: id in s <==> id < n
  {
    if n == 0 then {} else
      var t := Below(n - 1);
      assert n - 1 !in t;
      t + {n - 1}
  }

  lemma AtMostAllIds(s: set<Id>)
    ensures |s| <= 0x1_0000
  {
    var all := Below(0x1_0000);
    assert s <= all;
    SubsetSize(s, all);
  }

  lemma {:induction false} SubsetSize(s: set<Id>, t: set<Id>)
    requires s <= t
    ensures |s| <= |t| && (|s| == |t| ==> s == t)
  {
    if s != {} {
      var x :| x in s;
      SubsetSize(s - {x}, t - {x});
      assert s == (s - {x}) + {x} && t == (t - {x}) + {x};
    }
  }

  /**
   * What the resume loop sends for PUBRECs already received: it stops at the number of bits set, not at the last one.
   */
  function ResentRels(s: set<Id>): seq<Packet> {
    AtMostAllIds(s);
    Rels(s, 0, |s|)
  }

  /** Every awaited PUBCOMP gets its PUBREL again exactly when the awaited identifiers are 0, 1, .. without a gap. */
  lemma RelsCompleteIff(s: set<Id>)
    ensures (forall id :: id in s ==> PubRel(id) in ResentRels(s)) <==> (forall id :: id in s ==> id < |s|)
    ensures (forall id :: id in s ==> id < |s|) <==> s == Below((AtMostAllIds(s); |s|))
  {
    hide Below;
    AtMostAllIds(s);
    SentBelow(s);
    BelowSize(s);
  }

  /** The PUBRELs sent are those of the awaited identifiers below their number. */
  lemma SentBelow(s: set<Id>)
    ensures forall id :: id in s ==> (PubRel(id) in ResentRels(s) <==> id < (AtMostAllIds(s); |s|))
  {
    hide Rels;
    AtMostAllIds(s);
    RelsHas(s, 0, |s|);
  }

  lemma BelowSize(s: set<Id>)
    ensures (forall id :: id in s ==> id < |s|) <==> s == Below((AtMostAllIds(s); |s|))
  {
    AtMostAllIds(s);
    var low := Below(|s|);
    if forall id :: id in s ==> id < |s| {
      SubsetSize(s, low);
    }
  }

  /** Sessions never use identifier 0, so the loop resends every PUBREL only when there is none to resend. */
  lemma RelsCompleteOnlyWhenNone(s: set<Id>)
    requires 0 !in s
    ensures (forall id :: id in s ==> PubRel(id) in ResentRels(s)) <==> s == {}
  {
    RelsCompleteIff(s);
    AtMostAllIds(s);
    if s != {} {
      assert 0 in Below(|s|);
    }
  }

  /** The first identifier a session ever uses is 2, and its PUBREL is not sent again. */
  lemma FirstRelIsSkipped()
    ensures NextId(FRESH.counter) == 2 && ResentRels({2}) == []
  {
    assert Rels({2}, 0, 1) == Rels({2}, 0, 0) + [];
  }

  /** The packets a resumption sends are determined by the stored ones, when no two share an order. */
  lemma {:induction false} ResumeListUnique(sending: map<Id, Stored>, l: seq<Packet>, k: seq<Packet>)
    requires ResumeList(sending, l) && ResumeList(sending, k)
    requires forall a, b :: a in sending && b in sending && a != b ==> sending[a].order != sending[b].order
    ensures l == k
    decreases |l|
  {
    SameEmpty(sending, l, k);
    if l != [] {
      FirstIsLeast(sending, l, k);
      FirstIsLeast(sending, k, l);
      ResumeTail(sending, l);
      ResumeTail(sending, k);
      ResumeListUnique(sending - {l[0].id}, l[1..], k[1..]);
      assert l == [l[0]] + l[1..] && k == [k[0]] + k[1..];
    }
  }

  lemma SameEmpty(sending: map<Id, Stored>, l: seq<Packet>, k: seq<Packet>)
    requires ResumeList(sending, l) && ResumeList(sending, k)
    ensures l == [] <==> k == []
  {
    assert l != [] ==> Resent(sending, l[0]);
    assert k != [] ==> Resent(sending, k[0]);
  }

  lemma FirstIsLeast(sending: map<Id, Stored>, l: seq<Packet>, k: seq<Packet>)
    requires ResumeList(sending, l) && ResumeList(sending, k) && l != [] && k != []
    ensures l[0].id in sending && k[0].id in sending && sending[l[0].id].order <= sending[k[0].id].order
    ensures Resent(sending, l[0]) && Resent(sending, k[0])
  {
    assert Resent(sending, k[0]) && Resent(sending, l[0]);
    var j :| 0 <= j < |l| && l[j].id == k[0].id;
  }

  lemma ResumeTail(sending: map<Id, Stored>, l: seq<Packet>)
    requires ResumeList(sending, l) && l != []
    ensures ResumeList(sending - {l[0].id}, l[1..])
  {
    var rest, t := sending - {l[0].id}, l[1..];
    assert OnlyStored(rest, t) by {
      forall j | 0 <= j < |t| ensures Resent(rest, t[j]) {
        assert Resent(sending, l[j + 1]) && l[0].id != l[j + 1].id;
      }
    }
    assert AllStored(rest, t) by {
      forall id | id in rest ensures exists j :: 0 <= j < |t| && t[j].id == id {
        var j :| 0 <= j < |l| && l[j].id == id;
        assert t[j - 1].id == id;
      }
    }
    assert InOrder(rest, t) by { TailInOrder(sending, l); }
  }

  lemma TailInOrder(sending: map<Id, Stored>, l: seq<Packet>)
    requires OnlyStored(sending, l) && InOrder(sending, l) && l != []
    ensures InOrder(sending - {l[0].id}, l[1..])
  {
    var rest, t := sending - {l[0].id}, l[1..];
    forall i, j | 0 <= i < j < |t| ensures t[i].id != t[j].id && Order(rest, t[i]) <= Order(rest, t[j]) {
      assert Resent(sending, l[i + 1]) && l[0].id != l[i + 1].id;
      assert Resent(sending, l[j + 1]) && l[0].id != l[j + 1].id;
    }
  }

  /** A connection, as far as packets handed to it are concerned. */
  class MQTTClientConnection {
    var sent: seq<Packet>

    constructor ()
      ensures sent == []
    {
      sent := [];
    }

    method SendData(p: Packet)
      modifies this
      ensures sent == old(sent) + [p]
    {
      sent := sent + [p];
    }
  }

  class PersistentClientState {
    var mHighQoSSendingPackets: map<Id, Stored>
    var mQos2pubrecReceived: set<Id>
    var mQoS2receivingPacketIds: set<Id>
    var mPacketIdCounter: Id
    var mCurrentClient: MQTTClientConnection?

    function Value(): Session
      reads this
    {
      Session(mHighQoSSendingPackets, mQos2pubrecReceived, mQoS2receivingPacketIds, mPacketIdCounter)
    }

    function Sent(): seq<Packet>
      reads this, mCurrentClient
    {
      if mCurrentClient == null then [] else mCurrentClient.sent
    }

    constructor ()
      ensures Value() == FRESH && mCurrentClient == null
    {
      mHighQoSSendingPackets, mQos2pubrecReceived, mQoS2receivingPacketIds := map[], {}, {};
      mPacketIdCounter, mCurrentClient := 1, null;
    }

    /**
     * Stores a message under the next identifier and sends it when a client is connected; `clock` is the shared order
     * counter.
     */
    method Publish(message: Message, qos: QoS, clock: nat) returns (clock': nat)
      modifies this, mCurrentClient
      ensures mCurrentClient == old(mCurrentClient) && clock' == clock + 1
      ensures Value() == AfterPublish(old(Value()), Stored(message, clock, qos))
      ensures Sent() == old(Sent()) + if mCurrentClient == null then []
              else [Packet.Publish(Value().counter, message, qos, false)]
    {
      mPacketIdCounter := (mPacketIdCounter + 1) % 0x1_0000;
      while mPacketIdCounter == 0
        invariant mPacketIdCounter == (old(mPacketIdCounter) + 1) % 0x1_0000
                  || mPacketIdCounter == NextId(old(mPacketIdCounter))
        invariant mHighQoSSendingPackets == old(mHighQoSSendingPackets)
                  && mQos2pubrecReceived == old(mQos2pubrecReceived)
        invariant mQoS2receivingPacketIds == old(mQoS2receivingPacketIds) && mCurrentClient == old(mCurrentClient)
        invariant Sent() == old(Sent())
        decreases mPacketIdCounter == 0
      {
        mPacketIdCounter := (mPacketIdCounter + 1) % 0x1_0000;
      }
      var packetId := mPacketIdCounter;
      clock' := clock + 1;
      if packetId !in mHighQoSSendingPackets {
        mHighQoSSendingPackets := mHighQoSSendingPackets[packetId := Stored(message, clock, qos)];
      }
      if mCurrentClient != null {
        mCurrentClient.SendData(Packet.Publish(packetId, message, qos, false));
      }
    }

    method HandlePubAck(id: Id)
      modifies this
      ensures Value() == AfterAck(old(Value()), id) && mCurrentClient == old(mCurrentClient)
    {
      mHighQoSSendingPackets := mHighQoSSendingPackets - {id};
    }

    /** The bit is set and PUBREL answered even when no packet with this identifier was being sent. */
    method HandlePubRec(client: MQTTClientConnection, id: Id) returns (packetIdentifierFound: bool)
      modifies this, client
      ensures Value() == AfterPubRec(old(Value()), id) && mCurrentClient == old(mCurrentClient)
      ensures packetIdentifierFound <==> id in old(mHighQoSSendingPackets)
      ensures client.sent == old(client.sent) + [PubRel(id)]
    {
      packetIdentifierFound := id in mHighQoSSendingPackets;
      mHighQoSSendingPackets := mHighQoSSendingPackets - {id};
      mQos2pubrecReceived := mQos2pubrecReceived + {id};
      client.SendData(PubRel(id));
    }

    method HandlePubComp(id: Id)
      modifies this
      ensures Value() == AfterPubComp(old(Value()), id) && mCurrentClient == old(mCurrentClient)
    {
      mQos2pubrecReceived := mQos2pubrecReceived - {id};
    }

    /** Whether a received message is handed on: not when its identifier still waits for PUBREL. */
    method HandlePublish(client: MQTTClientConnection, id: Id, qos: QoS) returns (doDeliverOnward: bool)
      modifies this, client
      ensures Value() == (if qos == ExactlyOnce then AfterReceive(old(Value()), id) else old(Value()))
      ensures mCurrentClient == old(mCurrentClient)
      ensures doDeliverOnward <==> qos == AtLeastOnce || id !in old(mQoS2receivingPacketIds)
      ensures client.sent == old(client.sent) + [if qos == ExactlyOnce then PubRec(id) else PubAck(id)]
    {
      doDeliverOnward := true;
      if qos == AtLeastOnce {
        client.SendData(PubAck(id));
      } else {
        doDeliverOnward := id !in mQoS2receivingPacketIds;
        mQoS2receivingPacketIds := mQoS2receivingPacketIds + {id};
        client.SendData(PubRec(id));
      }
    }

    /** PUBCOMP is answered whether or not the identifier was known. */
    method HandlePubRel(client: MQTTClientConnection, id: Id) returns (packetIdentifierFound: bool)
      modifies this, client
      ensures Value() == AfterPubRel(old(Value()), id) && mCurrentClient == old(mCurrentClient)
      ensures packetIdentifierFound <==> id in old(mQoS2receivingPacketIds)
      ensures client.sent == old(client.sent) + [PubComp(id)]
    {
      packetIdentifierFound := true;
      if id !in mQoS2receivingPacketIds {
        packetIdentifierFound := false;
      } else {
        mQoS2receivingPacketIds := mQoS2receivingPacketIds - {id};
      }
      client.SendData(PubComp(id));
    }

    /** Makes a connection the session's; a clean session also forgets what was in flight. */
    method ReplaceCurrentClient(client: MQTTClientConnection, clean: bool)
      modifies this
      ensures mCurrentClient == client && Value() == if clean then FRESH else old(Value())
    {
      mCurrentClient := client;
      if clean {
        mQos2pubrecReceived, mQoS2receivingPacketIds := {}, {};
        mHighQoSSendingPackets := map[];
        mPacketIdCounter := 1;
      }
    }

    /** The stored packets in order, found by inserting each at its place. */
    method OrderedPackets() returns (l: seq<Packet>)
      ensures ResumeList(mHighQoSSendingPackets, l)
    {
      hide InOrder, OnlyStored;
      l := [];
      var left := mHighQoSSendingPackets.Keys;
      assert mHighQoSSendingPackets - left == map[];
      NothingStored();
      while left != {}
        invariant left <= mHighQoSSendingPackets.Keys
        invariant ResumeList(mHighQoSSendingPackets - left, l)
        decreases left
      {
        var id :| id in left;
        l := InsertPacket(mHighQoSSendingPackets - left, l, id, mHighQoSSendingPackets[id]);
        OneMore(mHighQoSSendingPackets, left, id);
        left := left - {id};
      }
      assert mHighQoSSendingPackets - {} == mHighQoSSendingPackets;
    }

    /** Sends again what a resumed session owes the client. */
    method Resume(client: MQTTClientConnection)
      modifies client
      ensures exists l :: ResumeList(mHighQoSSendingPackets, l)
                          && client.sent == old(client.sent) + l + ResentRels(mQos2pubrecReceived)
    {
      var orderedPackets := OrderedPackets();
      var n := 0;
      while n < |orderedPackets|
        invariant 0 <= n <= |orderedPackets|
        invariant client.sent == old(client.sent) + orderedPackets[..n]
      {
        client.SendData(orderedPackets[n]);
        n := n + 1;
      }
      assert orderedPackets[..n] == orderedPackets;
      ghost var before := client.sent;
      var i := 0;
      AtMostAllIds(mQos2pubrecReceived);
      while i < |mQos2pubrecReceived|
        invariant 0 <= i <= |mQos2pubrecReceived|
        invariant client.sent == before + Rels(mQos2pubrecReceived, 0, i)
      {
        if i in mQos2pubrecReceived {
          client.SendData(PubRel(i));
        }
        i := i + 1;
      }
    }
  }

  lemma NothingStored()
    ensures ResumeList(map[], [])
  {
  }

  lemma OneMore(sending: map<Id, Stored>, left: set<Id>, id: Id)
    requires id in left && id in sending
    ensures (sending - left)[id := sending[id]] == sending - (left - {id})
  {
  }

  /** Inserts the packet stored under id after those of the same or an earlier order. */
  method InsertPacket(sending: map<Id, Stored>, l: seq<Packet>, id: Id, p: Stored) returns (l': seq<Packet>)
    requires ResumeList(sending, l) && id !in sending
    ensures ResumeList(sending[id := p], l')
  {
    var i := |l|;
    while i > 0 && (assert Resent(sending, l[i - 1]); sending[l[i - 1].id].order > p.order)
      invariant 0 <= i <= |l|
      invariant forall j :: i <= j < |l| ==> Resent(sending, l[j]) && sending[l[j].id].order > p.order
    {
      i := i - 1;
    }
    l' := l[..i] + [Packet.Publish(id, p.message, p.qos, true)] + l[i..];
    Inserted(sending, l, id, p, i, l');
  }

  lemma Inserted(sending: map<Id, Stored>, l: seq<Packet>, id: Id, p: Stored, i: nat, l': seq<Packet>)
    requires ResumeList(sending, l) && id !in sending && i <= |l|
    requires i > 0 ==> Resent(sending, l[i - 1]) && sending[l[i - 1].id].order <= p.order
    requires forall j :: i <= j < |l| ==> Resent(sending, l[j]) && sending[l[j].id].order > p.order
    requires l' == l[..i] + [Packet.Publish(id, p.message, p.qos, true)] + l[i..]
    ensures ResumeList(sending[id := p], l')
  {
    var more := sending[id := p];
    assert OnlyStored(more, l') by {
      forall j | 0 <= j < |l'| ensures Resent(more, l'[j]) {
        if j != i { assert Resent(sending, l[if j < i then j else j - 1]); }
      }
    }
    assert AllStored(more, l') by {
      forall x | x in more ensures exists j :: 0 <= j < |l'| && l'[j].id == x {
        if x == id {
          assert l'[i].id == x;
        } else {
          var j :| 0 <= j < |l| && l[j].id == x;
          assert l'[if j < i then j else j + 1].id == x;
        }
      }
    }
    InsertedInOrder(sending, l, id, p, i, l');
  }

  lemma InsertedInOrder(sending: map<Id, Stored>, l: seq<Packet>, id: Id, p: Stored, i: nat, l': seq<Packet>)
    requires OnlyStored(sending, l) && InOrder(sending, l) && id !in sending && i <= |l|
    requires i > 0 ==> Resent(sending, l[i - 1]) && sending[l[i - 1].id].order <= p.order
    requires forall j :: i <= j < |l| ==> Resent(sending, l[j]) && sending[l[j].id].order > p.order
    requires l' == l[..i] + [Packet.Publish(id, p.message, p.qos, true)] + l[i..]
    ensures InOrder(sending[id := p], l')
  {
    hide InOrder;
    var more := sending[id := p];
    var at := (j: int) requires 0 <= j < |l'| && j != i => if j < i then j else j - 1;
    forall a, b | 0 <= a < b < |l'| ensures l'[a].id != l'[b].id && Order(more, l'[a]) <= Order(more, l'[b]) {
      if a == i {
        assert Resent(sending, l[b - 1]);
      } else if b == i {
        assert Resent(sending, l[a]);
        if a < i - 1 { OrderAt(sending, l, a, i - 1); }
      } else {
        assert Resent(sending, l[at(a)]) && Resent(sending, l[at(b)]);
        OrderAt(sending, l, at(a), at(b));
      }
    }
    OrderAll(more, l');
  }

  lemma OrderAt(sending: map<Id, Stored>, l: seq<Packet>, i: nat, j: nat)
    requires InOrder(sending, l) && i < j < |l|
    ensures l[i].id != l[j].id && Order(sending, l[i]) <= Order(sending, l[j])
  {
  }

  lemma OrderAll(sending: map<Id, Stored>, l: seq<Packet>)
    requires forall i, j :: 0 <= i < j < |l| ==> l[i].id != l[j].id && Order(sending, l[i]) <= Order(sending, l[j])
    ensures InOrder(sending, l)
  {
  }
}
