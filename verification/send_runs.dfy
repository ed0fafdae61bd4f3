/** Sending over whole runs: what the socket took, followed by what is left, is everything handed over, in order. */
module SendRuns {
  import opened SendQueue

  /** How many packets one call offers at most. */
  function Batch(n: nat): nat {
    if n < UIO_MAXIOV / 4 then n else UIO_MAXIOV / 4
  }

  /** As many packets as have room in one call's vectors, four for each. */
  lemma BatchFits(n: nat)
    ensures Batch(n) <= n && 4 * Batch(n) <= 1024 && (Batch(n) < n ==> 4 * (Batch(n) + 1) > 1024)
  {
  }

  predicate Fits(ts: seq<InTransitEncodedPacket>, r: SendResult) {
    r.Taken? ==> 1 <= r.n <= |Unsent(ts[..Batch(|ts|)])|
  }

  lemma SplitUnsent(ts: seq<InTransitEncodedPacket>, k: nat)
    requires k <= |ts|
    ensures Unsent(ts) == Unsent(ts[..k]) + Unsent(ts[k..])
  {
    assert ts == ts[..k] + ts[k..];
    UnsentCat(ts[..k], ts[k..]);
  }

  /** The vectors of the first i packets. */
  method GatherVectors(packets: seq<InTransitEncodedPacket>, vecs: array<seq<byte>>, beyond: byte) returns (n: nat)
    requires Queue(packets) && vecs.Length == 4 * |packets| && forall j :: 0 <= j < vecs.Length ==> vecs[j] == []
    modifies vecs
    ensures n <= vecs.Length && Flat(vecs[..n]) == Offered(packets, beyond)
  {
    hide Flat, Offered, OnWire;
    n := 0;
    var i := 0;
    NoVectors(packets, beyond);
    assert vecs[..0] == [];
    while i < |packets|
      invariant 0 <= i <= |packets| && n <= 4 * i
      invariant forall j :: n <= j < vecs.Length ==> vecs[j] == []
      invariant Flat(vecs[..n]) == Offered(packets[..i], beyond)
    {
      ghost var before := vecs[..n];
      var k := ConstructIOVecs(packets[i].packet, packets[i].offset, vecs, n, beyond);
      assert vecs[..n + k] == before + vecs[n..n + k];
      FlatCat(before, vecs[n..n + k]);
      OfferedSnoc(packets[..i], packets[i], beyond);
      assert packets[..i + 1] == packets[..i] + [packets[i]];
      assert InTransit(packets[i].packet, packets[i].offset) == packets[i];
      n := n + k;
      i := i + 1;
    }
    assert packets[..i] == packets;
  }

  lemma NoVectors(ts: seq<InTransitEncodedPacket>, beyond: byte)
    ensures Flat([]) == [] && Offered(ts[..0], beyond) == []
  {
  }

  /** The first i packets are finished, and `result` of the n bytes are still to be spread over the others. */
  ghost predicate Spreading(packets: seq<InTransitEncodedPacket>, out: seq<InTransitEncodedPacket>, i: nat, count: nat,
                            n: nat, result: nat) {
    && i <= count <= |packets| == |out| && out[i..] == packets[i..]
    && result <= |Unsent(packets[i..count])| && Advanced(packets, n) == out[..i] + Advanced(packets[i..], result)
  }

  lemma SpreadStart(packets: seq<InTransitEncodedPacket>, count: nat, n: nat)
    requires count <= |packets| && n <= |Unsent(packets[..count])|
    ensures Spreading(packets, packets, 0, count, n, n)
  {
    hide Unsent, Advanced;
    assert packets[0..] == packets && packets[0..count] == packets[..count];
    assert packets[..0] + Advanced(packets, n) == Advanced(packets, n);
  }

  lemma AdvancedHead(t: InTransitEncodedPacket, ts: seq<InTransitEncodedPacket>, n: nat)
    requires !t.IsDone()
    ensures var rem := FullSize(t.packet) - t.offset;
            Advanced([t] + ts, n) == if rem <= n then [t.(offset := FullSize(t.packet))] + Advanced(ts, n - rem)
                                     else [t.(offset := t.offset + n)] + ts
  {
    assert ([t] + ts)[1..] == ts;
    assert |Rest(t)| == FullSize(t.packet) - t.offset;
  }

  lemma SpreadBytes(t: InTransitEncodedPacket, ts: seq<InTransitEncodedPacket>, n: nat)
    requires !t.IsDone() && n <= |Unsent([t] + ts)| && FullSize(t.packet) - t.offset <= n
    ensures n - (FullSize(t.packet) - t.offset) <= |Unsent(ts)|
  {
    UnsentHead(t, ts);
    assert |Rest(t)| == FullSize(t.packet) - t.offset;
  }

  lemma SpreadNext(packets: seq<InTransitEncodedPacket>, out: seq<InTransitEncodedPacket>, i: nat, count: nat, n: nat,
                   result: nat)
    requires Spreading(packets, out, i, count, n, result) && i < count && !out[i].IsDone()
    requires FullSize(out[i].packet) - out[i].offset <= result
    ensures Spreading(packets, out[i := out[i].(offset := FullSize(out[i].packet))], i + 1, count, n,
                      result - (FullSize(out[i].packet) - out[i].offset))
  {
    hide Unsent, Advanced;
    var t, done := out[i], out[i].(offset := FullSize(out[i].packet));
    assert out[i..][0] == packets[i..][0];
    assert packets[i..] == [t] + packets[i + 1..] && packets[i..count] == [t] + packets[i + 1..count];
    AdvancedHead(t, packets[i + 1..], result);
    SpreadBytes(t, packets[i + 1..count], result);
    var u := out[i := done];
    assert u[..i + 1] == out[..i] + [done] && u[i + 1..] == out[i..][1..] == packets[i + 1..];
    SpreadDone(out[..i], done, Advanced(packets[i + 1..], result - (FullSize(t.packet) - t.offset)));
  }

  lemma SpreadDone(a: seq<InTransitEncodedPacket>, x: InTransitEncodedPacket, b: seq<InTransitEncodedPacket>)
    ensures a + ([x] + b) == (a + [x]) + b
  {
  }

  lemma SpreadStop(packets: seq<InTransitEncodedPacket>, out: seq<InTransitEncodedPacket>, i: nat, count: nat, n: nat,
                   result: nat)
    requires Spreading(packets, out, i, count, n, result) && i < count && !out[i].IsDone()
    requires FullSize(out[i].packet) - out[i].offset > result
    ensures out[i := out[i].(offset := out[i].offset + result)] == Advanced(packets, n)
  {
    hide Unsent, Advanced;
    var t, rest := out[i], packets[i + 1..];
    FromIndex(packets, i);
    assert out[i..][0] == packets[i..][0];
    AdvancedHead(t, rest, result);
    Replaced(out, i, t.(offset := t.offset + result), rest);
  }

  lemma FromIndex(packets: seq<InTransitEncodedPacket>, i: nat)
    requires i < |packets|
    ensures packets[i..] == [packets[i]] + packets[i + 1..]
  {
  }

  lemma Replaced(out: seq<InTransitEncodedPacket>, i: nat, x: InTransitEncodedPacket, rest: seq<InTransitEncodedPacket>)
    requires i < |out| && out[i..] == [out[i]] + rest
    ensures out[i := x] == out[..i] + ([x] + rest)
  {
    assert forall k :: i < k < |out| ==> out[k] == out[i..][k - i];
  }

  lemma SpreadEnd(packets: seq<InTransitEncodedPacket>, out: seq<InTransitEncodedPacket>, count: nat, n: nat,
                  result: nat)
    requires Spreading(packets, out, count, count, n, result) && Queue(packets)
    ensures out == Advanced(packets, n)
  {
    hide Advanced;
    assert packets[count..count] == [];
    AdvancedZero(packets[count..]);
    assert out == out[..count] + out[count..];
  }

  lemma NotDone(packets: seq<InTransitEncodedPacket>, out: seq<InTransitEncodedPacket>, i: nat, count: nat, n: nat,
                result: nat)
    requires Spreading(packets, out, i, count, n, result) && i < count && Queue(packets)
    ensures i < |out| == |packets| && !out[i].IsDone()
  {
    assert out[i..][0] == packets[i..][0];
  }

  /** Spreads the number of bytes taken over the packets offered. */
  method Spread(packets: seq<InTransitEncodedPacket>, count: nat, n: nat) returns (out: seq<InTransitEncodedPacket>)
    requires Queue(packets) && count <= |packets| && n <= |Unsent(packets[..count])|
    ensures out == Advanced(packets, n)
  {
    hide Unsent, Advanced, Spreading, Queue;
    out := packets;
    var i: nat, result: nat := 0, n;
    SpreadStart(packets, count, n);
    while i < count
      invariant 0 <= i <= count && Spreading(packets, out, i, count, n, result)
    {
      NotDone(packets, out, i, count, n, result);
      var remaining := FullSize(out[i].packet) - out[i].offset;
      if remaining <= result {
        SpreadNext(packets, out, i, count, n, result);
        out := out[i := out[i].(offset := FullSize(out[i].packet))];
        result := result - remaining;
      } else {
        SpreadStop(packets, out, i, count, n, result);
        out := out[i := out[i].(offset := out[i].offset + result)];
        return;
      }
      i := i + 1;
    }
    SpreadEnd(packets, out, count, n, result);
  }

  method SendScatter(packets: seq<InTransitEncodedPacket>, r: SendResult, beyond: byte)
    returns (ok: bool, out: seq<InTransitEncodedPacket>, taken: seq<byte>)
    requires packets != [] && Queue(packets) && Fits(packets, r)
    ensures ok <==> !r.Failed?
    ensures !r.Taken? ==> out == packets && taken == []
    ensures r.Taken? ==> (out == Advanced(packets, r.n) && r.n <= |Offered(packets[..Batch(|packets|)], beyond)|
                          && taken == Offered(packets[..Batch(|packets|)], beyond)[..r.n])
  {
    hide Unsent, Offered, Advanced, Flat;
    var count := if |packets| < UIO_MAXIOV / 4 then |packets| else UIO_MAXIOV / 4;
    var vecs := new seq<byte>[4 * count](_ => []);
    var vecsOffset := GatherVectors(packets[..count], vecs, beyond);
    OfferedIs(packets[..count], beyond);
    match r
    case Failed => return false, packets, [];
    case WouldBlock => return true, packets, [];
    case Taken(n) =>
      taken := Flat(vecs[..vecsOffset])[..n];
      out := Spread(packets, count, n);
      ok := true;
  }

  // Runs

  /** A connection: its queue, what its socket took, whether it failed, and all packets handed to it. */
  datatype Link = Link(tasks: seq<InTransitEncodedPacket>, wire: seq<byte>, failed: bool, handed: seq<EncodedPacket>)

  function AllBytes(ps: seq<EncodedPacket>): seq<byte> {
    if ps == [] then [] else AllBytes(ps[..|ps| - 1]) + Bytes(ps[|ps| - 1])
  }

  function Sent(ts: seq<InTransitEncodedPacket>, r: SendResult): seq<InTransitEncodedPacket> {
    if r.Taken? then Advanced(ts, r.n) else ts
  }

  function OnTheWire(ts: seq<InTransitEncodedPacket>, r: SendResult, beyond: byte): seq<byte>
    requires Queue(ts) && Fits(ts, r)
  {
    var q := ts[..Batch(|ts|)];
    OfferedIs(q, beyond);
    if r.Taken? then Offered(q, beyond)[..r.n] else []
  }

  /** A packet is tried at once when nothing is queued; if the socket fails, it is dropped and the connection marked. */
  function AfterSend(l: Link, p: EncodedPacket, r: SendResult, beyond: byte): Link
    requires FullSize(p) > 0 && Fits([InTransit(p, 0)], r)
  {
    var t := InTransit(p, 0);
    if l.tasks != [] then l.(tasks := l.tasks + [t], handed := l.handed + [p])
    else if r.Failed? then l.(failed := true)
    else l.(tasks := Pending(Sent([t], r)), wire := l.wire + OnTheWire([t], r, beyond), handed := l.handed + [p])
  }

  /** The socket takes more of the queue; if it fails, the caller asks for the connection to be logged out. */
  function AfterDrain(l: Link, r: SendResult, beyond: byte): Link
    requires Queue(l.tasks) && Fits(l.tasks, r)
  {
    if l.tasks == [] || r.Failed? then l
    else l.(tasks := Pending(Sent(l.tasks, r)), wire := l.wire + OnTheWire(l.tasks, r, beyond))
  }

  ghost predicate Conserved(l: Link) {
    l.wire + Unsent(l.tasks) == AllBytes(l.handed)
  }

  lemma AllSnoc(ps: seq<EncodedPacket>, p: EncodedPacket)
    ensures AllBytes(ps + [p]) == AllBytes(ps) + Bytes(p)
  {
    assert (ps + [p])[..|ps|] == ps;
  }

  lemma FreshPacket(p: EncodedPacket)
    requires FullSize(p) > 0
    ensures Queue([InTransit(p, 0)]) && !HeadSplit([InTransit(p, 0)]) && Unsent([InTransit(p, 0)]) == Bytes(p)
  {
    var t := InTransit(p, 0);
    UnsentHead(t, []);
    assert [t] + [] == [t];
    assert Bytes(p) + [] == Bytes(p);
  }

  /** What one call takes, followed by what is then left, is what was left, exactly when no identifier was split. */
  lemma OneCall(ts: seq<InTransitEncodedPacket>, r: SendResult, beyond: byte)
    requires Queue(ts) && Fits(ts, r)
    ensures Queue(Pending(Sent(ts, r)))
    ensures (OnTheWire(ts, r, beyond) + Unsent(Pending(Sent(ts, r))) == Unsent(ts))
       <==> !(r.Taken? && HeadSplit(ts) && beyond != ts[0].packet.id.1)
  {
    hide Unsent, Offered, Advanced, Pending;
    PendingUnsent(Sent(ts, r));
    PendingQueue(ts, if r.Taken? then r.n else 0);
    AdvancedZero(ts);
    if r.Taken? {
      var k := Batch(|ts|);
      var q := ts[..k];
      SplitUnsent(ts, k);
      OfferedIs(q, beyond);
      AdvancedUnsent(ts, r.n);
      SamePrefix(Offered(q, beyond), Unsent(q), Unsent(ts[k..]), r.n, HeadSplit(ts) && beyond != ts[0].packet.id.1);
    } else {
      assert [] + Unsent(ts) == Unsent(ts);
    }
  }

  /** o agrees with u, but perhaps in its first byte. */
  lemma SamePrefix(o: seq<byte>, u: seq<byte>, rest: seq<byte>, n: nat, differ: bool)
    requires |o| == |u| && 1 <= n <= |u| && forall k :: 0 < k < |u| ==> o[k] == u[k]
    requires differ <==> o[0] != u[0]
    ensures (o[..n] + (u + rest)[n..] == u + rest) <==> !differ
  {
    var x, y := o[..n] + (u + rest)[n..], u + rest;
    if !differ {
      assert x == y;
    } else {
      assert x[0] != y[0];
    }
  }

  /**
   * A drain keeps the bytes in order, unless it continues a packet inside its identifier and memory happens to differ.
   */
  lemma DrainConserves(l: Link, r: SendResult, beyond: byte)
    requires Queue(l.tasks) && Fits(l.tasks, r) && Conserved(l)
    ensures Queue(AfterDrain(l, r, beyond).tasks)
    ensures Conserved(AfterDrain(l, r, beyond))
            <==> !(r.Taken? && HeadSplit(l.tasks) && beyond != l.tasks[0].packet.id.1)
  {
    hide Unsent, Pending, AllBytes, Sent, OnTheWire;
    if l.tasks != [] && !r.Failed? {
      OneCall(l.tasks, r, beyond);
      var taken, left := OnTheWire(l.tasks, r, beyond), Unsent(Pending(Sent(l.tasks, r)));
      AssocEq(l.wire, taken, left, Unsent(l.tasks));
    }
  }

  lemma AssocEq(w: seq<byte>, a: seq<byte>, b: seq<byte>, u: seq<byte>)
    ensures ((w + a) + b == w + u) <==> (a + b == u)
  {
    Assoc(w, a, b);
    if w + (a + b) == w + u {
      assert (w + (a + b))[|w|..] == a + b && (w + u)[|w|..] == u;
    }
  }

  /** A send adds the packet's bytes behind those sent and unsent, unless the socket fails at once; then it adds none. */
  lemma SendConserves(l: Link, p: EncodedPacket, r: SendResult, beyond: byte)
    requires Queue(l.tasks) && FullSize(p) > 0 && Fits([InTransit(p, 0)], r)
    ensures var v, refused := AfterSend(l, p, r, beyond), l.tasks == [] && r.Failed?;
            && Queue(v.tasks)
            && v.wire + Unsent(v.tasks) == l.wire + Unsent(l.tasks) + (if refused then [] else Bytes(p))
            && v.handed == l.handed + (if refused then [] else [p]) && (v.failed <==> l.failed || refused)
            && (Conserved(l) ==> Conserved(v))
  {
    hide Unsent, Pending, AllBytes, Sent, OnTheWire;
    var t := InTransit(p, 0);
    FreshPacket(p);
    AllSnoc(l.handed, p);
    assert l.wire + Unsent(l.tasks) + [] == l.wire + Unsent(l.tasks) && l.handed + [] == l.handed;
    if l.tasks != [] {
      UnsentCat(l.tasks, [t]);
      Assoc(l.wire, Unsent(l.tasks), Bytes(p));
    } else if !r.Failed? {
      OneCall([t], r, beyond);
      NothingUnsent();
      assert l.wire + [] == l.wire;
      var taken, left := OnTheWire([t], r, beyond), Unsent(Pending(Sent([t], r)));
      Assoc(l.wire, taken, left);
    }
  }

  lemma NothingUnsent()
    ensures Unsent([]) == []
  {
  }

  lemma NothingLeft(l: Link)
    requires Conserved(l) && l.tasks == []
    ensures l.wire == AllBytes(l.handed)
  {
    assert l.wire + [] == l.wire;
  }

  datatype Event = Send(p: EncodedPacket, r: SendResult, beyond: byte) | Writable(r: SendResult, beyond: byte)

  ghost predicate Enabled(l: Link, e: Event) {
    match e
    case Send(p, r, _) => FullSize(p) > 0 && Fits([InTransit(p, 0)], r)
    case Writable(r, _) => Queue(l.tasks) && Fits(l.tasks, r)
  }

  ghost function Apply(l: Link, e: Event): Link
    requires Enabled(l, e)
  {
    match e
    case Send(p, r, beyond) => AfterSend(l, p, r, beyond)
    case Writable(r, beyond) => AfterDrain(l, r, beyond)
  }

  ghost predicate Run(ls: seq<Link>, es: seq<Event>) {
    && |ls| == |es| + 1 && ls[0] == Link([], [], false, [])
    && forall i :: 0 <= i < |es| ==> Enabled(ls[i], es[i]) && ls[i + 1] == Apply(ls[i], es[i])
  }

  /** The step continues a packet inside its identifier, and the byte behind the identifier is not its second one. */
  predicate Corrupts(l: Link, e: Event) {
    e.Writable? && e.r.Taken? && HeadSplit(l.tasks) && e.beyond != l.tasks[0].packet.id.1
  }

  /** Whatever bytes were sent, what is left is what lies behind as many bytes of all packets. */
  ghost predicate Placed(l: Link) {
    |l.wire| <= |AllBytes(l.handed)| && Unsent(l.tasks) == AllBytes(l.handed)[|l.wire|..]
  }

  lemma CallPlaces(ts: seq<InTransitEncodedPacket>, r: SendResult, beyond: byte)
    requires Queue(ts) && Fits(ts, r)
    ensures var n := |OnTheWire(ts, r, beyond)|; n <= |Unsent(ts)| && Unsent(Pending(Sent(ts, r))) == Unsent(ts)[n..]
  {
    hide Unsent, Offered, Advanced, Pending;
    PendingUnsent(Sent(ts, r));
    if r.Taken? {
      var q := ts[..Batch(|ts|)];
      SplitUnsent(ts, Batch(|ts|));
      OfferedIs(q, beyond);
      AdvancedUnsent(ts, r.n);
    }
  }

  /** Sending n more bytes t, where `all` was still to be sent from |w| on. */
  lemma MoreSent(all: seq<byte>, w: seq<byte>, u: seq<byte>, t: seq<byte>)
    requires |w| <= |all| && u == all[|w|..] && |t| <= |u|
    ensures |w + t| <= |all| && u[|t|..] == all[|w + t|..]
    ensures (w + t) + u[|t|..] == all <==> w + u == all && t + u[|t|..] == u
  {
    if (w + t) + u[|t|..] == all {
      assert all[|w|..] == ((w + t) + u[|t|..])[|w|..] == t + u[|t|..];
      assert all[..|w|] == ((w + t) + u[|t|..])[..|w|] == w;
      assert all[..|w|] + all[|w|..] == all;
    }
    if w + u == all && t + u[|t|..] == u { Assoc(w, t, u[|t|..]); }
  }

  /** One call on the queue of l. */
  lemma CallIff(l: Link, r: SendResult, beyond: byte)
    requires Queue(l.tasks) && Fits(l.tasks, r) && Placed(l)
    ensures var v := l.(tasks := Pending(Sent(l.tasks, r)), wire := l.wire + OnTheWire(l.tasks, r, beyond));
            && Queue(v.tasks) && Placed(v)
            && (Conserved(v) <==> Conserved(l) && !(r.Taken? && HeadSplit(l.tasks) && beyond != l.tasks[0].packet.id.1))
  {
    hide Unsent, Pending, AllBytes, Sent, OnTheWire, Fits, Queue;
    OneCall(l.tasks, r, beyond);
    CallPlaces(l.tasks, r, beyond);
    MoreSent(AllBytes(l.handed), l.wire, Unsent(l.tasks), OnTheWire(l.tasks, r, beyond));
  }

  lemma DrainIff(l: Link, r: SendResult, beyond: byte)
    requires Queue(l.tasks) && Fits(l.tasks, r) && Placed(l)
    ensures var v := AfterDrain(l, r, beyond);
            Queue(v.tasks) && Placed(v) && (Conserved(v) <==> Conserved(l) && !Corrupts(l, Writable(r, beyond)))
  {
    hide Unsent, Pending, AllBytes, Sent, OnTheWire, Conserved, Placed;
    if l.tasks != [] && !r.Failed? { CallIff(l, r, beyond); }
  }

  /** A packet more at the end of the queue. */
  lemma QueuedIff(l: Link, p: EncodedPacket)
    requires Queue(l.tasks) && FullSize(p) > 0 && Placed(l)
    ensures var v := l.(tasks := l.tasks + [InTransit(p, 0)], handed := l.handed + [p]);
            Queue(v.tasks) && Placed(v) && (Conserved(v) <==> Conserved(l))
  {
    hide Unsent, AllBytes;
    FreshPacket(p);
    AllSnoc(l.handed, p);
    UnsentCat(l.tasks, [InTransit(p, 0)]);
    LongerAll(AllBytes(l.handed), l.wire, Unsent(l.tasks), Bytes(p));
  }

  lemma LongerAll(all: seq<byte>, w: seq<byte>, u: seq<byte>, b: seq<byte>)
    requires |w| <= |all| && u == all[|w|..]
    ensures u + b == (all + b)[|w|..] && (w + (u + b) == all + b <==> w + u == all)
  {
    Assoc(w, u, b);
    if (w + u) + b == all + b {
      assert ((w + u) + b)[..|all|] == w + u && (all + b)[..|all|] == all;
    }
  }

  lemma SendIff(l: Link, p: EncodedPacket, r: SendResult, beyond: byte)
    requires Queue(l.tasks) && FullSize(p) > 0 && Fits([InTransit(p, 0)], r) && Placed(l)
    ensures var v := AfterSend(l, p, r, beyond); Queue(v.tasks) && Placed(v) && (Conserved(v) <==> Conserved(l))
  {
    hide Unsent, Pending, AllBytes, Sent, OnTheWire, Queue, Fits;
    if l.tasks != [] || !r.Failed? { QueuedIff(l, p); }
    if l.tasks == [] && !r.Failed? {
      FreshPacket(p);
      assert l.tasks + [InTransit(p, 0)] == [InTransit(p, 0)];
      CallIff(l.(tasks := [InTransit(p, 0)], handed := l.handed + [p]), r, beyond);
    }
  }

  lemma {:induction false} RunPlaces(ls: seq<Link>, es: seq<Event>, i: nat)
    requires Run(ls, es) && i <= |es|
    ensures Conserved(ls[i]) <==> forall k :: 0 <= k < i ==> !Corrupts(ls[k], es[k])
    ensures Placed(ls[i]) && Queue(ls[i].tasks)
  {
    hide Conserved, Queue, Placed, Corrupts;
    if i == 0 {
      StartConserved();
    } else {
      RunPlaces(ls, es, i - 1);
      StepIff(ls[i - 1], es[i - 1]);
      assert ls[i - 1 + 1] == Apply(ls[i - 1], es[i - 1]);
    }
  }

  // What was asked for, told from the events

  /** A packet is given while nothing is queued, and the socket fails. */
  predicate Refuses(l: Link, e: Event) {
    e.Send? && l.tasks == [] && e.r.Failed?
  }

  /** The packets given in the first i events, without those for which the socket failed at once. */
  function Accepted(ls: seq<Link>, es: seq<Event>, i: nat): seq<EncodedPacket>
    requires i <= |es| && i <= |ls|
  {
    if i == 0 then [] else
    Accepted(ls, es, i - 1) + if es[i - 1].Send? && !Refuses(ls[i - 1], es[i - 1]) then [es[i - 1].p] else []
  }

  /** All packets given. */
  function Given(es: seq<Event>): seq<EncodedPacket> {
    if es == [] then [] else
    Given(es[..|es| - 1]) + if es[|es| - 1].Send? then [es[|es| - 1].p] else []
  }

  /**
   * How many bytes the socket said it took: it is asked for a packet given to an empty queue, and when it is writable.
   */
  function Took(ls: seq<Link>, es: seq<Event>, i: nat): nat
    requires i <= |es| && i <= |ls|
  {
    if i == 0 then 0 else
    Took(ls, es, i - 1)
    + if es[i - 1].r.Taken? && (es[i - 1].Send? <==> ls[i - 1].tasks == []) then es[i - 1].r.n else 0
  }

  /** A packet enters the history exactly if it was given and not refused, and only a refusal marks the connection. */
  lemma {:induction false} HandedOverRuns(ls: seq<Link>, es: seq<Event>, i: nat)
    requires Run(ls, es) && i <= |es|
    ensures ls[i].handed == Accepted(ls, es, i)
    ensures ls[i].failed <==> exists k :: 0 <= k < i && Refuses(ls[k], es[k])
    ensures !ls[i].failed ==> Accepted(ls, es, i) == Given(es[..i])
  {
    hide Enabled, Apply, Refuses;
    if i > 0 {
      HandedOverRuns(ls, es, i - 1);
      assert ls[i - 1 + 1] == Apply(ls[i - 1], es[i - 1]);
      HandedStep(ls[i - 1], es[i - 1]);
      assert es[..i][..i - 1] == es[..i - 1] && es[..i][i - 1] == es[i - 1];
    }
  }

  lemma HandedStep(l: Link, e: Event)
    requires Enabled(l, e)
    ensures Apply(l, e).handed == l.handed + if e.Send? && !Refuses(l, e) then [e.p] else []
    ensures Apply(l, e).failed <==> l.failed || Refuses(l, e)
    ensures Refuses(l, e) ==> e.Send?
  {
    hide Fits, Queue, Pending, Sent, OnTheWire;
    assert l.handed + [] == l.handed;
  }

  lemma {:induction false} TookOverRuns(ls: seq<Link>, es: seq<Event>, i: nat)
    requires Run(ls, es) && i <= |es|
    ensures |ls[i].wire| == Took(ls, es, i)
  {
    hide Queue, Pending, Sent, Unsent, Offered;
    if i > 0 {
      TookOverRuns(ls, es, i - 1);
      assert ls[i - 1 + 1] == Apply(ls[i - 1], es[i - 1]);
      TookStep(ls[i - 1], es[i - 1]);
    }
  }

  lemma TookStep(l: Link, e: Event)
    requires Enabled(l, e)
    ensures |Apply(l, e).wire| == |l.wire| + if e.r.Taken? && (e.Send? <==> l.tasks == []) then e.r.n else 0
  {
    hide Pending, Sent, Unsent, Offered;
    if e.Send? {
      FreshPacket(e.p);
      if l.tasks == [] { CallTakes([InTransit(e.p, 0)], e.r, e.beyond); }
    } else if l.tasks != [] {
      CallTakes(l.tasks, e.r, e.beyond);
    }
  }

  lemma CallTakes(ts: seq<InTransitEncodedPacket>, r: SendResult, beyond: byte)
    requires Queue(ts) && Fits(ts, r)
    ensures |OnTheWire(ts, r, beyond)| == if r.Taken? then r.n else 0
  {
    hide Unsent, Offered;
    OfferedIs(ts[..Batch(|ts|)], beyond);
  }

  /**
   * Over every run: the socket got as many bytes as it said, what is unsent lies behind them, and those bytes and the
   * unsent ones are the packets given and not refused, in order, exactly if no step corrupts an identifier.
   */
  lemma RunConserves(ls: seq<Link>, es: seq<Event>, i: nat)
    requires Run(ls, es) && i <= |es|
    ensures var l, all := ls[i], AllBytes(Accepted(ls, es, i));
            && (l.wire + Unsent(l.tasks) == all <==> forall k :: 0 <= k < i ==> !Corrupts(ls[k], es[k]))
            && |l.wire| == Took(ls, es, i) <= |all| && Unsent(l.tasks) == all[|l.wire|..] && Queue(l.tasks)
  {
    hide Unsent, AllBytes, Queue, Corrupts;
    RunPlaces(ls, es, i);
    HandedOverRuns(ls, es, i);
    TookOverRuns(ls, es, i);
  }

  /** On a connection that never failed nothing given is missing: what is sent and unsent is all packets, in order. */
  lemma NothingMissing(ls: seq<Link>, es: seq<Event>, i: nat)
    requires Run(ls, es) && i <= |es|
    requires forall k :: 0 <= k < i ==> !Refuses(ls[k], es[k]) && !Corrupts(ls[k], es[k])
    ensures ls[i].wire + Unsent(ls[i].tasks) == AllBytes(Given(es[..i]))
    ensures ls[i].tasks == [] ==> ls[i].wire == AllBytes(Given(es[..i]))
  {
    hide AllBytes, Corrupts, Refuses;
    RunConserves(ls, es, i);
    HandedOverRuns(ls, es, i);
    assert ls[i].wire + [] == ls[i].wire;
  }

  lemma StepIff(l: Link, e: Event)
    requires Enabled(l, e) && Queue(l.tasks) && Placed(l)
    ensures var v := Apply(l, e); Queue(v.tasks) && Placed(v) && (Conserved(v) <==> Conserved(l) && !Corrupts(l, e))
  {
    hide Conserved, Queue, Placed;
    match e
    case Send(p, r, beyond) => SendIff(l, p, r, beyond);
    case Writable(r, beyond) => DrainIff(l, r, beyond);
  }

  /** A run that sends a wrong byte: the socket first takes all but the last byte of an identifier. */
  lemma SplitRun() returns (ls: seq<Link>, es: seq<Event>)
    ensures Run(ls, es) && |es| == 2 && Corrupts(ls[1], es[1])
    ensures !Conserved(ls[2]) && ls[2].tasks == [] && ls[2].wire == [0x32, 0, 0, 9]
            && AllBytes(ls[2].handed) == [0x32, 0, 0, 2]
  {
    hide Conserved, Fits, AfterSend, AfterDrain;
    var p := Full([0x32], [0], (0, 2), []);
    es := [Send(p, Taken(3), 0), Writable(Taken(1), 9)];
    var l1 := SplitSend(p);
    var l2 := SplitDrain(p, l1);
    ls := [Link([], [], false, []), l1, l2];
    RunPlaces(ls, es, 2);
  }

  lemma SplitSend(p: EncodedPacket) returns (l1: Link)
    requires p == Full([0x32], [0], (0, 2), [])
    ensures Fits([InTransit(p, 0)], Taken(3)) && l1 == AfterSend(Link([], [], false, []), p, Taken(3), 0)
    ensures l1 == Link([InTransit(p, 3)], [0x32, 0, 0], false, [p])
  {
    OnePacket(p, 0);
    l1 := AfterSend(Link([], [], false, []), p, Taken(3), 0);
    assert Bytes(p) == [0x32, 0, 0, 2];
    assert [0x32, 0, 0, 2][..3] == [0x32, 0, 0];
  }

  lemma SplitDrain(p: EncodedPacket, l1: Link) returns (l2: Link)
    requires p == Full([0x32], [0], (0, 2), []) && l1 == Link([InTransit(p, 3)], [0x32, 0, 0], false, [p])
    ensures Queue(l1.tasks) && Fits(l1.tasks, Taken(1)) && l2 == AfterDrain(l1, Taken(1), 9)
    ensures l2 == Link([], [0x32, 0, 0, 9], false, [p]) && HeadSplit(l1.tasks) && AllBytes(l2.handed) == [0x32, 0, 0, 2]
  {
    OnePacket(p, 3);
    var t := InTransit(p, 3);
    AdvancedHead(t, [], 1);
    PendingOne(t.(offset := 4));
    assert [t] + [] == [t] && Advanced([], 0) == [];
    assert Offered([t], 9)[..1] == [9];
    l2 := AfterDrain(l1, Taken(1), 9);
  }

  /** A queue of one packet. */
  lemma OnePacket(p: EncodedPacket, o: nat)
    requires o < FullSize(p)
    ensures var ts := [InTransit(p, o)];
            && Queue(ts) && ts[..Batch(1)] == ts && Unsent(ts) == Rest(ts[0])
            && forall beyond :: Offered(ts, beyond) == OnWire(ts[0], beyond)
  {
    var t := InTransit(p, o);
    UnsentHead(t, []);
    assert [t] + [] == [t] && Rest(t) + [] == Rest(t);
    forall beyond: byte ensures Offered([t], beyond) == OnWire(t, beyond) {
      OfferedSnoc([], t, beyond);
      assert [] + OnWire(t, beyond) == OnWire(t, beyond);
    }
  }

  lemma StartConserved()
    ensures Conserved(Link([], [], false, [])) && Placed(Link([], [], false, [])) && Queue([])
  {
  }

  // The connection

  class MQTTClientConnection {
    var mSendTasks: seq<InTransitEncodedPacket>
    var mWire: seq<byte>
    var mSendError: bool
    ghost var handed: seq<EncodedPacket>

    ghost function Value(): Link
      reads this
    {
      Link(mSendTasks, mWire, mSendError, handed)
    }

    constructor ()
      ensures Value() == Link([], [], false, [])
    {
      mSendTasks, mWire, mSendError, handed := [], [], false, [];
    }

    method SendData(packet: EncodedPacket, r: SendResult, beyond: byte)
      requires FullSize(packet) > 0 && Queue(mSendTasks) && Fits([InTransit(packet, 0)], r)
      modifies this
      ensures Value() == AfterSend(old(Value()), packet, r, beyond) && Queue(mSendTasks)
      ensures mWire + Unsent(mSendTasks) == old(mWire + Unsent(mSendTasks))
              + (if old(mSendTasks) == [] && r.Failed? then [] else Bytes(packet))
      ensures mSendError <==> old(mSendError) || (old(mSendTasks) == [] && r.Failed?)
      ensures old(Conserved(Value())) ==> Conserved(Value())
    {
      hide Conserved, Pending, Advanced, Unsent, Offered, Fits, Queue;
      var t := InTransit(packet, 0);
      FreshPacket(packet);
      ghost var l := Value();
      SendConserves(l, packet, r, beyond);
      if mSendTasks == [] {
        var ok, out, taken := SendScatter([t], r, beyond);
        assert [t][..Batch(1)] == [t];
        if !ok {
          mSendError := true;
          return;
        }
        PendingOne(out[0]);
        assert out == [out[0]];
        mWire := mWire + taken;
        t := out[0];
      }
      if !t.IsDone() {
        mSendTasks := mSendTasks + [t];
      }
      handed := handed + [packet];
    }

    /** The socket is writable again: offers the queue and drops what was finished. */
    method Drain(r: SendResult, beyond: byte) returns (ok: bool)
      requires Queue(mSendTasks) && Fits(mSendTasks, r)
      modifies this
      ensures ok <==> old(mSendTasks) == [] || !r.Failed?
      ensures Queue(mSendTasks) && Value() == AfterDrain(old(Value()), r, beyond)
    {
      hide Advanced, Unsent, Offered, Fits, Pending, Queue;
      ok := true;
      if mSendTasks != [] {
        var out, taken;
        ok, out, taken := SendScatter(mSendTasks, r, beyond);
        if !ok {
          return;
        }
        OneCall(mSendTasks, r, beyond);
        mWire := mWire + taken;
        mSendTasks := DropDone(out);
      }
    }
  }

  method DropDone(out: seq<InTransitEncodedPacket>) returns (left: seq<InTransitEncodedPacket>)
    ensures left == Pending(out)
  {
    hide Pending;
    var donePackets := 0;
    assert out[0..] == out;
    while donePackets < |out| && out[donePackets].IsDone()
      invariant 0 <= donePackets <= |out| && Pending(out) == Pending(out[donePackets..])
    {
      PendingStep(out, donePackets);
      donePackets := donePackets + 1;
    }
    PendingStep(out, donePackets);
    left := out[donePackets..];
  }

  lemma PendingStep(out: seq<InTransitEncodedPacket>, k: nat)
    requires k <= |out|
    ensures Pending(out[k..]) == if k < |out| && out[k].IsDone() then Pending(out[k + 1..]) else out[k..]
  {
    if k < |out| {
      assert out[k..][0] == out[k] && out[k..][1..] == out[k + 1..];
    }
  }

  lemma PendingOne(t: InTransitEncodedPacket)
    ensures Pending([t]) == if t.IsDone() then [] else [t]
  {
    assert [t][1..] == [];
  }
}
