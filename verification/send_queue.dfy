/** A connection's queue of packets that the socket takes in pieces. */
module SendQueue {

  type byte = b: int | 0 <= b < 0x100

  /** The pieces a packet is kept in; the packet identifier is two bytes, in network order. */
  datatype EncodedPacket =
    | SingleByteWithLen(prelude: seq<byte>)
    | SingleByteWithLenAndMiddle(prelude: seq<byte>, middle: seq<byte>)
    | SingleByteWithLenAndMiddleAndEnd(prelude: seq<byte>, middle: seq<byte>, end: seq<byte>)
    | Full(prelude: seq<byte>, middle: seq<byte>, id: (byte, byte), end: seq<byte>)

  function Bytes(p: EncodedPacket): seq<byte> {
    match p
    case SingleByteWithLen(prelude) => prelude
    case SingleByteWithLenAndMiddle(prelude, middle) => prelude + middle
    case SingleByteWithLenAndMiddleAndEnd(prelude, middle, end) => prelude + middle + end
    case Full(prelude, middle, id, end) => prelude + middle + [id.0, id.1] + end
  }

  function FullSize(p: EncodedPacket): (n: nat)
    ensures n == |Bytes(p)|
  {
    match p
    case SingleByteWithLen(prelude) => |prelude|
    case SingleByteWithLenAndMiddle(prelude, middle) => |prelude| + |middle|
    case SingleByteWithLenAndMiddleAndEnd(prelude, middle, end) => |prelude| + |middle| + |end|
    case Full(prelude, middle, _, end) => |prelude| + |middle| + 2 + |end|
  }

  datatype InTransitEncodedPacket = InTransit(packet: EncodedPacket, offset: nat) {
    predicate IsDone() {
      offset >= FullSize(packet)
    }
  }

  function Rest(t: InTransitEncodedPacket): seq<byte> {
    if t.IsDone() then [] else Bytes(t.packet)[t.offset..]
  }

  /** The first byte of the packet identifier was sent and the second was not. */
  predicate SplitsId(t: InTransitEncodedPacket) {
    t.packet.Full? && t.offset == |t.packet.prelude| + |t.packet.middle| + 1
  }

  /**
   * What the I/O vectors of a packet hold.  When the identifier is split, the vector starts one 16-bit word further on,
   * at whatever byte follows the identifier in memory, instead of one byte further.
   */
  function OnWire(t: InTransitEncodedPacket, beyond: byte): seq<byte> {
    if SplitsId(t) then [beyond] + t.packet.end else Rest(t)
  }

  function Flat(vecs: seq<seq<byte>>): seq<byte> {
    if vecs == [] then [] else Flat(vecs[..|vecs| - 1]) + vecs[|vecs| - 1]
  }

  function VectorCount(p: EncodedPacket): nat {
    match p
    case SingleByteWithLen(_) => 1
    case SingleByteWithLenAndMiddle(_, _) => 2
    case SingleByteWithLenAndMiddleAndEnd(_, _, _) => 3
    case Full(_, _, _, _) => 4
  }

  lemma FlatSnoc(vecs: seq<seq<byte>>, v: seq<byte>)
    ensures Flat(vecs + [v]) == Flat(vecs) + v
  {
    assert (vecs + [v])[..|vecs|] == vecs;
  }

  lemma {:induction false} FlatCat(a: seq<seq<byte>>, b: seq<seq<byte>>)
    ensures Flat(a + b) == Flat(a) + Flat(b)
  {
    if b == [] {
      assert a + b == a;
    } else {
      var k := |b| - 1;
      FlatCat(a, b[..k]);
      FlatSnoc(a + b[..k], b[k]);
      assert a + b == (a + b[..k]) + [b[k]];
    }
  }

  lemma FlatFew(a: seq<byte>, b: seq<byte>, c: seq<byte>, d: seq<byte>)
    ensures Flat([a]) == a && Flat([a, b]) == a + b && Flat([a, b, c]) == a + b + c
            && Flat([a, b, c, d]) == a + b + c + d
  {
    FlatSnoc([], a); FlatSnoc([a], b); FlatSnoc([a, b], c); FlatSnoc([a, b, c], d);
    assert [] + [a] == [a] && [a] + [b] == [a, b] && [a, b] + [c] == [a, b, c] && [a, b, c] + [d] == [a, b, c, d];
    assert [] + a == a;
  }

  /** What is left of a piece that starts at `start` when the packet is sent up to o. */
  function Cut(s: seq<byte>, start: nat, o: nat): seq<byte> {
    if o <= start then s else if o <= start + |s| then s[o - start..] else []
  }

  /** The vectors of a packet sent up to o. */
  function Pieces(p: EncodedPacket, o: nat, beyond: byte): (v: seq<seq<byte>>)
    ensures |v| == VectorCount(p)
  {
    var m := |p.prelude|;
    match p
    case SingleByteWithLen(prelude) => [Cut(prelude, 0, o)]
    case SingleByteWithLenAndMiddle(prelude, middle) => [Cut(prelude, 0, o), Cut(middle, m, o)]
    case SingleByteWithLenAndMiddleAndEnd(prelude, middle, end) => [Cut(prelude, 0, o), Cut(middle, m, o),
                                                                    Cut(end, m + |middle|, o)]
    case Full(prelude, middle, id, end) =>
      [Cut(prelude, 0, o), Cut(middle, m, o),
       if o == m + |middle| + 1 then [beyond] else Cut([id.0, id.1], m + |middle|, o), Cut(end, m + |middle| + 2, o)]
  }

  lemma PiecesAre(p: EncodedPacket, o: nat, beyond: byte)
    requires o < FullSize(p)
    ensures Flat(Pieces(p, o, beyond)) == OnWire(InTransit(p, o), beyond)
  {
    hide Flat;
    match p
    case SingleByteWithLen(prelude) => FlatFew(prelude[o..], [], [], []);
    case SingleByteWithLenAndMiddle(prelude, middle) =>
      FlatFew(Cut(prelude, 0, o), Cut(middle, |prelude|, o), [], []);
      CutCat(prelude, middle, o);
    case SingleByteWithLenAndMiddleAndEnd(prelude, middle, end) =>
      FlatFew(Cut(prelude, 0, o), Cut(middle, |prelude|, o), Cut(end, |prelude + middle|, o), []);
      CutCat(prelude, middle, o);
      CutCat(prelude + middle, end, o);
    case Full(prelude, middle, id, end) => FullPieces(prelude, middle, id, end, o, beyond);
  }

  lemma FullPieces(prelude: seq<byte>, middle: seq<byte>, id: (byte, byte), end: seq<byte>, o: nat, beyond: byte)
    requires o < FullSize(Full(prelude, middle, id, end))
    ensures Flat(Pieces(Full(prelude, middle, id, end), o, beyond))
            == OnWire(InTransit(Full(prelude, middle, id, end), o), beyond)
  {
    hide Flat;
    var ids, at := [id.0, id.1], |prelude| + |middle|;
    CutCat(prelude, middle, o);
    if o == at + 1 {
      FlatFew([], [], [beyond], end);
      assert [] + [] + [beyond] + end == [beyond] + end;
    } else {
      FlatFew(Cut(prelude, 0, o), Cut(middle, |prelude|, o), Cut(ids, at, o), Cut(end, at + 2, o));
      CutCat(prelude + middle, ids, o);
      CutCat(prelude + middle + ids, end, o);
    }
  }

  lemma CutCat(a: seq<byte>, b: seq<byte>, o: nat)
    ensures Cut(a, 0, o) + Cut(b, |a|, o) == Cut(a + b, 0, o)
  {
  }

  /** Fills the vectors from index `at` on, which are still empty, with what is left of the packet. */
  method ConstructIOVecs(p: EncodedPacket, offset: nat, vecs: array<seq<byte>>, at: nat, beyond: byte) returns (n: nat)
    requires offset < FullSize(p) && at + 4 <= vecs.Length && forall j :: at <= j < vecs.Length ==> vecs[j] == []
    modifies vecs
    ensures n == VectorCount(p) && vecs[at..at + n] == Pieces(p, offset, beyond)
    ensures Flat(vecs[at..at + n]) == OnWire(InTransit(p, offset), beyond)
    ensures forall j :: 0 <= j < vecs.Length && !(at <= j < at + n) ==> vecs[j] == old(vecs[j])
  {
    hide Flat, OnWire;
    PiecesAre(p, offset, beyond);
    var m := |p.prelude|;
    match p
    case SingleByteWithLen(prelude) =>
      vecs[at] := prelude[offset..];
      n := 1;
    case SingleByteWithLenAndMiddle(prelude, middle) =>
      if offset < m {
        vecs[at] := prelude[offset..];
        vecs[at + 1] := middle;
      } else {
        vecs[at + 1] := middle[offset - m..];
      }
      n := 2;
    case SingleByteWithLenAndMiddleAndEnd(prelude, middle, end) =>
      ConstructThree(prelude, middle, end, offset, vecs, at, beyond);
      n := 3;
    case Full(prelude, middle, id, end) =>
      ConstructFour(prelude, middle, id, end, offset, vecs, at, beyond);
      n := 4;
  }

  method ConstructThree(prelude: seq<byte>, middle: seq<byte>, end: seq<byte>, offset: nat, vecs: array<seq<byte>>,
                        at: nat, beyond: byte)
    requires offset < |prelude| + |middle| + |end| && at + 4 <= vecs.Length && forall j :: at <= j < vecs.Length ==>
               vecs[j] == []
    modifies vecs
    ensures vecs[at..at + 3] == Pieces(SingleByteWithLenAndMiddleAndEnd(prelude, middle, end), offset, beyond)
    ensures forall j :: 0 <= j < vecs.Length && !(at <= j < at + 3) ==> vecs[j] == old(vecs[j])
  {
    var m := |prelude|;
    if offset < m {
      vecs[at] := prelude[offset..];
      vecs[at + 1] := middle;
      vecs[at + 2] := end;
    } else if offset < m + |middle| {
      vecs[at + 1] := middle[offset - m..];
      vecs[at + 2] := end;
    } else {
      vecs[at + 2] := end[offset - m - |middle|..];
    }
  }

  method ConstructFour(prelude: seq<byte>, middle: seq<byte>, id: (byte, byte), end: seq<byte>, offset: nat,
                       vecs: array<seq<byte>>,
                       at: nat, beyond: byte)
    requires offset < |prelude| + |middle| + 2 + |end| && at + 4 <= vecs.Length && forall j :: at <= j < vecs.Length ==>
               vecs[j] == []
    modifies vecs
    ensures vecs[at..at + 4] == Pieces(Full(prelude, middle, id, end), offset, beyond)
    ensures forall j :: 0 <= j < vecs.Length && !(at <= j < at + 4) ==> vecs[j] == old(vecs[j])
  {
    var m := |prelude|;
    if offset < m {
      vecs[at] := prelude[offset..];
      vecs[at + 1] := middle;
      vecs[at + 2] := [id.0, id.1];
      vecs[at + 3] := end;
    } else if offset < m + |middle| {
      vecs[at + 1] := middle[offset - m..];
      vecs[at + 2] := [id.0, id.1];
      vecs[at + 3] := end;
    } else if offset < m + |middle| + 2 {
      vecs[at + 2] := if offset == m + |middle| then [id.0, id.1] else [beyond];
      vecs[at + 3] := end;
    } else {
      vecs[at + 3] := end[offset - m - |middle| - 2..];
    }
  }

  // The queue

  /** What the socket makes of one call: it has no room, takes some bytes, or fails. */
  datatype SendResult = WouldBlock | Taken(n: nat) | Failed

  const UIO_MAXIOV: nat := 1024

  /** What is left of all packets, in order. */
  function Unsent(ts: seq<InTransitEncodedPacket>): seq<byte> {
    if ts == [] then [] else Rest(ts[0]) + Unsent(ts[1..])
  }

  /** What the vectors of all packets hold. */
  function Offered(ts: seq<InTransitEncodedPacket>, beyond: byte): seq<byte> {
    if ts == [] then [] else OnWire(ts[0], beyond) + Offered(ts[1..], beyond)
  }

  /** The packets after n of the bytes left were taken. */
  function Advanced(ts: seq<InTransitEncodedPacket>, n: nat): (us: seq<InTransitEncodedPacket>)
    ensures |us| == |ts|
  {
    if ts == [] then []
    else if |Rest(ts[0])| <= n then [ts[0].(offset := FullSize(ts[0].packet))] + Advanced(ts[1..], n - |Rest(ts[0])|)
    else [ts[0].(offset := ts[0].offset + n)] + ts[1..]
  }

  /** Without the finished packets at the front. */
  function Pending(ts: seq<InTransitEncodedPacket>): seq<InTransitEncodedPacket> {
    if ts == [] || !ts[0].IsDone() then ts else Pending(ts[1..])
  }

  /** No packet is finished, and only the first is partly sent. */
  ghost predicate Queue(ts: seq<InTransitEncodedPacket>) {
    forall i :: 0 <= i < |ts| ==> !ts[i].IsDone() && (i > 0 ==> ts[i].offset == 0)
  }

  predicate HeadSplit(ts: seq<InTransitEncodedPacket>) {
    ts != [] && SplitsId(ts[0])
  }

  lemma {:induction false} OfferedSnoc(ts: seq<InTransitEncodedPacket>, t: InTransitEncodedPacket, beyond: byte)
    ensures Offered(ts + [t], beyond) == Offered(ts, beyond) + OnWire(t, beyond)
  {
    if ts == [] {
      assert [] + [t] == [t] && [t][1..] == [];
    } else {
      OfferedSnoc(ts[1..], t, beyond);
      assert (ts + [t])[1..] == ts[1..] + [t];
    }
  }

  lemma {:induction false} UnsentCat(a: seq<InTransitEncodedPacket>, b: seq<InTransitEncodedPacket>)
    ensures Unsent(a + b) == Unsent(a) + Unsent(b)
  {
    hide Rest;
    if a == [] {
      assert a + b == b;
    } else {
      UnsentCat(a[1..], b);
      assert (a + b)[1..] == a[1..] + b && (a + b)[0] == a[0];
      Assoc(Rest(a[0]), Unsent(a[1..]), Unsent(b));
    }
  }

  lemma Assoc(a: seq<byte>, b: seq<byte>, c: seq<byte>)
    ensures (a + b) + c == a + (b + c)
  {
  }

  lemma UnsentHead(t: InTransitEncodedPacket, ts: seq<InTransitEncodedPacket>)
    ensures Unsent([t] + ts) == Rest(t) + Unsent(ts)
  {
    hide Rest;
    assert ([t] + ts)[1..] == ts;
  }

  lemma DropCat(a: seq<byte>, b: seq<byte>, n: nat)
    requires n <= |a| + |b|
    ensures (a + b)[n..] == if |a| <= n then b[n - |a|..] else a[n..] + b
  {
  }

  lemma Finished(t: InTransitEncodedPacket)
    ensures Rest(t.(offset := FullSize(t.packet))) == []
  {
  }

  lemma RestFrom(t: InTransitEncodedPacket, n: nat)
    requires n < |Rest(t)|
    ensures Rest(t.(offset := t.offset + n)) == Rest(t)[n..]
  {
  }

  /** Only a split identifier makes the vectors differ from what is left, and then only in the first byte. */
  lemma {:induction false} OfferedIs(ts: seq<InTransitEncodedPacket>, beyond: byte)
    requires Queue(ts)
    ensures |Offered(ts, beyond)| == |Unsent(ts)|
    ensures forall k :: 0 <= k < |Unsent(ts)| && (k > 0 || !HeadSplit(ts)) ==> Offered(ts, beyond)[k] == Unsent(ts)[k]
    ensures HeadSplit(ts) ==> |Unsent(ts)| > 0 && Offered(ts, beyond)[0] == beyond && Unsent(ts)[0] == ts[0].packet.id.1
  {
    if ts != [] {
      HeadWire(ts[0], beyond);
      TailQueue(ts);
      OfferedIs(ts[1..], beyond);
    }
  }

  lemma HeadWire(t: InTransitEncodedPacket, beyond: byte)
    requires !t.IsDone()
    ensures |OnWire(t, beyond)| == |Rest(t)| > 0
    ensures forall k :: 0 <= k < |Rest(t)| && (k > 0 || !SplitsId(t)) ==> OnWire(t, beyond)[k] == Rest(t)[k]
    ensures SplitsId(t) ==> OnWire(t, beyond)[0] == beyond && Rest(t)[0] == t.packet.id.1
  {
    if SplitsId(t) {
      var p := t.packet;
      assert Bytes(p) == (p.prelude + p.middle + [p.id.0]) + ([p.id.1] + p.end);
    }
  }

  lemma TailQueue(ts: seq<InTransitEncodedPacket>)
    requires Queue(ts) && ts != []
    ensures Queue(ts[1..]) && !HeadSplit(ts[1..])
  {
  }

  /** Advancing by n leaves what was left after n bytes. */
  lemma {:induction false} AdvancedUnsent(ts: seq<InTransitEncodedPacket>, n: nat)
    requires n <= |Unsent(ts)|
    ensures Unsent(Advanced(ts, n)) == Unsent(ts)[n..]
  {
    hide Rest;
    if ts != [] {
      var r := Rest(ts[0]);
      DropCat(r, Unsent(ts[1..]), n);
      if |r| <= n {
        AdvancedUnsent(ts[1..], n - |r|);
        Finished(ts[0]);
        UnsentHead(ts[0].(offset := FullSize(ts[0].packet)), Advanced(ts[1..], n - |r|));
        assert [] + Unsent(ts[1..])[n - |r|..] == Unsent(ts[1..])[n - |r|..];
      } else {
        RestFrom(ts[0], n);
        UnsentHead(ts[0].(offset := ts[0].offset + n), ts[1..]);
      }
    }
  }

  lemma {:induction false} PendingUnsent(ts: seq<InTransitEncodedPacket>)
    ensures Unsent(Pending(ts)) == Unsent(ts)
  {
    if ts != [] && ts[0].IsDone() {
      PendingUnsent(ts[1..]);
      assert [] + Unsent(ts[1..]) == Unsent(ts[1..]);
    }
  }

  /** A partly sent packet can only be the first that is left. */
  lemma {:induction false} PendingQueue(ts: seq<InTransitEncodedPacket>, n: nat)
    requires Queue(ts)
    ensures Queue(Pending(Advanced(ts, n)))
  {
    if ts != [] {
      var us := Advanced(ts, n);
      assert Queue(ts[1..]);
      if |Rest(ts[0])| <= n {
        PendingQueue(ts[1..], n - |Rest(ts[0])|);
        assert us[1..] == Advanced(ts[1..], n - |Rest(ts[0])|);
      } else {
        assert us[1..] == ts[1..] && !us[0].IsDone();
        assert forall i :: 0 < i < |us| ==> us[i] == ts[1..][i - 1] && us[i] == ts[i];
      }
    }
  }

  lemma {:induction false} AdvancedCat(a: seq<InTransitEncodedPacket>, b: seq<InTransitEncodedPacket>, n: nat)
    requires n <= |Unsent(a)| && Queue(b)
    ensures Advanced(a + b, n) == Advanced(a, n) + b
  {
    hide Rest;
    if a == [] {
      assert a + b == b;
      AdvancedZero(b);
    } else {
      assert (a + b)[1..] == a[1..] + b;
      if |Rest(a[0])| <= n {
        AdvancedCat(a[1..], b, n - |Rest(a[0])|);
      }
    }
  }

  lemma AdvancedZero(ts: seq<InTransitEncodedPacket>)
    requires Queue(ts)
    ensures Advanced(ts, 0) == ts
  {
    if ts != [] {
      assert ts == [ts[0]] + ts[1..];
    }
  }
}
