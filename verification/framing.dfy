/** Cutting a byte stream into control packets, whatever pieces the stream arrives in. */
module Framing {
  import opened SendQueue

  datatype PacketReceiveState = IDLE | RECEIVING_VAR_LENGTH | RECEIVING_DATA

  datatype PacketReceiveData = PacketReceiveData(
    recvState: PacketReceiveState, firstByte: byte, packetLength: nat, multiplier: nat, currentReceiveBuffer: seq<byte>)

  /** A control packet as it is handled: its first byte and its remaining bytes. */
  datatype Packet = Packet(firstByte: byte, body: seq<byte>)

  /**
   * What a connection has received: the packet in progress, the packets handled, and whether the protocol was
   * violated.
   */
  datatype Receiver = Receiver(recv: PacketReceiveData, handled: seq<Packet>, violated: bool)

  const NOTHING := PacketReceiveData(IDLE, 0, 0, 1, [])
  const START := Receiver(NOTHING, [], false)

  /** The longest length the code accepts takes three bytes. */
  const LIMIT: nat := 128 * 128 * 128

  // One byte at a time

  function Handle(r: Receiver, d: PacketReceiveData): Receiver {
    r.(recv := d.(recvState := IDLE), handled := r.handled + [Packet(d.firstByte, d.currentReceiveBuffer)])
  }

  /** Packet types 1 up to typeCount are known. */
  function First(r: Receiver, b: byte, typeCount: nat): Receiver {
    if b / 16 >= typeCount || b / 16 == 0 then r.(recv := NOTHING, violated := true)
    else r.(recv := PacketReceiveData(RECEIVING_VAR_LENGTH, b, 0, 1, []))
  }

  function Length(r: Receiver, b: byte): Receiver {
    var d := r.recv.(packetLength := r.recv.packetLength + (b % 128) * r.recv.multiplier,
                     multiplier := r.recv.multiplier * 128);
    if d.multiplier > LIMIT then r.(recv := d, violated := true)
    else if b >= 128 then r.(recv := d)
    else if d.packetLength == 0 then Handle(r, d)
    else r.(recv := d.(recvState := RECEIVING_DATA))
  }

  function Data(r: Receiver, bs: seq<byte>): Receiver {
    var d := r.recv.(currentReceiveBuffer := r.recv.currentReceiveBuffer + bs);
    if |d.currentReceiveBuffer| == d.packetLength then Handle(r, d) else r.(recv := d)
  }

  function Feed(r: Receiver, b: byte, typeCount: nat): Receiver {
    if r.violated then r else
    match r.recv.recvState
    case IDLE => First(r, b, typeCount)
    case RECEIVING_VAR_LENGTH => Length(r, b)
    case RECEIVING_DATA => Data(r, [b])
  }

  function FeedAll(r: Receiver, bs: seq<byte>, typeCount: nat): Receiver {
    if bs == [] then r else Feed(FeedAll(r, bs[..|bs| - 1], typeCount), bs[|bs| - 1], typeCount)
  }

  /** The stream's pieces do not matter. */
  lemma {:induction false} FeedCat(r: Receiver, a: seq<byte>, b: seq<byte>, typeCount: nat)
    ensures FeedAll(r, a + b, typeCount) == FeedAll(FeedAll(r, a, typeCount), b, typeCount)
  {
    if b == [] {
      assert a + b == a;
    } else {
      var k := |b| - 1;
      FeedCat(r, a, b[..k], typeCount);
      assert (a + b)[..|a| + k] == a + b[..k];
    }
  }

  lemma FeedOne(r: Receiver, b: byte, typeCount: nat)
    ensures FeedAll(r, [b], typeCount) == Feed(r, b, typeCount)
  {
    assert [b][..0] == [];
  }

  lemma {:induction false} FeedViolated(r: Receiver, bs: seq<byte>, typeCount: nat)
    requires r.violated
    ensures FeedAll(r, bs, typeCount) == r
  {
    if bs != [] { FeedViolated(r, bs[..|bs| - 1], typeCount); }
  }

  /** A packet in progress still lacks bytes. */
  ghost predicate Valid(r: Receiver) {
    r.recv.recvState == RECEIVING_DATA ==> |r.recv.currentReceiveBuffer| < r.recv.packetLength
  }

  lemma FeedValid(r: Receiver, b: byte, typeCount: nat)
    requires Valid(r) && (r.recv.recvState == RECEIVING_VAR_LENGTH ==> r.recv.currentReceiveBuffer == [])
    ensures Valid(Feed(r, b, typeCount))
    ensures Feed(r, b, typeCount).recv.recvState == RECEIVING_VAR_LENGTH ==>
              Feed(r, b, typeCount).recv.currentReceiveBuffer == []
  {
  }

  /** Bytes of one packet's body may be taken together. */
  lemma {:induction false} FeedData(r: Receiver, bs: seq<byte>, typeCount: nat)
    requires !r.violated && r.recv.recvState == RECEIVING_DATA && bs != []
    requires |r.recv.currentReceiveBuffer| + |bs| <= r.recv.packetLength
    ensures FeedAll(r, bs, typeCount) == Data(r, bs)
  {
    var k := |bs| - 1;
    if k == 0 {
      assert bs == [bs[0]];
      FeedOne(r, bs[0], typeCount);
    } else {
      FeedData(r, bs[..k], typeCount);
      DataData(r, bs[..k], [bs[k]]);
      assert bs == bs[..k] + [bs[k]];
    }
  }

  lemma DataData(r: Receiver, a: seq<byte>, b: seq<byte>)
    requires r.recv.recvState == RECEIVING_DATA && |r.recv.currentReceiveBuffer| + |a| < r.recv.packetLength
    ensures Data(Data(r, a), b) == Data(r, a + b)
  {
    Assoc(r.recv.currentReceiveBuffer, a, b);
  }

  // The receiving loop

  class MQTTClientConnection {
    var mRecvData: PacketReceiveData
    var mHandled: seq<Packet>
    var mViolated: bool

    function Value(): Receiver
      reads this
    {
      Receiver(mRecvData, mHandled, mViolated)
    }

    ghost predicate Good()
      reads this
    {
      Valid(Value()) && (mRecvData.recvState == RECEIVING_VAR_LENGTH ==> mRecvData.currentReceiveBuffer == [])
    }

    constructor ()
      ensures Good() && Value() == START
    {
      mRecvData, mHandled, mViolated := NOTHING, [], false;
    }

    /** One chunk from the socket; body bytes are copied in bulk. */
    method HandleChunk(bytes: seq<byte>, typeCount: nat)
      requires Good() && !mViolated
      modifies this
      ensures Good() && Value() == FeedAll(old(Value()), bytes, typeCount)
    {
      hide First, Length, Data;
      var i := 0;
      ghost var r := Value();
      while i < |bytes|
        invariant 0 <= i <= |bytes| && Good() && !mViolated
        invariant Value() == FeedAll(r, bytes[..i], typeCount)
      {
        ghost var now := Value();
        if mRecvData.recvState == RECEIVING_DATA {
          var n := HandleData(bytes[i..]);
          FeedData(now, bytes[i..i + n], typeCount);
          assert bytes[i..][..n] == bytes[i..i + n];
          NextBytes(r, bytes, i, n, typeCount);
          i := i + n;
        } else {
          var ok;
          if mRecvData.recvState == IDLE {
            ok := HandleFirst(bytes[i], typeCount);
          } else {
            ok := HandleLength(bytes[i]);
          }
          FeedValid(now, bytes[i], typeCount);
          FeedOne(now, bytes[i], typeCount);
          assert bytes[i..i + 1] == [bytes[i]];
          NextBytes(r, bytes, i, 1, typeCount);
          i := i + 1;
          if !ok {
            FeedViolated(Value(), bytes[i..], typeCount);
            assert bytes == bytes[..i] + bytes[i..];
            FeedCat(r, bytes[..i], bytes[i..], typeCount);
            return;
          }
        }
      }
      assert bytes[..i] == bytes;
    }

    method HandleFirst(b: byte, typeCount: nat) returns (ok: bool)
      requires mRecvData.recvState == IDLE && !mViolated
      modifies this
      ensures Value() == First(old(Value()), b, typeCount) && (ok <==> !mViolated)
    {
      mRecvData := NOTHING;
      var packetTypeId := b / 16;
      if packetTypeId >= typeCount || packetTypeId == 0 {
        mViolated := true;
        return false;
      }
      mRecvData := mRecvData.(firstByte := b, recvState := RECEIVING_VAR_LENGTH);
      ok := true;
    }

    method HandleLength(b: byte) returns (ok: bool)
      requires mRecvData.recvState == RECEIVING_VAR_LENGTH && !mViolated
      modifies this
      ensures Value() == Length(old(Value()), b) && (ok <==> !mViolated)
    {
      mRecvData := mRecvData.(packetLength := mRecvData.packetLength + (b % 128) * mRecvData.multiplier);
      mRecvData := mRecvData.(multiplier := mRecvData.multiplier * 128);
      if mRecvData.multiplier > 128 * 128 * 128 {
        mViolated := true;
        return false;
      }
      if b < 128 {
        if mRecvData.packetLength == 0 {
          mRecvData := mRecvData.(recvState := IDLE);
          mHandled := mHandled + [Packet(mRecvData.firstByte, mRecvData.currentReceiveBuffer)];
        } else {
          mRecvData := mRecvData.(recvState := RECEIVING_DATA);
        }
      }
      ok := true;
    }

    /** Takes as many bytes as the packet still lacks. */
    method HandleData(bytes: seq<byte>) returns (n: nat)
      requires mRecvData.recvState == RECEIVING_DATA && Good() && !mViolated && bytes != []
      modifies this
      ensures 0 < n <= |bytes| && |old(mRecvData).currentReceiveBuffer| + n <= old(mRecvData).packetLength
      ensures Good() && !mViolated && Value() == Data(old(Value()), bytes[..n])
    {
      var size := |mRecvData.currentReceiveBuffer|;
      n := if |bytes| <= mRecvData.packetLength - size then |bytes| else mRecvData.packetLength - size;
      mRecvData := mRecvData.(currentReceiveBuffer := mRecvData.currentReceiveBuffer + bytes[..n]);
      if |mRecvData.currentReceiveBuffer| == mRecvData.packetLength {
        mHandled := mHandled + [Packet(mRecvData.firstByte, mRecvData.currentReceiveBuffer)];
        mRecvData := mRecvData.(recvState := IDLE);
      }
    }
  }

  lemma NextBytes(r: Receiver, bytes: seq<byte>, i: nat, n: nat, typeCount: nat)
    requires i + n <= |bytes|
    ensures FeedAll(r, bytes[..i + n], typeCount)
            == FeedAll(FeedAll(r, bytes[..i], typeCount), bytes[i..i + n], typeCount)
  {
    assert bytes[..i + n] == bytes[..i] + bytes[i..i + n];
    FeedCat(r, bytes[..i], bytes[i..i + n], typeCount);
  }

  // Round trip

  /** The variable-length encoding of section 2.2.3 of MQTT 3.1.1. */
  function VarLength(n: nat): (s: seq<byte>)
    ensures s != []
  {
    if n < 128 then [n] else [n % 128 + 128] + VarLength(n / 128)
  }

  function Encode(p: Packet): seq<byte> {
    [p.firstByte] + VarLength(|p.body|) + p.body
  }

  function EncodeAll(ps: seq<Packet>): seq<byte> {
    if ps == [] then [] else EncodeAll(ps[..|ps| - 1]) + Encode(ps[|ps| - 1])
  }

  predicate Known(p: Packet, typeCount: nat) {
    1 <= p.firstByte / 16 < typeCount
  }

  /** The receiver inside a length field, with `len` read so far and the next byte weighing `mult`. */
  function InLength(h: seq<Packet>, first: byte, len: nat, mult: nat): Receiver {
    Receiver(PacketReceiveData(RECEIVING_VAR_LENGTH, first, len, mult, []), h, false)
  }

  /** A length field was read, and with it the whole packet if it has no body. */
  ghost predicate Read(r: Receiver, h: seq<Packet>, first: byte, total: nat) {
    && !r.violated && r.recv.firstByte == first && r.recv.packetLength == total && r.recv.currentReceiveBuffer == []
    && r.recv.recvState == (if total == 0 then IDLE else RECEIVING_DATA)
    && r.handled == (if total == 0 then h + [Packet(first, [])] else h)
  }

  ghost predicate Refused(r: Receiver, h: seq<Packet>) {
    r.violated && r.handled == h
  }

  lemma LastByte(h: seq<Packet>, first: byte, len: nat, mult: nat, b: byte, typeCount: nat)
    requires b < 128 && mult * 128 <= LIMIT
    ensures Read(FeedAll(InLength(h, first, len, mult), [b], typeCount), h, first, len + b * mult)
  {
    FeedOne(InLength(h, first, len, mult), b, typeCount);
  }

  lemma MoreBytes(h: seq<Packet>, first: byte, len: nat, mult: nat, n: nat, typeCount: nat)
    requires n >= 128 && mult * 128 <= LIMIT
    ensures FeedAll(InLength(h, first, len, mult), VarLength(n), typeCount)
         == FeedAll(InLength(h, first, len + (n % 128) * mult, mult * 128), VarLength(n / 128), typeCount)
  {
    var r, b: byte := InLength(h, first, len, mult), n % 128 + 128;
    FeedOne(r, b, typeCount);
    FeedCat(r, [b], VarLength(n / 128), typeCount);
  }

  lemma TooManyBytes(h: seq<Packet>, first: byte, len: nat, n: nat, typeCount: nat)
    ensures Refused(FeedAll(InLength(h, first, len, LIMIT), VarLength(n), typeCount), h)
  {
    var r, s := InLength(h, first, len, LIMIT), VarLength(n);
    assert s == [s[0]] + s[1..];
    FeedOne(r, s[0], typeCount);
    FeedCat(r, [s[0]], s[1..], typeCount);
    FeedViolated(Feed(r, s[0], typeCount), s[1..], typeCount);
  }

  lemma ThirdByte(h: seq<Packet>, first: byte, len: nat, n: nat, typeCount: nat)
    ensures var r := FeedAll(InLength(h, first, len, 16384), VarLength(n), typeCount);
            if n < 128 then Read(r, h, first, len + n * 16384) else Refused(r, h)
  {
    hide Read, Refused, FeedAll;
    if n < 128 {
      LastByte(h, first, len, 16384, n, typeCount);
    } else {
      MoreBytes(h, first, len, 16384, n, typeCount);
      TooManyBytes(h, first, len + (n % 128) * 16384, n / 128, typeCount);
    }
  }

  lemma SecondByte(h: seq<Packet>, first: byte, len: nat, n: nat, typeCount: nat)
    ensures var r := FeedAll(InLength(h, first, len, 128), VarLength(n), typeCount);
            if n < 16384 then Read(r, h, first, len + n * 128) else Refused(r, h)
  {
    hide Read, Refused, FeedAll;
    if n < 128 {
      LastByte(h, first, len, 128, n, typeCount);
    } else {
      MoreBytes(h, first, len, 128, n, typeCount);
      ThirdByte(h, first, len + (n % 128) * 128, n / 128, typeCount);
    }
  }

  /** A length is read when it is below 128^3, and refused when it is not. */
  lemma LengthRead(h: seq<Packet>, first: byte, n: nat, typeCount: nat)
    ensures var r := FeedAll(InLength(h, first, 0, 1), VarLength(n), typeCount);
            if n < LIMIT then Read(r, h, first, n) else Refused(r, h)
  {
    hide Read, Refused, FeedAll;
    if n < 128 {
      LastByte(h, first, 0, 1, n, typeCount);
    } else {
      MoreBytes(h, first, 0, 1, n, typeCount);
      SecondByte(h, first, n % 128, n / 128, typeCount);
    }
  }

  ghost predicate Ready(r: Receiver) {
    !r.violated && r.recv.recvState == IDLE
  }

  /** A first byte is refused exactly if its type is 0 or unknown, and it handles nothing. */
  lemma FirstByte(r: Receiver, b: byte, typeCount: nat)
    requires Ready(r)
    ensures var t := FeedAll(r, [b], typeCount);
            t.handled == r.handled && (t.violated <==> !(1 <= b / 16 < typeCount))
  {
    FeedOne(r, b, typeCount);
  }

  /** Encoded packets are handled exactly if their type is known and their length below 128^3, and refused otherwise. */
  lemma PacketRoundTrip(r: Receiver, p: Packet, typeCount: nat)
    requires Ready(r)
    ensures var t := FeedAll(r, Encode(p), typeCount);
            if 1 <= p.firstByte / 16 < typeCount && |p.body| < LIMIT then Ready(t) && t.handled == r.handled + [p]
            else Refused(t, r.handled)
  {
    if Known(p, typeCount) {
      KnownPacket(r, p, typeCount);
    } else {
      var rest := VarLength(|p.body|) + p.body;
      assert Encode(p) == [p.firstByte] + rest;
      FirstByte(r, p.firstByte, typeCount);
      FeedCat(r, [p.firstByte], rest, typeCount);
      FeedViolated(FeedAll(r, [p.firstByte], typeCount), rest, typeCount);
    }
  }

  lemma KnownPacket(r: Receiver, p: Packet, typeCount: nat)
    requires Ready(r) && Known(p, typeCount)
    ensures var t := FeedAll(r, Encode(p), typeCount);
            if |p.body| < LIMIT then Ready(t) && t.handled == r.handled + [p] else Refused(t, r.handled)
  {
    hide FeedAll, VarLength;
    var n := |p.body|;
    var r1 := InLength(r.handled, p.firstByte, 0, 1);
    var r2 := FeedAll(r1, VarLength(n), typeCount);
    FeedOne(r, p.firstByte, typeCount);
    FeedCat(r, [p.firstByte], VarLength(n), typeCount);
    FeedCat(r, [p.firstByte] + VarLength(n), p.body, typeCount);
    LengthRead(r.handled, p.firstByte, n, typeCount);
    if n >= LIMIT {
      FeedViolated(r2, p.body, typeCount);
    } else if n > 0 {
      FeedData(r2, p.body, typeCount);
      assert [] + p.body == p.body;
    } else {
      assert p.body == [];
      FeedNothing(r2, typeCount);
    }
  }

  lemma FeedNothing(r: Receiver, typeCount: nat)
    ensures FeedAll(r, [], typeCount) == r
  {
  }

  /** A concatenation of encoded packets is cut into exactly these packets. */
  lemma {:induction false} StreamRoundTrip(r: Receiver, ps: seq<Packet>, typeCount: nat)
    requires Ready(r) && forall p :: p in ps ==> Known(p, typeCount) && |p.body| < LIMIT
    ensures var t := FeedAll(r, EncodeAll(ps), typeCount); Ready(t) && t.handled == r.handled + ps
  {
    hide Encode, FeedAll;
    if ps == [] {
      FeedNothing(r, typeCount);
      assert r.handled + [] == r.handled;
    } else {
      var k := |ps| - 1;
      StreamRoundTrip(r, ps[..k], typeCount);
      FeedCat(r, EncodeAll(ps[..k]), Encode(ps[k]), typeCount);
      PacketRoundTrip(FeedAll(r, EncodeAll(ps[..k]), typeCount), ps[k], typeCount);
      assert r.handled + ps == (r.handled + ps[..k]) + [ps[k]];
    }
  }

  function FeedChunks(r: Receiver, chunks: seq<seq<byte>>, typeCount: nat): Receiver {
    if chunks == [] then r
    else FeedAll(FeedChunks(r, chunks[..|chunks| - 1], typeCount), chunks[|chunks| - 1], typeCount)
  }

  lemma {:induction false} ChunksDoNotMatter(r: Receiver, chunks: seq<seq<byte>>, typeCount: nat)
    ensures FeedChunks(r, chunks, typeCount) == FeedAll(r, Flat(chunks), typeCount)
  {
    if chunks == [] {
      FeedNothing(r, typeCount);
    } else {
      var k := |chunks| - 1;
      ChunksDoNotMatter(r, chunks[..k], typeCount);
      FeedCat(r, Flat(chunks[..k]), chunks[k], typeCount);
    }
  }

  /** However the stream of some packets is cut into chunks, these packets are handled, in order. */
  lemma AnyChunks(chunks: seq<seq<byte>>, ps: seq<Packet>, typeCount: nat)
    requires Flat(chunks) == EncodeAll(ps) && forall p :: p in ps ==> Known(p, typeCount) && |p.body| < LIMIT
    ensures var t := FeedChunks(START, chunks, typeCount); Ready(t) && t.handled == ps
  {
    ChunksDoNotMatter(START, chunks, typeCount);
    StreamRoundTrip(START, ps, typeCount);
    assert [] + ps == ps;
  }
}
