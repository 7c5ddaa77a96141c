/**
  HART-IP packets and the packet session (src/ip.rs).  The stream is the bytes
  the peer will have delivered before it fails; timers may fire at any byte.
 */
module HartIp {
  import opened Basics
  import W = Wire
  import opened Eviction

  type byte = W.byte

  const HEADER_SIZE: nat := 8
  const MAXIMUM_IP_BODY_BYTES: nat := 65535 - 8

  datatype MessageType = Request | Response | Publish | Nak

  datatype IpPacket = IpPacket(version: byte, messageType: MessageType, messageId: byte, status: byte,
                               sequence: W.u16, body: seq<byte>)

  datatype IpError =
    | Io
    | Truncated
    | UnknownMessageType(value: byte)
    | ReservedMessageBits(bits: byte)
    | Length(length: nat)
    | PacketLength(declared: nat, actual: nat)
    | BodyLimit(length: nat)
    | Sequence
    | ProtocolVersion(expected: byte, received: byte)
    | RemoteStatus(status: byte)
    | UnexpectedMessageType(messageType: MessageType)
    | Timeout
    | StreamUnusable

  function TypeCode(t: MessageType): byte {
    match t case Request => 0 case Response => 1 case Publish => 2 case Nak => 15
  }

  function TypeOf(v: byte): Option<MessageType> {
    if v == 0 then Some(Request)
    else if v == 1 then Some(Response)
    else if v == 2 then Some(Publish)
    else if v == 15 then Some(Nak)
    else None
  }

  // ----------------------------------------------------------------- packets

  function Header(p: IpPacket, total: W.u16): (h: seq<byte>)
    ensures |h| == HEADER_SIZE
  {
    [ p.version, TypeCode(p.messageType), p.messageId, p.status,
      W.HighByte(p.sequence), W.LowByte(p.sequence), W.HighByte(total), W.LowByte(total) ]
  }

  function Encode(p: IpPacket): Result<seq<byte>, IpError> {
    var total := HEADER_SIZE + |p.body|;
    if total > 0xffff then Err(Length(|p.body|)) else Ok(Header(p, total) + p.body)
  }

  /** The length a header declares. */
  function Declared(bytes: seq<byte>): nat
    requires |bytes| >= HEADER_SIZE
  {
    W.BigEndian(bytes[6], bytes[7])
  }

  function HighNibble(b: byte): byte { b & 0xf0 }

  function LowNibble(b: byte): byte { b & 0x0f }

  function Decode(bytes: seq<byte>, maximumBody: nat): Result<IpPacket, IpError> {
    if |bytes| < HEADER_SIZE then Err(Truncated)
    else
      var total := Declared(bytes);
      if total != |bytes| || total < HEADER_SIZE then Err(PacketLength(total, |bytes|))
      else if total - HEADER_SIZE > maximumBody then Err(BodyLimit(total - HEADER_SIZE))
      else if HighNibble(bytes[1]) != 0 then Err(ReservedMessageBits(HighNibble(bytes[1])))
      else
        match TypeOf(LowNibble(bytes[1]))
        case None => Err(UnknownMessageType(LowNibble(bytes[1])))
        case Some(t) =>
          Ok(IpPacket(bytes[0], t, bytes[2], bytes[3], W.BigEndian(bytes[4], bytes[5]), bytes[HEADER_SIZE..]))
  }

  lemma TypeRoundTrip(t: MessageType)
    ensures HighNibble(TypeCode(t)) == 0 && TypeOf(LowNibble(TypeCode(t))) == Some(t)
  {}

  lemma TypeReread(b: byte)
    requires HighNibble(b) == 0 && TypeOf(LowNibble(b)).Some?
    ensures TypeCode(TypeOf(LowNibble(b)).value) == b
  {}

  /** What is encoded decodes to itself, within the body limit of the receiver. */
  lemma DecodeEncoded(p: IpPacket, maximumBody: nat)
    requires Encode(p).Ok? && |p.body| <= maximumBody
    ensures Decode(Encode(p).value, maximumBody) == Ok(p)
  {
    hide TypeCode, TypeOf, HighNibble, LowNibble, W.BigEndian, W.HighByte, W.LowByte;
    var total := HEADER_SIZE + |p.body|;
    W.BigEndianBack(p.sequence);
    W.BigEndianBack(total);
    TypeRoundTrip(p.messageType);
    assert Encode(p).value[HEADER_SIZE..] == p.body;
  }

  /** What decodes is the encoding of the packet it decodes to. */
  lemma EncodeDecoded(bytes: seq<byte>, maximumBody: nat)
    requires Decode(bytes, maximumBody).Ok?
    ensures Encode(Decode(bytes, maximumBody).value) == Ok(bytes)
  {
    hide TypeCode, TypeOf, HighNibble, LowNibble, W.BigEndian, W.HighByte, W.LowByte;
    var p := Decode(bytes, maximumBody).value;
    W.BigEndianBytes(bytes[4], bytes[5]);
    W.BigEndianBytes(bytes[6], bytes[7]);
    TypeReread(bytes[1]);
    assert bytes == bytes[..HEADER_SIZE] + bytes[HEADER_SIZE..];
    assert bytes[..HEADER_SIZE] == Header(p, |bytes|);
  }

  // ----------------------------------------------------------------- framing

  predicate IsPacket(bytes: seq<byte>) { |bytes| >= HEADER_SIZE && Declared(bytes) == |bytes| }

  /** A whole number of packets, as their own length fields cut them. */
  ghost predicate Whole(bytes: seq<byte>)
    decreases |bytes|
  {
    bytes != [] ==>
      && |bytes| >= HEADER_SIZE && HEADER_SIZE <= Declared(bytes) <= |bytes|
      && Whole(bytes[Declared(bytes)..])
  }

  lemma {:induction false} WholeAppend(a: seq<byte>, b: seq<byte>)
    requires Whole(a) && Whole(b)
    ensures Whole(a + b)
    decreases |a|
  {
    hide Declared;
    if a == [] {
      assert a + b == b;
    } else {
      var n := Declared(a);
      WholeAppend(a[n..], b);
      SameDeclared(a, b);
      assert (a + b)[n..] == a[n..] + b;
    }
  }

  lemma SameDeclared(a: seq<byte>, b: seq<byte>)
    requires |a| >= HEADER_SIZE
    ensures Declared(a + b) == Declared(a)
  {}

  lemma PacketIsWhole(p: seq<byte>)
    requires IsPacket(p)
    ensures Whole(p)
  {
    assert p[|p|..] == [];
  }

  /** Outcome of one receive: the result, how many bytes it took, and whether framing is certain. */
  datatype Receipt = Receipt(result: Result<IpPacket, IpError>, consumed: nat, usable: bool)

  /** `cut` bytes can be read before the timer fires. */
  function ReceiveFrom(incoming: seq<byte>, cut: nat, maximumBody: nat): (r: Receipt)
    ensures r.consumed <= |incoming|
    ensures r.usable ==> r.consumed >= HEADER_SIZE
  {
    var available := Min(|incoming|, cut);
    var failure := if cut > |incoming| then Io else Timeout;
    if available < HEADER_SIZE then Receipt(Err(failure), available, false)
    else
      var total := Declared(incoming);
      if total < HEADER_SIZE then Receipt(Err(PacketLength(total, HEADER_SIZE)), HEADER_SIZE, false)
      else if available < total then Receipt(Err(failure), available, false)
      else if total - HEADER_SIZE > maximumBody then Receipt(Err(BodyLimit(total - HEADER_SIZE)), total, true)
      else Receipt(Decode(incoming[..total], maximumBody), total, true)
  }

  /** A receive that keeps the session usable took exactly one packet, even when it refused it. */
  lemma ReceiveTakesOnePacket(incoming: seq<byte>, cut: nat, maximumBody: nat)
    ensures var r := ReceiveFrom(incoming, cut, maximumBody);
      && (r.usable ==> IsPacket(incoming[..r.consumed]))
      && (r.result.Ok? ==> r.usable && Encode(r.result.value) == Ok(incoming[..r.consumed]) && |r.result.value.body| <= maximumBody)
      && (r.result.Err? && r.usable ==>
           r.result.error.BodyLimit? || r.result.error.ReservedMessageBits? || r.result.error.UnknownMessageType?)
  {
    hide Encode, W.BigEndian, TypeOf, HighNibble, LowNibble;
    var r := ReceiveFrom(incoming, cut, maximumBody);
    if r.usable {
      assert incoming[..r.consumed][6] == incoming[6] && incoming[..r.consumed][7] == incoming[7];
    }
    if r.result.Ok? {
      EncodeDecoded(incoming[..r.consumed], maximumBody);
    }
  }

  /**
    How a receive ends, exactly.  With a whole packet in time the session stays
    usable, and an oversized one is refused by its body length.  Otherwise it does
    not: the header declares less than itself, the stream ends, or the timer fires.
   */
  lemma ReceiveEnds(incoming: seq<byte>, cut: nat, maximumBody: nat)
    ensures var r := ReceiveFrom(incoming, cut, maximumBody);
      var n := if cut < |incoming| then cut else |incoming|;
      && (r.usable <==> n >= HEADER_SIZE && HEADER_SIZE <= Declared(incoming) <= n)
      && (r.usable ==> r.consumed == Declared(incoming))
      && (r.usable && Declared(incoming) - HEADER_SIZE > maximumBody ==>
           r.result == Err(BodyLimit(Declared(incoming) - HEADER_SIZE)))
      && (r.result.Err? && r.result.error.Io? <==> !r.usable && !(n >= HEADER_SIZE && Declared(incoming) < HEADER_SIZE) && cut > |incoming|)
      && (r.result == Err(Timeout) <==> !r.usable && !(n >= HEADER_SIZE && Declared(incoming) < HEADER_SIZE) && cut <= |incoming|)
  {
    hide TypeOf, HighNibble, LowNibble, W.BigEndian;
  }

  // ---------------------------------------------------------------- exchanges

  /** Timers of one exchange: where the k-th receive is cut, and before which receive the whole exchange expires. */
  datatype Timers = Timers(cut: nat -> nat, expires: nat -> bool)

  datatype Expectation = Expectation(version: byte, sequence: W.u16, messageId: byte, maximumBody: nat, maximumUnmatched: nat)

  /** Progress of an exchange: bytes taken, receives made, stale packets skipped, Publish packets heard. */
  datatype Progress = Progress(position: nat, receives: nat, unmatched: nat, published: seq<IpPacket>)

  datatype Awaited = Awaited(result: Result<IpPacket, IpError>, progress: Progress, usable: bool)

  datatype Verdict = Done(result: Result<IpPacket, IpError>) | Onward

  /** What the exchange makes of one packet. */
  function Judge(p: IpPacket, e: Expectation, unmatched: nat): Verdict {
    if p.version != e.version then Done(Err(ProtocolVersion(e.version, p.version)))
    else if p.messageType.Publish? then Onward
    else if p.sequence != e.sequence || p.messageId != e.messageId then
      if unmatched + 1 > e.maximumUnmatched then Done(Err(Sequence)) else Onward
    else if p.messageType.Nak? then Done(Err(RemoteStatus(p.status)))
    else if !p.messageType.Response? then Done(Err(UnexpectedMessageType(p.messageType)))
    else if p.status != 0 then Done(Err(RemoteStatus(p.status)))
    else Done(Ok(p))
  }

  /** A packet of this version that answers some other request. */
  predicate Stale(p: IpPacket, version: byte, sequence: W.u16, messageId: byte) {
    p.version == version && !p.messageType.Publish? && (p.sequence != sequence || p.messageId != messageId)
  }

  function Advance(g: Progress, p: IpPacket, consumed: nat, e: Expectation): Progress {
    Progress(
      g.position + consumed, g.receives + 1,
      if Stale(p, e.version, e.sequence, e.messageId) then g.unmatched + 1 else g.unmatched,
      if p.version == e.version && p.messageType.Publish? then g.published + [p] else g.published)
  }

  /** Receiving from a stream until the response, a refusal or a failure. */
  function Await(stream: seq<byte>, t: Timers, e: Expectation, g: Progress): (a: Awaited)
    requires g.position <= |stream|
    ensures g.position <= a.progress.position <= |stream|
    decreases |stream| - g.position
  {
    if t.expires(g.receives) then Awaited(Err(Timeout), g, false)
    else
      var r := ReceiveFrom(stream[g.position..], t.cut(g.receives), e.maximumBody);
      if r.result.Err? then Awaited(r.result, g.(position := g.position + r.consumed, receives := g.receives + 1), r.usable)
      else
        ReceiveTakesOnePacket(stream[g.position..], t.cut(g.receives), e.maximumBody);
        var next := Advance(g, r.result.value, r.consumed, e);
        match Judge(r.result.value, e, g.unmatched)
        case Done(result) => Awaited(result, next, true)
        case Onward => Await(stream, t, e, next)
  }

  /**
    Framing survives every exchange: as long as the session stays usable, the
    bytes taken are whole packets.  A successful one returns a response without
    error status to this very request, after at most the permitted skips.
   */
  lemma {:induction false} ExchangeKeepsFraming(stream: seq<byte>, t: Timers, e: Expectation, g: Progress)
    requires g.position <= |stream| && Whole(stream[..g.position]) && g.unmatched <= e.maximumUnmatched
    ensures var a := Await(stream, t, e, g);
      && (a.usable ==> Whole(stream[..a.progress.position]))
      && a.progress.unmatched <= e.maximumUnmatched + 1
      && (a.result == Err(Sequence) <==> a.progress.unmatched == e.maximumUnmatched + 1)
      && (a.result.Ok? ==>
           && a.usable && a.progress.unmatched <= e.maximumUnmatched
           && a.result.value.messageType.Response? && a.result.value.status == 0
           && a.result.value.sequence == e.sequence && a.result.value.messageId == e.messageId
           && a.result.value.version == e.version)
    decreases |stream| - g.position
  {
    hide ReceiveFrom, Whole, IsPacket, Encode;
    if !t.expires(g.receives) {
      var rest := stream[g.position..];
      var r := ReceiveFrom(rest, t.cut(g.receives), e.maximumBody);
      ReceiveTakesOnePacket(rest, t.cut(g.receives), e.maximumBody);
      NoSequenceError(rest, t.cut(g.receives), e.maximumBody);
      if r.usable {
        PacketIsWhole(rest[..r.consumed]);
        WholeAppend(stream[..g.position], rest[..r.consumed]);
        assert stream[..g.position] + rest[..r.consumed] == stream[..g.position + r.consumed];
      }
      if r.result.Ok? && Judge(r.result.value, e, g.unmatched).Onward? {
        ExchangeKeepsFraming(stream, t, e, Advance(g, r.result.value, r.consumed, e));
      }
    }
  }

  lemma NoSequenceError(incoming: seq<byte>, cut: nat, maximumBody: nat)
    ensures ReceiveFrom(incoming, cut, maximumBody).result != Err(Sequence)
  {
    hide TypeOf, HighNibble, LowNibble, W.BigEndian;
  }

  // ------------------------------------------------- completeness on packets

  /** A stream of encoded packets. */
  function Wired(packets: seq<IpPacket>): seq<byte>
    requires forall p :: p in packets ==> Encode(p).Ok?
  {
    if packets == [] then [] else Encode(packets[0]).value + Wired(packets[1..])
  }

  /** The packet answers some other request: right version, not Publish, other sequence or id. */
  predicate Elsewhere(p: IpPacket, e: Expectation) {
    p.version == e.version && p.messageType != Publish && (p.sequence != e.sequence || p.messageId != e.messageId)
  }

  function CountElsewhere(packets: seq<IpPacket>, e: Expectation): nat {
    if packets == [] then 0 else (if Elsewhere(packets[0], e) then 1 else 0) + CountElsewhere(packets[1..], e)
  }

  function Publications(packets: seq<IpPacket>, e: Expectation): seq<IpPacket> {
    if packets == [] then []
    else (if packets[0].version == e.version && packets[0].messageType == Publish then [packets[0]] else []) + Publications(packets[1..], e)
  }

  /** The packet is passed over: of this version, and a publication or an answer to something else. */
  predicate PassedOver(p: IpPacket, e: Expectation) {
    p.version == e.version && (p.messageType == Publish || Elsewhere(p, e))
  }

  /** The response the exchange waits for. */
  predicate IsAnswer(p: IpPacket, e: Expectation) {
    && p.version == e.version && p.sequence == e.sequence && p.messageId == e.messageId
    && p.messageType == Response && p.status == 0
  }

  /** The k-th receive has time for this packet. */
  predicate InTime(timers: Timers, k: nat, p: IpPacket)
    requires Encode(p).Ok?
  {
    !timers.expires(k) && timers.cut(k) >= |Encode(p).value|
  }

  /** What the caller gets for a packet that is not passed over, case by case. */
  predicate Settles(p: IpPacket, e: Expectation, result: Result<IpPacket, IpError>) {
    && (result.Ok? <==> IsAnswer(p, e))
    && (result.Ok? ==> result.value == p)
    && (result == Err(ProtocolVersion(e.version, p.version)) <==> p.version != e.version)
    && (result == Err(Sequence) <==> Elsewhere(p, e))
    && (p.version == e.version && p.messageType != Publish && !Elsewhere(p, e) ==>
         && (p.messageType == Nak ==> result == Err(RemoteStatus(p.status)))
         && (p.messageType == Response && p.status != 0 ==> result == Err(RemoteStatus(p.status)))
         && (p.messageType == Request ==> result == Err(UnexpectedMessageType(Request))))
  }

  /** All packets but the last are passed over, with no more strangers than permitted; the last is not. */
  predicate LastDecides(packets: seq<IpPacket>, e: Expectation, unmatched: nat)
    requires packets != []
  {
    var n := |packets| - 1;
    && (forall k :: 0 <= k < n ==> PassedOver(packets[k], e))
    && unmatched + CountElsewhere(packets[..n], e) <= e.maximumUnmatched
    && !(packets[n].version == e.version && packets[n].messageType == Publish)
    && (Elsewhere(packets[n], e) ==> unmatched + CountElsewhere(packets, e) > e.maximumUnmatched)
  }

  lemma LastStillDecides(packets: seq<IpPacket>, e: Expectation, unmatched: nat)
    requires |packets| > 1 && LastDecides(packets, e, unmatched)
    ensures var one := if Elsewhere(packets[0], e) then 1 else 0;
      && PassedOver(packets[0], e) && unmatched + one <= e.maximumUnmatched
      && LastDecides(packets[1..], e, unmatched + one)
      && CountElsewhere(packets, e) == one + CountElsewhere(packets[1..], e)
  {
    hide Elsewhere, PassedOver;
    Shifted(packets, e);
    assert PassedOver(packets[0], e);
  }

  lemma PublishedFirst(packets: seq<IpPacket>, e: Expectation, before: seq<IpPacket>)
    requires packets != []
    ensures before + Publications(packets, e)
      == (before + if packets[0].version == e.version && packets[0].messageType == Publish then [packets[0]] else [])
         + Publications(packets[1..], e)
  {}

  /** One encoded packet at the front of a stream is received whole when the timer leaves time for it. */
  lemma PacketReceived(p: IpPacket, t: seq<byte>, cut: nat, maximumBody: nat)
    requires Encode(p).Ok? && |p.body| <= maximumBody && cut >= |Encode(p).value|
    ensures ReceiveFrom(Encode(p).value + t, cut, maximumBody) == Receipt(Ok(p), |Encode(p).value|, true)
  {
    hide TypeOf, TypeCode, HighNibble, LowNibble, W.BigEndian, W.HighByte, W.LowByte, Decode;
    var x := Encode(p).value;
    DecodeEncoded(p, maximumBody);
    W.BigEndianBack(HEADER_SIZE + |p.body|);
    assert (x + t)[6] == x[6] && (x + t)[7] == x[7] && (x + t)[..|x|] == x;
  }

  /**
    The exchange is complete.  If a stream holds encoded packets within the body
    limit, all but the last of them passed over with no more strangers than
    permitted, and the timers leave time for each, then the last packet decides:
    its response is returned if and only if it is the answer, and every other
    result is told by what the packet is.  What was published is retained in
    order, and the strangers are counted.
   */
  lemma {:induction false} PacketsDecide(stream: seq<byte>, timers: Timers, e: Expectation, g: Progress,
                                         packets: seq<IpPacket>, t: seq<byte>)
    requires g.position <= |stream| && packets != [] && forall p :: p in packets ==> Encode(p).Ok? && |p.body| <= e.maximumBody
    requires stream[g.position..] == Wired(packets) + t
    requires LastDecides(packets, e, g.unmatched)
    requires forall k :: 0 <= k < |packets| ==> InTime(timers, g.receives + k, packets[k])
    ensures var a := Await(stream, timers, e, g);
      && a.usable && Settles(packets[|packets| - 1], e, a.result)
      && a.progress.position == g.position + |Wired(packets)|
      && a.progress.receives == g.receives + |packets|
      && a.progress.unmatched == g.unmatched + CountElsewhere(packets, e)
      && a.progress.published == g.published + Publications(packets, e)
    decreases |packets|
  {
    hide Encode, Await, Advance, Settles, Judge, Elsewhere, PassedOver, LastDecides, Publications, CountElsewhere, Wired;
    var p, rest, n := packets[0], packets[1..], |packets| - 1;
    var x := Encode(p).value;
    WiredFirst(packets, t);
    PublishedFirst(packets, e, g.published);
    assert InTime(timers, g.receives + 0, packets[0]);
    OnePacket(stream, timers, e, g, p, Wired(rest) + t);
    AdvancedBy(g, p, |x|, e);
    var next := Advance(g, p, |x|, e);
    if n == 0 {
      LastOne(packets, e, g.unmatched, t);
    } else {
      LastStillDecides(packets, e, g.unmatched);
      PassedOverGoesOn(p, e, g.unmatched);
      assert stream[next.position..] == stream[g.position..][|x|..];
      forall k | 0 <= k < |rest| ensures InTime(timers, next.receives + k, rest[k]) {
        assert InTime(timers, g.receives + (k + 1), packets[k + 1]);
        assert g.receives + (k + 1) == next.receives + k && packets[k + 1] == rest[k];
      }
      PacketsDecide(stream, timers, e, next, rest, t);
    }
  }

  lemma LastOne(packets: seq<IpPacket>, e: Expectation, unmatched: nat, t: seq<byte>)
    requires |packets| == 1 && LastDecides(packets, e, unmatched)
    ensures packets[1..] == [] && Wired([]) == [] && Publications([], e) == []
    ensures CountElsewhere(packets, e) == if Elsewhere(packets[0], e) then 1 else 0
    ensures Judge(packets[0], e, unmatched).Done? && Settles(packets[0], e, Judge(packets[0], e, unmatched).result)
  {
    hide Elsewhere, Settles, Judge;
    assert packets[1..] == [] && packets[..0] == [];
    NotPassedOver(packets[0], e, unmatched);
  }

  lemma WiredFirst(packets: seq<IpPacket>, t: seq<byte>)
    requires packets != [] && forall p :: p in packets ==> Encode(p).Ok?
    ensures var x := Encode(packets[0]).value;
      && Wired(packets) + t == x + (Wired(packets[1..]) + t) && |Wired(packets)| == |x| + |Wired(packets[1..])|
      && (Wired(packets) + t)[|x|..] == Wired(packets[1..]) + t
  {
    hide Encode;
    var x := Encode(packets[0]).value;
    assert x + (Wired(packets[1..]) + t) == x + Wired(packets[1..]) + t;
  }

  /** The exchange meets one whole packet. */
  lemma OnePacket(stream: seq<byte>, timers: Timers, e: Expectation, g: Progress, p: IpPacket, t: seq<byte>)
    requires g.position <= |stream| && Encode(p).Ok? && |p.body| <= e.maximumBody && stream[g.position..] == Encode(p).value + t
    requires !timers.expires(g.receives) && timers.cut(g.receives) >= |Encode(p).value|
    ensures var next := Advance(g, p, |Encode(p).value|, e);
      && next.position <= |stream|
      && match Judge(p, e, g.unmatched)
         case Done(result) => Await(stream, timers, e, g) == Awaited(result, next, true)
         case Onward => Await(stream, timers, e, g) == Await(stream, timers, e, next)
  {
    hide Encode, ReceiveFrom, Judge, Await;
    PacketReceived(p, t, timers.cut(g.receives), e.maximumBody);
    AwaitUnfolds(stream, timers, e, g);
  }

  lemma AdvancedBy(g: Progress, p: IpPacket, n: nat, e: Expectation)
    ensures Advance(g, p, n, e) == Progress(
      g.position + n, g.receives + 1, g.unmatched + (if Elsewhere(p, e) then 1 else 0),
      g.published + if p.version == e.version && p.messageType == Publish then [p] else [])
  {
    assert g.published + [] == g.published;
  }

  lemma PassedOverGoesOn(p: IpPacket, e: Expectation, unmatched: nat)
    requires PassedOver(p, e) && (Elsewhere(p, e) ==> unmatched + 1 <= e.maximumUnmatched)
    ensures Judge(p, e, unmatched).Onward?
  {}

  lemma NotPassedOver(p: IpPacket, e: Expectation, unmatched: nat)
    requires !(p.version == e.version && p.messageType == Publish)
    requires Elsewhere(p, e) ==> unmatched + 1 > e.maximumUnmatched
    ensures Judge(p, e, unmatched).Done? && Settles(p, e, Judge(p, e, unmatched).result)
  {}

  lemma Shifted(packets: seq<IpPacket>, e: Expectation)
    requires |packets| > 1
    ensures var n := |packets| - 1;
      && packets[1..][n - 1] == packets[n]
      && CountElsewhere(packets[..n], e) == (if Elsewhere(packets[0], e) then 1 else 0) + CountElsewhere(packets[1..][..n - 1], e)
  {
    var n := |packets| - 1;
    assert packets[..n][1..] == packets[1..][..n - 1];
  }

  /** A byte string decodes exactly when it is the encoding of a packet within the limit. */
  lemma DecodeExact(bytes: seq<byte>, maximumBody: nat, p: IpPacket)
    ensures Decode(bytes, maximumBody) == Ok(p) <==> Encode(p) == Ok(bytes) && |p.body| <= maximumBody
  {
    if Decode(bytes, maximumBody) == Ok(p) {
      EncodeDecoded(bytes, maximumBody);
      DecodedBody(bytes, maximumBody);
    }
    if Encode(p) == Ok(bytes) && |p.body| <= maximumBody { DecodeEncoded(p, maximumBody); }
  }

  lemma DecodedBody(bytes: seq<byte>, maximumBody: nat)
    requires Decode(bytes, maximumBody).Ok?
    ensures |Decode(bytes, maximumBody).value.body| <= maximumBody
  {
    hide TypeOf, HighNibble, LowNibble, W.BigEndian;
  }

  // ------------------------------------------------------- publish retention

  function BodySize(p: IpPacket): nat { |p.body| }

  /** A retained Publish packet joins the queue; a zero byte limit disables retention. */
  function Retain(queue: seq<IpPacket>, p: IpPacket, count: nat, bytes: nat): seq<IpPacket> {
    if count == 0 || bytes == 0 || BodySize(p) > bytes then queue else Fitting(queue + [p], BodySize, count, bytes)
  }

  function RetainAll(queue: seq<IpPacket>, packets: seq<IpPacket>, count: nat, bytes: nat): seq<IpPacket>
    decreases |packets|
  {
    if packets == [] then queue else RetainAll(Retain(queue, packets[0], count, bytes), packets[1..], count, bytes)
  }

  /**
    Between takes, under every limit: a zero byte limit retains nothing new, and
    otherwise retention keeps the longest suffix that fits both limits.
   */
  lemma RetentionIsLongestSuffix(queue: seq<IpPacket>, packets: seq<IpPacket>, count: nat, bytes: nat)
    requires Fits(queue, BodySize, count, bytes)
    ensures RetainAll(queue, packets, count, bytes) ==
      if bytes == 0 then queue
      else Fitting(queue + Small(packets, BodySize, bytes), BodySize, count, bytes)
  {
    hide Fitting, RetainAll, PushedAll, Small;
    if count == 0 || bytes == 0 {
      NothingRetained(queue, packets, count, bytes);
      NoPlaces(queue + Small(packets, BodySize, bytes), bytes);
    } else {
      RetainIsPush(queue, packets, count, bytes);
      RetainedIsLongestSuffix(queue, packets, BodySize, count, bytes);
    }
  }

  /**
    Exactly when what is retained from an empty queue is the longest fitting
    suffix of the packets not oversized: unless the byte limit is zero, places
    are left and some body is empty.
   */
  lemma RetentionExact(packets: seq<IpPacket>, count: nat, bytes: nat)
    ensures RetainAll([], packets, count, bytes) == Fitting(Small(packets, BodySize, bytes), BodySize, count, bytes)
      <==> bytes > 0 || count == 0 || forall p :: p in packets ==> p.body != []
  {
    hide Fitting, RetainAll, Small;
    var small := Small(packets, BodySize, bytes);
    NoBodies();
    RetentionIsLongestSuffix([], packets, count, bytes);
    assert [] + small == small;
    NoPlaces(small, bytes);
    if bytes == 0 && count > 0 {
      SmallMembers(packets, bytes);
      if small == [] {
        FittingAlready(small, BodySize, count, bytes);
      } else {
        assert small[|small| - 1] in small && small[|small| - 1] in packets;
        LastFits(small, count, bytes);
      }
    }
  }

  /** A Publish packet with an empty body fits a zero byte limit and is dropped all the same. */
  lemma EmptyBodyDropped()
    ensures var p := IpPacket(1, Publish, 3, 0, 7, []);
      RetainAll([], [p], 4, 0) == [] && Fitting(Small([p], BodySize, 0), BodySize, 4, 0) == [p]
  {
    hide RetainAll, Fitting, Small, Bytes;
    var p := IpPacket(1, Publish, 3, 0, 7, []);
    NothingRetained([], [p], 4, 0);
    SmallOne(p, 0);
    BytesOne(p, BodySize);
    FittingAlready([p], BodySize, 4, 0);
  }

  lemma SmallOne(p: IpPacket, bytes: nat)
    requires BodySize(p) <= bytes
    ensures Small([p], BodySize, bytes) == [p]
  {
    var none := [p][..0];
    assert none == [] && Small(none, BodySize, bytes) == [];
  }

  lemma {:induction false} NothingRetained(queue: seq<IpPacket>, packets: seq<IpPacket>, count: nat, bytes: nat)
    requires count == 0 || bytes == 0
    ensures RetainAll(queue, packets, count, bytes) == queue
    decreases |packets|
  {
    if packets != [] { NothingRetained(queue, packets[1..], count, bytes); }
  }

  lemma {:induction false} NoPlaces(packets: seq<IpPacket>, bytes: nat)
    ensures Fitting(packets, BodySize, 0, bytes) == []
  {}

  lemma {:induction false} SmallMembers(packets: seq<IpPacket>, bytes: nat)
    ensures forall p :: p in Small(packets, BodySize, bytes) <==> p in packets && BodySize(p) <= bytes
  {
    if packets != [] {
      var n := |packets| - 1;
      SmallMembers(packets[..n], bytes);
      assert packets == packets[..n] + [packets[n]];
    }
  }

  /** Something is kept whenever the last item fits alone. */
  lemma LastFits(packets: seq<IpPacket>, count: nat, bytes: nat)
    requires packets != [] && count > 0 && BodySize(packets[|packets| - 1]) <= bytes
    ensures Fitting(packets, BodySize, count, bytes) != []
  {
    hide Fitting;
    var n := |packets| - 1;
    assert packets[n..] == [packets[n]];
    BytesOne(packets[n], BodySize);
    FittingIsLongest(packets, BodySize, count, bytes, n);
  }

  lemma {:induction false} RetainIsPush(queue: seq<IpPacket>, packets: seq<IpPacket>, count: nat, bytes: nat)
    requires count > 0 && bytes > 0
    ensures RetainAll(queue, packets, count, bytes) == PushedAll(queue, packets, BodySize, count, bytes)
    decreases |packets|
  {
    hide Fitting;
    if packets != [] {
      var first := Retain(queue, packets[0], count, bytes);
      RetainIsPush(first, packets[1..], count, bytes);
      PushFirst(queue, packets, count, bytes);
    }
  }

  lemma {:induction false} PushFirst(queue: seq<IpPacket>, packets: seq<IpPacket>, count: nat, bytes: nat)
    requires packets != []
    ensures PushedAll(queue, packets, BodySize, count, bytes)
      == PushedAll(Pushed(queue, packets[0], BodySize, count, bytes), packets[1..], BodySize, count, bytes)
    decreases |packets|
  {
    hide Pushed;
    var n := |packets| - 1;
    if n == 0 {
      assert packets[..0] == [] && packets[1..] == [];
    } else {
      PushFirst(queue, packets[..n], count, bytes);
      assert packets[..n][1..] == packets[1..][..n - 1];
    }
  }

  lemma {:induction false} RetainAllAppend(queue: seq<IpPacket>, a: seq<IpPacket>, p: IpPacket, count: nat, bytes: nat)
    ensures RetainAll(queue, a + [p], count, bytes) == Retain(RetainAll(queue, a, count, bytes), p, count, bytes)
    decreases |a|
  {
    hide Retain;
    if a == [] {
      assert a + [p] == [p] && [p][1..] == [];
    } else {
      RetainAllAppend(Retain(queue, a[0], count, bytes), a[1..], p, count, bytes);
      assert (a + [p])[1..] == a[1..] + [p];
    }
  }

  // -------------------------------------------------------------- the session

  /** Sequence numbers wrap after the largest one. */
  function Following(n: W.u16): W.u16 { if n == 0xffff then 0 else n + 1 }

  /** The number in use after `k` completed sends. */
  function FollowingAll(n: W.u16, k: nat): W.u16 { if k == 0 then n else Following(FollowingAll(n, k - 1)) }

  /** Requests fewer than 65536 sends apart carry different numbers. */
  lemma SequencesDiffer(n: W.u16, k: nat)
    requires 0 < k < 0x1_0000
    ensures FollowingAll(n, k) != n
  {
    FollowingIs(n, k);
  }

  lemma {:induction false} FollowingIs(n: W.u16, k: nat)
    requires k < 0x1_0000
    ensures FollowingAll(n, k) == if n + k <= 0xffff then n + k else n + k - 0x1_0000
  {
    if k > 0 { FollowingIs(n, k - 1); }
  }

  /** The session when an exchange begins. */
  datatype Ledger = Ledger(stream: seq<byte>, taken: seq<byte>, published: seq<IpPacket>, dropped: u64, skipped: u64)

  datatype WriteOutcome = Written | WriteFailed | WriteTimedOut

  class IpSession {
    var incoming: seq<byte>
    ghost var taken: seq<byte>
    /** Packets whose write and flush completed. */
    var completed: seq<seq<byte>>
    var nextSequence: W.u16
    const maximumBody: nat
    const protocolVersion: byte
    var published: seq<IpPacket>
    var publishedBytes: nat
    const maximumPublished: nat
    const maximumPublishedBytes: nat
    const maximumUnmatched: nat
    var publishedDropped: u64
    var unmatchedSkipped: u64
    var usable: bool

    /** While the session is usable the stream stands at a packet boundary; the retained queue fits. */
    ghost predicate Valid()
      reads this
    {
      && (usable ==> Whole(taken))
      && Fits(published, BodySize, maximumPublished, maximumPublishedBytes)
      && publishedBytes == Bytes(published, BodySize)
    }

    constructor (stream: seq<byte>, body: nat, count: nat, bytes: nat, unmatched: nat)
      requires body <= MAXIMUM_IP_BODY_BYTES
      ensures Valid() && usable && incoming == stream && taken == [] && completed == [] && published == [] && nextSequence == 1
      ensures maximumBody == body && maximumPublished == count && maximumPublishedBytes == bytes && maximumUnmatched == unmatched
      ensures protocolVersion == 1
    {
      incoming, taken, completed, nextSequence := stream, [], [], 1;
      maximumBody, protocolVersion := body, 1;
      published, publishedBytes := [], 0;
      maximumPublished, maximumPublishedBytes, maximumUnmatched := count, bytes, unmatched;
      publishedDropped, unmatchedSkipped, usable := 0, 0, true;
    }

    method Send(messageType: MessageType, messageId: byte, body: seq<byte>, world: WriteOutcome)
      returns (r: Result<W.u16, IpError>)
      requires Valid()
      modifies this`completed, this`nextSequence, this`usable
      ensures Valid()
      ensures !old(usable) ==> r == Err(StreamUnusable) && !usable
      ensures old(usable) && |body| > MAXIMUM_IP_BODY_BYTES ==> r == Err(Length(|body|)) && usable
      ensures r.Ok? <==> old(usable) && |body| <= MAXIMUM_IP_BODY_BYTES && world.Written?
      ensures r.Ok? ==>
        && usable && r.value == old(nextSequence) && nextSequence == Following(old(nextSequence))
        && Encode(IpPacket(protocolVersion, messageType, messageId, 0, r.value, body)).Ok?
        && completed == old(completed) + [Encode(IpPacket(protocolVersion, messageType, messageId, 0, r.value, body)).value]
      ensures r.Err? ==> completed == old(completed) && nextSequence == old(nextSequence)
      ensures r.Err? && old(usable) && |body| <= MAXIMUM_IP_BODY_BYTES ==> !usable
    {
      if !usable { return Err(StreamUnusable); }
      if |body| > MAXIMUM_IP_BODY_BYTES { return Err(Length(|body|)); }
      var sequence := nextSequence;
      var encoded := Encode(IpPacket(protocolVersion, messageType, messageId, 0, sequence, body));
      match world {
        case WriteFailed =>
          usable := false;
          return Err(Io);
        case WriteTimedOut =>
          usable := false;
          return Err(Timeout);
        case Written =>
      }
      completed := completed + [encoded.value];
      nextSequence := Following(nextSequence);
      r := Ok(sequence);
    }

    /** Takes `n` bytes, or everything that arrives before the stream or the timer gives up. */
    method ReadExact(n: nat, budget: nat) returns (bytes: seq<byte>, complete: bool)
      modifies this`incoming, this`taken
      ensures complete <==> n <= Min(|old(incoming)|, budget)
      ensures var k := if complete then n else Min(|old(incoming)|, budget);
        bytes == old(incoming)[..k] && incoming == old(incoming)[k..] && taken == old(taken) + bytes
    {
      var available := Min(|incoming|, budget);
      complete := n <= available;
      var k := if complete then n else available;
      bytes := incoming[..k];
      incoming := incoming[k..];
      taken := taken + bytes;
    }

    /** Skips an oversized body through a fixed scratch buffer. */
    method DiscardExact(length: nat, budget: nat) returns (complete: bool)
      modifies this`incoming, this`taken
      ensures complete <==> length <= Min(|old(incoming)|, budget)
      ensures var k := if complete then length else Min(|old(incoming)|, budget);
        incoming == old(incoming)[k..] && taken == old(taken) + old(incoming)[..k]
    {
      hide At;
      var remaining := length;
      ghost var before, start := incoming, taken;
      Beginning(before, start);
      while remaining > 0
        invariant 0 <= remaining <= length && length - remaining <= Min(|before|, budget)
        invariant At(before, start, length - remaining)
      {
        var chunk := Min(remaining, 1024);
        var ok := SkipChunk(chunk, budget, before, start, length - remaining);
        if !ok { Position(before, start, Min(|before|, budget)); return false; }
        remaining := remaining - chunk;
      }
      Position(before, start, length);
      complete := true;
    }

    /** One read into the scratch buffer, seen from the beginning of the skip. */
    method SkipChunk(chunk: nat, budget: nat, ghost before: seq<byte>, ghost start: seq<byte>, done: nat)
      returns (complete: bool)
      requires At(before, start, done) && done <= Min(|before|, budget)
      modifies this`incoming, this`taken
      ensures complete <==> done + chunk <= Min(|before|, budget)
      ensures At(before, start, if complete then done + chunk else Min(|before|, budget))
    {
      Resume(start, before, done, if done + chunk <= Min(|before|, budget) then done + chunk else Min(|before|, budget));
      var bytes, ok := ReadExact(chunk, budget - done);
      complete := ok;
    }

    lemma Beginning(before: seq<byte>, start: seq<byte>)
      requires incoming == before && taken == start
      ensures At(before, start, 0)
    {}

    lemma Position(before: seq<byte>, start: seq<byte>, position: nat)
      requires At(before, start, position)
      ensures position <= |before| && incoming == before[position..] && taken == start + before[..position]
    {}

    method Receive(cut: nat) returns (r: Result<IpPacket, IpError>)
      requires Valid()
      modifies this`incoming, this`taken, this`usable
      ensures Valid()
      ensures !old(usable) ==> r == Err(StreamUnusable) && incoming == old(incoming) && !usable
      ensures old(usable) ==>
        var receipt := ReceiveFrom(old(incoming), cut, maximumBody);
        && r == receipt.result && usable == receipt.usable
        && incoming == old(incoming)[receipt.consumed..]
        && taken == old(taken) + old(incoming)[..receipt.consumed]
    {
      if !usable { return Err(StreamUnusable); }
      ghost var before, start := incoming, taken;
      ghost var receipt := ReceiveFrom(incoming, cut, maximumBody);
      ReceiveTakesOnePacket(incoming, cut, maximumBody);
      r := ReceiveUnbounded(cut);
      if r.Err? && (r.error.Io? || r.error.PacketLength? || r.error.Timeout?) {
        usable := false;
      }
      if receipt.usable {
        PacketIsWhole(before[..receipt.consumed]);
        WholeAppend(start, before[..receipt.consumed]);
      }
    }

    method ReceiveUnbounded(cut: nat) returns (r: Result<IpPacket, IpError>)
      modifies this`incoming, this`taken
      ensures var receipt := ReceiveFrom(old(incoming), cut, maximumBody);
        && r == receipt.result
        && incoming == old(incoming)[receipt.consumed..]
        && taken == old(taken) + old(incoming)[..receipt.consumed]
        && (receipt.usable <==> r.Ok? || !(r.error.Io? || r.error.PacketLength? || r.error.Timeout?))
    {
      hide Decode, Encode, IsPacket, W.BigEndian;
      ReceiveTakesOnePacket(incoming, cut, maximumBody);
      ghost var before, start := incoming, taken;
      var failure := if cut > |incoming| then Io else Timeout;
      var header, ok := ReadExact(HEADER_SIZE, cut);
      if !ok { return Err(failure); }
      assert header[6] == before[6] && header[7] == before[7];
      var total := W.BigEndian(header[6], header[7]);
      if total < HEADER_SIZE { return Err(PacketLength(total, HEADER_SIZE)); }
      r := ReceiveBody(header, total, cut, before, start);
    }

    /** The rest of a packet whose header has been read: skipped when oversized, decoded otherwise. */
    method ReceiveBody(header: seq<byte>, total: nat, cut: nat, ghost before: seq<byte>, ghost start: seq<byte>)
      returns (r: Result<IpPacket, IpError>)
      requires HEADER_SIZE <= total && HEADER_SIZE <= Min(|before|, cut) && header == before[..HEADER_SIZE]
      requires incoming == before[HEADER_SIZE..] && taken == start + header
      modifies this`incoming, this`taken
      ensures var available := Min(|before|, cut);
        var k := Min(total, available);
        && incoming == before[k..] && taken == start + before[..k]
        && r == if available < total then Err(if cut > |before| then Io else Timeout)
                else if total - HEADER_SIZE > maximumBody then Err(BodyLimit(total - HEADER_SIZE))
                else Decode(before[..total], maximumBody)
    {
      hide Decode;
      var failure := if cut > |incoming| + HEADER_SIZE then Io else Timeout;
      var length := total - HEADER_SIZE;
      Resume(start, before, HEADER_SIZE, Min(total, Min(|before|, cut)));
      if length > maximumBody {
        var skipped := DiscardExact(length, cut - HEADER_SIZE);
        if !skipped { return Err(failure); }
        return Err(BodyLimit(length));
      }
      var body, complete := ReadExact(length, cut - HEADER_SIZE);
      if !complete { return Err(failure); }
      assert header + body == before[..total];
      r := Decode(header + body, maximumBody);
    }

    method Exchange(messageId: byte, body: seq<byte>, world: WriteOutcome, timers: Timers)
      returns (r: Result<IpPacket, IpError>)
      requires Valid()
      modifies this
      ensures Valid()
      ensures r.Ok? ==>
        && usable && old(usable)
        && r.value.messageType.Response? && r.value.status == 0
        && r.value.sequence == old(nextSequence) && r.value.messageId == messageId && r.value.version == protocolVersion
      ensures !(old(usable) && world.Written? && |body| <= MAXIMUM_IP_BODY_BYTES) ==>
        r.Err? && incoming == old(incoming) && taken == old(taken) && published == old(published)
        && completed == old(completed) && nextSequence == old(nextSequence)
        && publishedDropped == old(publishedDropped) && unmatchedSkipped == old(unmatchedSkipped)
      ensures old(usable) && world.Written? && |body| <= MAXIMUM_IP_BODY_BYTES ==>
        var e := Expectation(protocolVersion, old(nextSequence), messageId, maximumBody, maximumUnmatched);
        var a := Await(old(incoming), timers, e, Progress(0, 0, 0, []));
        && nextSequence == Following(old(nextSequence))
        && Encode(IpPacket(protocolVersion, Request, messageId, 0, old(nextSequence), body)).Ok?
        && completed == old(completed) + [Encode(IpPacket(protocolVersion, Request, messageId, 0, old(nextSequence), body)).value]
        && r == a.result && usable == a.usable
        && incoming == old(incoming)[a.progress.position..]
        && taken == old(taken) + old(incoming)[..a.progress.position]
        && published == RetainAll(old(published), a.progress.published, maximumPublished, maximumPublishedBytes)
        && unmatchedSkipped == SaturatingAdd(old(unmatchedSkipped), a.progress.unmatched)
        && |published| <= |old(published)| + |a.progress.published|
        && publishedDropped
           == SaturatingAdd(old(publishedDropped), |old(published)| + |a.progress.published| - |published|)
    {
      hide Await, RetainAll, Encode, Bytes, Fits, Whole;
      var sending := Send(Request, messageId, body, world);
      if sending.Err? { return Err(sending.error); }
      r := AwaitResponse(sending.value, messageId, timers);
    }

    /** The receive loop of an exchange. */
    method AwaitResponse(sequence: W.u16, messageId: byte, timers: Timers) returns (r: Result<IpPacket, IpError>)
      requires Valid() && usable
      modifies this`incoming, this`taken, this`usable, this`published, this`publishedBytes, this`publishedDropped,
               this`unmatchedSkipped
      ensures Valid()
      ensures r.Ok? ==>
        && usable && r.value.messageType.Response? && r.value.status == 0
        && r.value.sequence == sequence && r.value.messageId == messageId && r.value.version == protocolVersion
      ensures
        var e := Expectation(protocolVersion, sequence, messageId, maximumBody, maximumUnmatched);
        var a := Await(old(incoming), timers, e, Progress(0, 0, 0, []));
        && r == a.result && usable == a.usable
        && incoming == old(incoming)[a.progress.position..]
        && taken == old(taken) + old(incoming)[..a.progress.position]
        && published == RetainAll(old(published), a.progress.published, maximumPublished, maximumPublishedBytes)
        && unmatchedSkipped == SaturatingAdd(old(unmatchedSkipped), a.progress.unmatched)
        && |published| <= |old(published)| + |a.progress.published|
        && publishedDropped
           == SaturatingAdd(old(publishedDropped), |old(published)| + |a.progress.published| - |published|)
    {
      hide Await, ReceiveFrom, Judge, RetainAll, Encode, Bytes, Fits, Whole, Tracked;
      ghost var ledger := Ledger(incoming, taken, published, publishedDropped, unmatchedSkipped);
      ghost var e := Expectation(protocolVersion, sequence, messageId, maximumBody, maximumUnmatched);
      ghost var g := Progress(0, 0, 0, []);
      EmptyIsWhole(ledger.stream);
      ExchangeKeepsFraming(ledger.stream, timers, e, g);
      ghost var whole := Await(ledger.stream, timers, e, g);
      var unmatched, k := 0, 0;
      var outcome: Option<Result<IpPacket, IpError>> := None;
      TrackedFirst(ledger);
      while outcome.None?
        invariant Valid() && Tracked(ledger, g) && g.receives == k && g.unmatched == unmatched
        invariant g.position <= |ledger.stream|
        invariant outcome.None? ==> usable && unmatched <= maximumUnmatched && Await(ledger.stream, timers, e, g) == whole
        invariant outcome.Some? ==> whole == Awaited(outcome.value, g.(receives := whole.progress.receives), usable)
        decreases outcome.None?, |incoming|
      {
        AwaitUnfolds(ledger.stream, timers, e, g);
        if timers.expires(k) {
          Expire(ledger, g);
          outcome := Some(Err(Timeout));
        } else {
          outcome, unmatched, g := AwaitOne(timers.cut(k), sequence, messageId, unmatched, ledger, g);
          k := k + 1;
        }
      }
      TrackedMeans(ledger, g);
      r := outcome.value;
    }

    /** How the session stands since the exchange began. */
    ghost predicate Tracked(ledger: Ledger, g: Progress)
      reads this
    {
      && At(ledger.stream, ledger.taken, g.position)
      && published == RetainAll(ledger.published, g.published, maximumPublished, maximumPublishedBytes)
      && unmatchedSkipped == SaturatingAdd(ledger.skipped, g.unmatched)
      && |published| <= |ledger.published| + |g.published|
      && publishedDropped == SaturatingAdd(ledger.dropped, |ledger.published| + |g.published| - |published|)
    }

    lemma TrackedFirst(ledger: Ledger)
      requires ledger == Ledger(incoming, taken, published, publishedDropped, unmatchedSkipped)
      ensures Tracked(ledger, Progress(0, 0, 0, []))
    {
      hide RetainAll;
      Beginning(incoming, taken);
      RetainNone(published, maximumPublished, maximumPublishedBytes);
    }

    lemma TrackedMeans(ledger: Ledger, g: Progress)
      requires Tracked(ledger, g)
      ensures g.position <= |ledger.stream| && incoming == ledger.stream[g.position..]
      ensures taken == ledger.taken + ledger.stream[..g.position]
      ensures published == RetainAll(ledger.published, g.published, maximumPublished, maximumPublishedBytes)
      ensures unmatchedSkipped == SaturatingAdd(ledger.skipped, g.unmatched)
      ensures |published| <= |ledger.published| + |g.published|
      ensures publishedDropped == SaturatingAdd(ledger.dropped, |ledger.published| + |g.published| - |published|)
    {}

    /** The exchange timer fires between two receives. */
    method Expire(ghost ledger: Ledger, ghost g: Progress)
      requires Valid() && Tracked(ledger, g)
      modifies this`usable
      ensures Valid() && Tracked(ledger, g) && !usable
    {
      usable := false;
    }

    /** One turn of the receive loop. */
    method AwaitOne(cut: nat, sequence: W.u16, messageId: byte, skipped: nat, ghost ledger: Ledger, ghost g: Progress)
      returns (outcome: Option<Result<IpPacket, IpError>>, unmatched: nat, ghost next: Progress)
      requires Valid() && usable && Tracked(ledger, g) && g.unmatched == skipped && g.position <= |ledger.stream|
      modifies this`incoming, this`taken, this`usable, this`published, this`publishedBytes, this`publishedDropped,
               this`unmatchedSkipped
      ensures Valid() && Tracked(ledger, next)
      ensures next.unmatched == unmatched && next.receives == g.receives + 1 && next.position <= |ledger.stream|
      ensures var receipt := ReceiveFrom(ledger.stream[g.position..], cut, maximumBody);
        var e := Expectation(protocolVersion, sequence, messageId, maximumBody, maximumUnmatched);
        if receipt.result.Err? then
          && outcome == Some(receipt.result) && usable == receipt.usable
          && next == g.(position := g.position + receipt.consumed, receives := g.receives + 1)
        else
          && usable && |incoming| < |old(incoming)|
          && next == Advance(g, receipt.result.value, receipt.consumed, e)
          && match Judge(receipt.result.value, e, skipped)
             case Done(result) => outcome == Some(result)
             case Onward => outcome.None? && (unmatched <= maximumUnmatched || unmatched == skipped)
    {
      hide ReceiveFrom, Judge, Stale, RetainAll, Retain, Bytes, Fits, Whole;
      ghost var receipt := ReceiveFrom(ledger.stream[g.position..], cut, maximumBody);
      var received := ReceiveAt(cut, ledger.stream, ledger.taken, g.position);
      if received.Err? {
        next := g.(position := g.position + receipt.consumed, receives := g.receives + 1);
        return Some(received), skipped, next;
      }
      var packet := received.value;
      RetainAllAppend(ledger.published, g.published, packet, maximumPublished, maximumPublishedBytes);
      next := Advance(g, packet, receipt.consumed, Expectation(protocolVersion, sequence, messageId, maximumBody, maximumUnmatched));
      var verdict;
      verdict, unmatched := Weigh(packet, sequence, messageId, skipped);
      outcome := if verdict.Done? then Some(verdict.result) else None;
    }

    /** `position` bytes of the stream `before` have been taken since `start`. */
    ghost predicate At(before: seq<byte>, start: seq<byte>, position: nat)
      reads this
    {
      position <= |before| && incoming == before[position..] && taken == start + before[..position]
    }

    /** A receive seen from the beginning of the exchange. */
    method ReceiveAt(cut: nat, ghost before: seq<byte>, ghost start: seq<byte>, ghost position: nat)
      returns (r: Result<IpPacket, IpError>)
      requires Valid() && usable && At(before, start, position)
      modifies this`incoming, this`taken, this`usable
      ensures Valid()
      ensures var receipt := ReceiveFrom(before[position..], cut, maximumBody);
        && r == receipt.result && usable == receipt.usable
        && At(before, start, position + receipt.consumed)
        && (r.Ok? ==> usable && |incoming| < |old(incoming)|)
    {
      hide ReceiveFrom, Whole, Fits, Bytes, IsPacket, Encode;
      ghost var receipt := ReceiveFrom(incoming, cut, maximumBody);
      ReceiveTakesOnePacket(incoming, cut, maximumBody);
      Resume(start, before, position, position + receipt.consumed);
      r := Receive(cut);
    }

    /** What the exchange does with one received packet. */
    method Weigh(packet: IpPacket, sequence: W.u16, messageId: byte, skipped: nat) returns (verdict: Verdict, unmatched: nat)
      requires Valid()
      modifies this`published, this`publishedBytes, this`publishedDropped, this`unmatchedSkipped
      ensures Valid()
      ensures verdict == Judge(packet, Expectation(protocolVersion, sequence, messageId, maximumBody, maximumUnmatched), skipped)
      ensures verdict.Onward? ==> unmatched <= maximumUnmatched || unmatched == skipped
      ensures unmatched == skipped + if Stale(packet, protocolVersion, sequence, messageId) then 1 else 0
      ensures unmatchedSkipped == SaturatingAdd(old(unmatchedSkipped), unmatched - skipped)
      ensures var heard := if packet.version == protocolVersion && packet.messageType.Publish? then 1 else 0;
        && |published| <= |old(published)| + heard
        && publishedDropped == SaturatingAdd(old(publishedDropped), |old(published)| + heard - |published|)
      ensures published == if packet.version == protocolVersion && packet.messageType.Publish?
                           then Retain(old(published), packet, maximumPublished, maximumPublishedBytes)
                           else old(published)
    {
      hide Retain, Whole, Fits, Bytes;
      unmatched := skipped;
      if packet.version != protocolVersion {
        verdict := Done(Err(ProtocolVersion(protocolVersion, packet.version)));
      } else if packet.messageType.Publish? {
        RetainPublished(packet);
        verdict := Onward;
      } else if packet.sequence != sequence || packet.messageId != messageId {
        unmatched := unmatched + 1;
        unmatchedSkipped := SaturatingAdd(unmatchedSkipped, 1);
        verdict := if unmatched > maximumUnmatched then Done(Err(Sequence)) else Onward;
      } else if packet.messageType.Nak? {
        verdict := Done(Err(RemoteStatus(packet.status)));
      } else if !packet.messageType.Response? {
        verdict := Done(Err(UnexpectedMessageType(packet.messageType)));
      } else if packet.status != 0 {
        verdict := Done(Err(RemoteStatus(packet.status)));
      } else {
        verdict := Done(Ok(packet));
      }
    }

    method RetainPublished(packet: IpPacket)
      requires Valid()
      modifies this`published, this`publishedBytes, this`publishedDropped
      ensures Valid()
      ensures published == Retain(old(published), packet, maximumPublished, maximumPublishedBytes)
      ensures |published| <= |old(published)| + 1
      ensures publishedDropped == SaturatingAdd(old(publishedDropped), |old(published)| + 1 - |published|)
    {
      hide Bytes, Fitting, Whole;
      var size := BodySize(packet);
      if maximumPublished == 0 || maximumPublishedBytes == 0 || size > maximumPublishedBytes {
        publishedDropped := SaturatingAdd(publishedDropped, 1);
        return;
      }
      ghost var queue := published;
      ghost var k := 0;
      BytesOne(packet, BodySize);
      NoBodies();
      assert queue[0..] == queue;
      while |published| >= maximumPublished || publishedBytes + size > maximumPublishedBytes
        invariant 0 <= k <= |queue| && published == queue[k..] && usable == old(usable)
        invariant publishedBytes == Bytes(published, BodySize)
        invariant publishedDropped == SaturatingAdd(old(publishedDropped), k)
        invariant forall j :: 0 <= j < k ==> !Fits(queue[j..] + [packet], BodySize, maximumPublished, maximumPublishedBytes)
        decreases |published|
      {
        BytesAppend(published, [packet], BodySize);
        if published == [] {
          break;
        }
        FrontBody(published);
        assert queue[k..][1..] == queue[k + 1..];
        publishedBytes := publishedBytes - BodySize(published[0]);
        published := published[1..];
        publishedDropped := SaturatingAdd(publishedDropped, 1);
        k := k + 1;
      }
      BytesAppend(published, [packet], BodySize);
      EvictedFront(queue, k, packet, BodySize, maximumPublished, maximumPublishedBytes);
      publishedBytes := publishedBytes + size;
      published := published + [packet];
    }

    method TakePublished() returns (packet: Option<IpPacket>)
      requires Valid()
      modifies this`published, this`publishedBytes
      ensures Valid()
      ensures packet.None? <==> old(published) == []
      ensures packet.None? ==> published == []
      ensures packet.Some? ==> packet.value == old(published)[0] && published == old(published)[1..]
    {
      if published == [] { return None; }
      FrontBody(published);
      packet := Some(published[0]);
      publishedBytes := publishedBytes - BodySize(published[0]);
      published := published[1..];
    }
  }

  lemma NoBodies()
    ensures Bytes<IpPacket>([], BodySize) == 0
  {}

  lemma FrontBody(queue: seq<IpPacket>)
    requires queue != []
    ensures Bytes(queue, BodySize) == BodySize(queue[0]) + Bytes(queue[1..], BodySize)
  {}

  lemma RetainNone(queue: seq<IpPacket>, count: nat, bytes: nat)
    ensures RetainAll(queue, [], count, bytes) == queue
  {}

  /** Continuing to read after `a` bytes. */
  lemma Resume(start: seq<byte>, stream: seq<byte>, a: nat, b: nat)
    requires a <= b <= |stream|
    ensures start + stream[..a] + stream[a..b] == start + stream[..b]
    ensures stream[a..][b - a..] == stream[b..] && stream[a..][..b - a] == stream[a..b]
  {
    assert stream[..a] + stream[a..b] == stream[..b];
    assert start + stream[..a] + stream[a..b] == start + (stream[..a] + stream[a..b]);
  }

  lemma EmptyIsWhole(stream: seq<byte>)
    ensures Whole(stream[..0])
  {}

  lemma AwaitUnfolds(stream: seq<byte>, t: Timers, e: Expectation, g: Progress)
    requires g.position <= |stream|
    ensures var a := Await(stream, t, e, g);
      var r := ReceiveFrom(stream[g.position..], t.cut(g.receives), e.maximumBody);
      if t.expires(g.receives) then a == Awaited(Err(Timeout), g, false)
      else if r.result.Err? then
        a == Awaited(r.result, g.(position := g.position + r.consumed, receives := g.receives + 1), r.usable)
      else
        var next := Advance(g, r.result.value, r.consumed, e);
        match Judge(r.result.value, e, g.unmatched)
        case Done(result) => a == Awaited(result, next, true)
        case Onward => next.position <= |stream| && a == Await(stream, t, e, next)
  {
    hide ReceiveFrom, Judge;
  }
}
