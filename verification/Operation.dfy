/**
  Requests and replies (src/operation/mod.rs): how a logical command number
  travels in a frame, through Command 31 when it needs sixteen bits.
 */
module Operation {
  import opened Basics
  import opened Wire

  /** A logical command number: the full 16-bit space. */
  type CommandCode = u16

  datatype Safety = ReadOnly | IdempotentWrite | Action

  datatype Request = Request(
    address: Address,
    command: CommandCode,
    data: seq<byte>,
    preambles: nat,
    frameExpansion: seq<byte>,
    physicalLayer: PhysicalLayer,
    retrySafety: Option<Safety>
  )

  datatype DeviceReply = DeviceReply(
    address: Address,
    command: CommandCode,
    responseCode: byte,
    deviceStatus: byte,
    data: seq<byte>,
    burst: bool,
    physicalLayer: PhysicalLayer,
    responsePreambles: nat,
    frameExpansion: seq<byte>
  )

  datatype OperationError = WireFault(error: WireError) | WrongKind | TooShort(offset: nat)

  const EXPANDED_COMMAND: byte := 31

  predicate IsExpanded(c: CommandCode) { c > 255 }

  function ToFrame(r: Request): Result<Frame, OperationError> {
    var length := |r.data| + if IsExpanded(r.command) then 2 else 0;
    if length > 255 then Err(WireFault(PayloadLength(length)))
    else if |r.frameExpansion| > 3 then Err(WireFault(ExpansionLength(|r.frameExpansion|)))
    else
      Ok(Frame(
        r.preambles, FrameKind.Request, r.physicalLayer, r.address, r.frameExpansion,
        if IsExpanded(r.command) then EXPANDED_COMMAND else ByteOf(r.command),
        if IsExpanded(r.command) then [HighByte(r.command), LowByte(r.command)] + r.data else r.data,
        None))
  }

  function FromFrame(f: Frame): Result<DeviceReply, OperationError> {
    if f.kind.Request? then Err(WrongKind)
    else if |f.payload| < 2 then Err(TooShort(|f.payload|))
    else if f.wireCommand == EXPANDED_COMMAND && |f.payload| < 4 then Err(TooShort(|f.payload|))
    else
      var expanded := f.wireCommand == EXPANDED_COMMAND;
      Ok(DeviceReply(
        f.address,
        if expanded then BigEndian(f.payload[2], f.payload[3]) else ValueOf(f.wireCommand),
        f.payload[0], f.payload[1],
        if expanded then f.payload[4..] else f.payload[2..],
        f.kind.Burst?, f.physicalLayer, f.preambles, f.expansion))
  }

  /** The logical command of a request frame, as the exchange expects it back. */
  function LogicalCommand(f: Frame): CommandCode {
    if f.wireCommand == EXPANDED_COMMAND && |f.payload| >= 2 then BigEndian(f.payload[0], f.payload[1])
    else ValueOf(f.wireCommand)
  }

  /**
    The number expected back is the number requested, except for raw requests
    of Command 31 itself whose data happens to name another command.
   */
  lemma LogicalCommandExact(r: Request)
    requires ToFrame(r).Ok?
    ensures LogicalCommand(ToFrame(r).value) == r.command
      <==> !(r.command == 31 && |r.data| >= 2 && BigEndian(r.data[0], r.data[1]) != 31)
  {
    hide ByteOf, BigEndian, HighByte, LowByte;
    var f := ToFrame(r).value;
    if IsExpanded(r.command) {
      BigEndianBack(r.command);
      assert f.payload[0] == HighByte(r.command) && f.payload[1] == LowByte(r.command);
    } else {
      ThirtyOne(r.command);
    }
  }

  lemma ThirtyOne(n: nat)
    requires n <= 255
    ensures (ByteOf(n) == EXPANDED_COMMAND) == (n == 31)
  {
    hide ByteOf;
    assert ValueOf(EXPANDED_COMMAND) == 31;
    if n == 31 { SameValue(ByteOf(n), EXPANDED_COMMAND); }
  }

  /** Raw Command 31 with data naming command 300 is mistaken for command 300. */
  lemma RawCommand31IsAmbiguous()
    ensures var r := Request.Request(Polling(1, Primary), 31, [1, 44], 5, [], Fsk, None);
      ToFrame(r).Ok? && LogicalCommand(ToFrame(r).value) == 300 != r.command
  {
    var r := Request.Request(Polling(1, Primary), 31, [1, 44], 5, [], Fsk, None);
    ThirtyOne(31);
    assert ToFrame(r).value.payload == [1, 44];
  }

  // ----------------------------------------------------- the device's side

  /** How a device reads a request frame: the command it is asked for, and its data. */
  function AskedFor(f: Frame): Option<(CommandCode, seq<byte>)> {
    if !f.kind.Request? then None
    else if f.wireCommand == EXPANDED_COMMAND && |f.payload| >= 2
    then Some((BigEndian(f.payload[0], f.payload[1]), f.payload[2..]))
    else Some((ValueOf(f.wireCommand), f.payload))
  }

  /**
    A request is framed exactly when its payload and expansion fit, and the frame
    carries its address, layer, preambles and expansion.
   */
  lemma RequestFramed(r: Request)
    ensures ToFrame(r).Ok? <==> |r.data| + (if r.command > 255 then 2 else 0) <= 255 && |r.frameExpansion| <= 3
    ensures ToFrame(r).Ok? ==>
      var f := ToFrame(r).value;
      && f.kind.Request? && f.repair.None? && f.address == r.address && f.preambles == r.preambles
      && f.physicalLayer == r.physicalLayer && f.expansion == r.frameExpansion && |f.payload| <= 255
  {}

  /** The device reads the command and the data that were requested, unless raw Command 31 carries two bytes or more. */
  lemma RequestRoundTrip(r: Request)
    requires ToFrame(r).Ok?
    ensures AskedFor(ToFrame(r).value) == Some((r.command, r.data)) <==> !(r.command == 31 && |r.data| >= 2)
  {
    hide ByteOf, BigEndian, HighByte, LowByte;
    var f := ToFrame(r).value;
    if IsExpanded(r.command) {
      ExpandedRequest(r);
    } else {
      ThirtyOne(r.command);
      if r.command == 31 && |r.data| >= 2 { assert |f.payload[2..]| < |r.data|; }
    }
  }

  lemma ExpandedRequest(r: Request)
    requires ToFrame(r).Ok? && IsExpanded(r.command)
    ensures AskedFor(ToFrame(r).value) == Some((r.command, r.data))
  {
    hide BigEndian, HighByte, LowByte;
    BigEndianBack(r.command);
    var f := ToFrame(r).value;
    assert f.payload == [HighByte(r.command), LowByte(r.command)] + r.data;
    assert f.payload[2..] == r.data;
  }

  /** So two such requests with the same frame ask for the same thing. */
  lemma FramesDiffer(q: Request, r: Request)
    requires ToFrame(q).Ok? && ToFrame(r).Ok? && ToFrame(q).value == ToFrame(r).value
    requires !(q.command == 31 && |q.data| >= 2) && !(r.command == 31 && |r.data| >= 2)
    ensures q == r.(retrySafety := q.retrySafety)
  {
    hide ToFrame, AskedFor;
    RequestFramed(q);
    RequestFramed(r);
    RequestRoundTrip(q);
    RequestRoundTrip(r);
  }

  /** What a device that answers a request sends back: the same command, in the form the request used. */
  function ReplyPayload(c: CommandCode, code: byte, status: byte, data: seq<byte>): seq<byte> {
    [code, status] + (if IsExpanded(c) then [HighByte(c), LowByte(c)] else []) + data
  }

  /** The answer frame a device sends for a request. */
  function AnswerFrame(r: Request, kind: FrameKind, code: byte, status: byte, data: seq<byte>): Frame
    requires ToFrame(r).Ok?
  {
    ToFrame(r).value.(kind := kind, payload := ReplyPayload(r.command, code, status, data))
  }

  /**
    Command 31 normalisation is lossless exactly for commands other than 31:
    an answer reads back with the command and data that were sent if and only
    if the command is not 31, and then it is the answer the exchange expects.
   */
  lemma ReplyRoundTrip(r: Request, kind: FrameKind, code: byte, status: byte, data: seq<byte>)
    requires ToFrame(r).Ok? && !kind.Request?
    ensures var back := FromFrame(AnswerFrame(r, kind, code, status, data));
      && ((back.Ok? && back.value.command == r.command && back.value.data == data) <==> r.command != 31)
      && (r.command != 31 ==> back.value.command == LogicalCommand(ToFrame(r).value))
      && (back.Ok? ==>
           && back.value.responseCode == code && back.value.deviceStatus == status && back.value.burst == kind.Burst?
           && back.value.address == r.address && back.value.physicalLayer == r.physicalLayer
           && back.value.frameExpansion == r.frameExpansion && back.value.responsePreambles == r.preambles)
  {
    if r.command == 31 {
      RawReplyRead(r, kind, code, status, data);
    } else {
      hide ByteOf, BigEndian, HighByte, LowByte;
      LogicalCommandExact(r);
      var f := AnswerFrame(r, kind, code, status, data);
      if IsExpanded(r.command) {
        BigEndianBack(r.command);
        assert f.payload[2] == HighByte(r.command) && f.payload[3] == LowByte(r.command);
        assert f.payload[4..] == data;
      } else {
        ThirtyOne(r.command);
        assert f.payload[2..] == data;
      }
    }
  }

  /** Which frames are not replies, and why. */
  lemma ReplyRefused(f: Frame)
    ensures FromFrame(f) == Err(WrongKind) <==> f.kind.Request?
    ensures FromFrame(f).Err? <==>
      f.kind.Request? || |f.payload| < 2 || (f.wireCommand == EXPANDED_COMMAND && |f.payload| < 4)
    ensures FromFrame(f).Err? && !f.kind.Request? ==> FromFrame(f) == Err(TooShort(|f.payload|))
  {
    hide BigEndian;
  }

  /** What becomes of an answer to raw Command 31: too short, or its first two data bytes read as a command. */
  lemma RawReplyRead(r: Request, kind: FrameKind, code: byte, status: byte, data: seq<byte>)
    requires ToFrame(r).Ok? && !kind.Request? && r.command == 31
    ensures var back := FromFrame(AnswerFrame(r, kind, code, status, data));
      && (|data| < 2 ==> back == Err(TooShort(2 + |data|)))
      && (|data| >= 2 ==>
           && back.Ok? && back.value.command == BigEndian(data[0], data[1]) && back.value.data == data[2..]
           && back.value.responseCode == code && back.value.deviceStatus == status && back.value.burst == kind.Burst?)
  {
    hide ByteOf, BigEndian;
    ThirtyOne(31);
    var f := AnswerFrame(r, kind, code, status, data);
    assert f.payload == [code, status] + data;
    if |data| >= 2 {
      assert f.payload[2] == data[0] && f.payload[3] == data[1];
      assert f.payload[4..] == data[2..];
    }
  }

  /** Two answers to raw Command 31: one byte of data is refused, three come back as one of command 300. */
  lemma RawRepliesLost()
    ensures var r := Request.Request(Polling(1, Primary), 31, [], 5, [], Fsk, None);
      && ToFrame(r).Ok? && LogicalCommand(ToFrame(r).value) == r.command
      && FromFrame(AnswerFrame(r, Response, 0, 0, [7])) == Err(TooShort(3))
      && var back := FromFrame(AnswerFrame(r, Response, 0, 0, [1, 44, 9]));
         back.Ok? && back.value.command == 300 && back.value.data == [9]
  {
    var r := Request.Request(Polling(1, Primary), 31, [], 5, [], Fsk, None);
    LogicalCommandExact(r);
    RawReplyRead(r, Response, 0, 0, [7]);
    RawReplyRead(r, Response, 0, 0, [1, 44, 9]);
  }
}
