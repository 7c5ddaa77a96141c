/**
  One request-response exchange of the link runner (src/service/link.rs,
  `exchange` and `exchange_once`): listening for the matching reply and
  repeating the transmission within three independent budgets.  The channel
  and the clock are inputs: any of them may answer anything at any time.
 */
module Exchange {
  import opened Basics
  import opened Wire
  import opened Decoder
  import opened Fragmentation
  import opened RoundTrip
  import opened Operation

  datatype RetryPolicy = RetryPolicy(
    transportRetries: nat, busyRetries: nat, delayedResponsePolls: nat,
    retryDelay: nat, responseTimeout: nat, totalTimeout: nat
  )

  datatype ExchangeError =
    | Deadline
    | ResponseTimeout
    | SendTimeout
    | Busy(code: byte)
    | DelayedResponse(code: byte)
    | ChannelFault
    | WireFailure(wire: WireError)
    | OperationFailure(operation: OperationError)
    | RunnerStopped

  type Reply = Result<DeviceReply, ExchangeError>

  // --------------------------------------------------------------- listening

  datatype SendOutcome = Sent | SendFailed | SendTimedOut

  /** One completed receive; an empty `Bytes` is a closed channel. */
  datatype ReadOutcome = Bytes(bytes: seq<byte>) | Oversized | ReadTimedOut | ReadFailed

  /** What the channel does during one attempt; the response deadline follows the last read. */
  datatype Attempt = Attempt(send: SendOutcome, inputs: seq<ReadOutcome>)

  /** The reply answers the request frame `f`. */
  predicate Answers(reply: DeviceReply, f: Frame) {
    && reply.command == LogicalCommand(f)
    && reply.address == f.address
    && reply.physicalLayer == f.physicalLayer
    && reply.frameExpansion == f.expansion
  }

  predicate IsEcho(g: Frame, f: Frame) {
    && g.kind.Request? && g.wireCommand == f.wireCommand && g.address == f.address
    && g.physicalLayer == f.physicalLayer && g.expansion == f.expansion && g.payload == f.payload
  }

  /** The reply an event delivers to the exchange, if it does. */
  function Delivers(e: DecodeEvent, f: Frame): Option<DeviceReply> {
    if e.Rejected? || IsEcho(e.frame, f) then None
    else
      match FromFrame(e.frame)
      case Err(_) => None
      case Ok(reply) => if reply.burst || !Answers(reply, f) then None else Some(reply)
  }

  function FirstMatch(events: seq<DecodeEvent>, f: Frame): Option<DeviceReply> {
    if events == [] then None
    else if Delivers(events[0], f).Some? then Delivers(events[0], f)
    else FirstMatch(events[1..], f)
  }

  datatype Heard = Heard(reply: Reply, buffer: seq<byte>, usable: bool)

  /** Receiving until a match, a fault or the deadline. */
  function Listen(buffer: seq<byte>, inputs: seq<ReadOutcome>, f: Frame, l: DecodeLimits): Heard
    decreases |inputs|
  {
    if inputs == [] then Heard(Err(ResponseTimeout), buffer, true)
    else
      match inputs[0]
      case ReadTimedOut => Heard(Err(ResponseTimeout), buffer, true)
      case ReadFailed => Heard(Err(ChannelFault), buffer, false)
      case Oversized => Heard(Err(ChannelFault), buffer, false)
      case Bytes(bytes) =>
        if bytes == [] then Heard(Err(ChannelFault), buffer, false)
        else
          var p := PushOne(buffer, bytes, l);
          match FirstMatch(p.events, f)
          case Some(reply) => Heard(Ok(reply), p.rest, true)
          case None => Listen(p.rest, inputs[1..], f, l)
  }

  lemma {:induction false} FirstMatchAppend(a: seq<DecodeEvent>, b: seq<DecodeEvent>, f: Frame)
    ensures FirstMatch(a + b, f) == if FirstMatch(a, f).Some? then FirstMatch(a, f) else FirstMatch(b, f)
  {
    hide Delivers;
    if a == [] {
      assert a + b == b;
    } else {
      FirstMatchAppend(a[1..], b, f);
      assert (a + b)[1..] == a[1..] + b;
    }
  }

  /** An event brings this reply. */
  predicate Brings(e: DecodeEvent, r: DeviceReply, f: Frame) {
    && e.Received? && FromFrame(e.frame) == Ok(r) && !r.burst
    && r.command == LogicalCommand(f) && r.address == f.address
    && r.physicalLayer == f.physicalLayer && r.frameExpansion == f.expansion
  }

  /** The match is exactly the first reply that answers the request; echoes, refusals, bursts and strangers do not matter. */
  lemma {:induction false} FirstMatchExact(events: seq<DecodeEvent>, f: Frame, r: DeviceReply)
    ensures FirstMatch(events, f) == Some(r) <==>
      exists i :: 0 <= i < |events| && Brings(events[i], r, f)
        && forall j, other :: 0 <= j < i ==> !Brings(events[j], other, f)
  {
    if events != [] {
      hide FromFrame, LogicalCommand;
      DeliversExact(events[0], f);
      FirstMatchExact(events[1..], f, r);
      if Delivers(events[0], f).None? {
        if FirstMatch(events[1..], f) == Some(r) {
          var i :| 0 <= i < |events[1..]| && Brings(events[1..][i], r, f)
            && forall j, other :: 0 <= j < i ==> !Brings(events[1..][j], other, f);
          assert Brings(events[i + 1], r, f);
          forall j, other | 0 <= j < i + 1 ensures !Brings(events[j], other, f) {
            if j > 0 { assert events[j] == events[1..][j - 1]; }
          }
        }
        if i :| 0 <= i < |events| && Brings(events[i], r, f) && forall j, other :: 0 <= j < i ==> !Brings(events[j], other, f) {
          assert i > 0;
          assert Brings(events[1..][i - 1], r, f);
          forall j, other | 0 <= j < i - 1 ensures !Brings(events[1..][j], other, f) { assert events[1..][j] == events[j + 1]; }
        }
      }
    }
  }

  lemma DeliversExact(e: DecodeEvent, f: Frame)
    ensures Delivers(e, f).Some? ==> Brings(e, Delivers(e, f).value, f)
    ensures forall r :: Brings(e, r, f) ==> Delivers(e, f) == Some(r)
  {}

  /** A match is a non-burst reply to this very request. */
  lemma {:induction false} MatchAnswers(events: seq<DecodeEvent>, f: Frame)
    ensures var r := FirstMatch(events, f);
      r.Some? ==>
        && !r.value.burst && Answers(r.value, f)
        && exists i :: 0 <= i < |events| && events[i].Received? && FromFrame(events[i].frame) == Ok(r.value)
  {
    if events != [] {
      if Delivers(events[0], f).None? {
        MatchAnswers(events[1..], f);
        if FirstMatch(events[1..], f).Some? {
          var i :| 0 <= i < |events[1..]| && events[1..][i].Received?
            && FromFrame(events[1..][i].frame) == Ok(FirstMatch(events, f).value);
          assert events[i + 1] == events[1..][i];
        }
      } else {
        assert events[0].Received?;
      }
    }
  }

  /** Whatever the channel does, a reply handed to the caller answers the request. */
  lemma {:induction false} HeardReplyAnswers(buffer: seq<byte>, inputs: seq<ReadOutcome>, f: Frame, l: DecodeLimits)
    ensures var h := Listen(buffer, inputs, f, l);
      h.reply.Ok? ==>
        && !h.reply.value.burst && Answers(h.reply.value, f) && h.usable
        && h.reply.value.command == LogicalCommand(f) && h.reply.value.address == f.address
        && h.reply.value.physicalLayer == f.physicalLayer && h.reply.value.frameExpansion == f.expansion
    decreases |inputs|
  {
    hide PushOne, FirstMatch;
    if inputs != [] && inputs[0].Bytes? && inputs[0].bytes != [] {
      var p := PushOne(buffer, inputs[0].bytes, l);
      MatchAnswers(p.events, f);
      HeardReplyAnswers(p.rest, inputs[1..], f, l);
    }
  }

  function AsReads(fragments: seq<seq<byte>>): seq<ReadOutcome> {
    seq(|fragments|, i requires 0 <= i < |fragments| => Bytes(fragments[i]))
  }

  /** With plain inputs only, the outcome is the first match among all events. */
  lemma {:induction false} ListenToFragments(buffer: seq<byte>, fragments: seq<seq<byte>>, f: Frame, l: DecodeLimits)
    requires forall i :: 0 <= i < |fragments| ==> fragments[i] != []
    ensures var match_ := FirstMatch(PushAll(buffer, fragments, l).events, f);
      Listen(buffer, AsReads(fragments), f, l).reply == if match_.Some? then Ok(match_.value) else Err(ResponseTimeout)
    decreases |fragments|
  {
    hide PushOne, FirstMatch;
    if fragments == [] {
      assert FirstMatch([], f).None? by { NoMatchInNothing(f); }
    } else {
      var p := PushOne(buffer, fragments[0], l);
      assert AsReads(fragments)[1..] == AsReads(fragments[1..]);
      ListenToFragments(p.rest, fragments[1..], f, l);
      FirstMatchAppend(p.events, PushAll(p.rest, fragments[1..], l).events, f);
    }
  }

  lemma NoMatchInNothing(f: Frame)
    ensures FirstMatch([], f).None?
  {}

  /** What ends the wait when no reply was found before: silence, or a fault that costs the channel. */
  lemma {:induction false} ListenEnds(buffer: seq<byte>, fragments: seq<seq<byte>>, x: ReadOutcome, more: seq<ReadOutcome>,
                                      f: Frame, l: DecodeLimits)
    requires (forall i :: 0 <= i < |fragments| ==> fragments[i] != []) && !(x.Bytes? && x.bytes != [])
    ensures var found := FirstMatch(PushAll(buffer, fragments, l).events, f);
      var h := Listen(buffer, AsReads(fragments) + [x] + more, f, l);
      if found.Some? then h.reply == Ok(found.value) && h.usable
      else
        && h.reply == Err(if x.ReadTimedOut? then ResponseTimeout else ChannelFault) && h.usable == x.ReadTimedOut?
        && h.buffer == PushAll(buffer, fragments, l).rest
    decreases |fragments|
  {
    hide PushOne, FirstMatch;
    NoMatchInNothing(f);
    var inputs := AsReads(fragments) + [x] + more;
    if fragments == [] {
      assert inputs[0] == x;
    } else {
      var p := PushOne(buffer, fragments[0], l);
      assert inputs[0] == Bytes(fragments[0]) && inputs[1..] == AsReads(fragments[1..]) + [x] + more;
      ListenEnds(p.rest, fragments[1..], x, more, f, l);
      FirstMatchAppend(p.events, PushAll(p.rest, fragments[1..], l).events, f);
    }
  }

  /** So the reply found depends on the bytes alone, not on how they arrived. */
  lemma ReplyIndependentOfReads(buffer: seq<byte>, fragments: seq<seq<byte>>, f: Frame, l: DecodeLimits)
    requires Effective(l) && Settled(buffer, l) && Unclipped(buffer, fragments, l)
    requires forall i :: 0 <= i < |fragments| ==> fragments[i] != []
    ensures var match_ := FirstMatch(Decode(buffer + Flatten(fragments), l).events, f);
      Listen(buffer, AsReads(fragments), f, l).reply == if match_.Some? then Ok(match_.value) else Err(ResponseTimeout)
  {
    hide PushAll, Decode, FirstMatch, Listen, Unclipped;
    ListenToFragments(buffer, fragments, f, l);
    FragmentsDoNotMatter(buffer, fragments, l);
  }

  /** What the caller of an exchange gets out of a device's answer. */
  ghost predicate Obtained(reply: Reply, r: Request, code: byte, status: byte, data: seq<byte>)
    requires ToFrame(r).Ok?
  {
    if r.command != 31 then
      && reply.Ok? && reply.value.command == r.command && reply.value.data == data
      && reply.value.responseCode == code && reply.value.deviceStatus == status
    else if |data| >= 2 && BigEndian(data[0], data[1]) == LogicalCommand(ToFrame(r).value) then
      && reply.Ok? && reply.value.command == BigEndian(data[0], data[1]) && reply.value.data == data[2..]
      && reply.value.responseCode == code && reply.value.deviceStatus == status
    else reply == Err(ResponseTimeout)
  }

  /**
    End to end: an answer encoded with enough preambles and received in any
    pieces by an idle decoder of at least the minimum capacity is handed to the
    caller with its command and data if and only if the command is not 31.  The
    caller of raw Command 31 gets the answer without its first two data bytes
    when these name the command it expects, and a timeout otherwise.
   */
  lemma AnswerIsHeard(r: Request, preambles: nat, code: byte, status: byte, data: seq<byte>,
                      fragments: seq<seq<byte>>, l: DecodeLimits)
    requires Effective(l) && l.bufferCapacity >= RequiredDecoderCapacity(l.minimumPreambles)
    requires ToFrame(r).Ok? && ValidAddress(r.address)
    requires l.minimumPreambles <= preambles <= 255 && |ReplyPayload(r.command, code, status, data)| <= 255
    requires var answer := AnswerFrame(r, Response, code, status, data).(preambles := preambles);
      Encode(answer).Ok? && Flatten(fragments) == Encode(answer).value
    requires forall i :: 0 <= i < |fragments| ==> fragments[i] != []
    ensures var reply := Listen([], AsReads(fragments), ToFrame(r).value, l).reply;
      && Obtained(reply, r, code, status, data)
      && ((reply.Ok? && reply.value.command == r.command && reply.value.data == data) <==> r.command != 31)
  {
    var f := ToFrame(r).value;
    var answer := AnswerFrame(r, Response, code, status, data).(preambles := preambles);
    assert Sendable(answer, l);
    hide PushAll, FirstMatch, Listen, Encode, ToFrame, ReplyPayload, Sendable, BigEndian;
    MinimumCapacitySuffices(answer, fragments, l);
    AnswerDelivered(r, answer, code, status, data, l);
    ListenToFragments([], fragments, f, l);
  }

  lemma AnswerDelivered(r: Request, answer: Frame, code: byte, status: byte, data: seq<byte>, l: DecodeLimits)
    requires ToFrame(r).Ok? && l.bufferCapacity >= BodyLength(answer)
    requires answer == AnswerFrame(r, Response, code, status, data).(preambles := answer.preambles)
    ensures var m := FirstMatch([Received(Shortened(answer, l.bufferCapacity))], ToFrame(r).value);
      Obtained(if m.Some? then Ok(m.value) else Err(ResponseTimeout), r, code, status, data)
  {
    hide ReplyPayload, LogicalCommand, BigEndian;
    ReplyRoundTrip(r, Response, code, status, data);
    if r.command == 31 { RawReplyRead(r, Response, code, status, data); }
    var f := ToFrame(r).value;
    var g := Shortened(answer, l.bufferCapacity);
    var plain := AnswerFrame(r, Response, code, status, data);
    assert g == plain.(preambles := g.preambles);
    assert FromFrame(g) == match FromFrame(plain) {
      case Ok(reply) => Ok(reply.(responsePreambles := g.preambles))
      case Err(e) => Err(e)
    };
    OneEvent(Received(g), f);
  }

  lemma OneEvent(e: DecodeEvent, f: Frame)
    ensures FirstMatch([e], f) == Delivers(e, f)
  {
    NoMatchInNothing(f);
  }

  // ---------------------------------------------------------------- retrying

  datatype Used = Used(transport: nat, busy: nat, polls: nat)

  /** How an attempt ended, and what the clock said afterwards. */
  datatype Report = Report(reply: Reply, waitRefused: bool, expired: bool)

  datatype Decision = Stop(reply: Reply) | Again(used: Used)

  predicate IsBusy(r: Reply) { r.Ok? && r.value.responseCode == 32 }

  predicate IsDelayed(r: Reply) { r.Ok? && (r.value.responseCode == 33 || r.value.responseCode == 34) }

  predicate IsSilent(r: Reply) { r == Err(ResponseTimeout) }

  /** Transport retries are for requests whose repetition is harmless. */
  function TransportLimit(p: RetryPolicy, safety: Safety): nat {
    if safety.Action? then 0 else p.transportRetries
  }

  function ResolvedSafety(r: Request, catalog: CommandCode -> Option<Safety>): Safety {
    if r.retrySafety.Some? then r.retrySafety.value
    else if catalog(r.command).Some? then catalog(r.command).value
    else Action
  }

  /** What the loop does with one report. */
  function Decide(a: Report, p: RetryPolicy, limit: nat, u: Used): Decision {
    if IsBusy(a.reply) then
      if u.busy >= p.busyRetries then Stop(Err(Busy(a.reply.value.responseCode)))
      else if a.waitRefused || a.expired then Stop(Err(Deadline))
      else Again(u.(busy := u.busy + 1))
    else if IsDelayed(a.reply) then
      if u.polls >= p.delayedResponsePolls then Stop(Err(DelayedResponse(a.reply.value.responseCode)))
      else if a.waitRefused || a.expired then Stop(Err(Deadline))
      else Again(u.(polls := u.polls + 1))
    else if a.reply == Err(ResponseTimeout) && u.transport < limit then
      if a.expired then Stop(Err(Deadline)) else Again(u.(transport := u.transport + 1))
    else Stop(a.reply)
  }

  /** `history` is a complete run of the loop that ends with `result`. */
  ghost predicate Trail(history: seq<Report>, result: Reply, p: RetryPolicy, limit: nat, u: Used)
    decreases |history|
  {
    && history != []
    && match Decide(history[0], p, limit, u)
       case Stop(reply) => |history| == 1 && reply == result
       case Again(used) => Trail(history[1..], result, p, limit, used)
  }

  /** The three budgets bound the number of transmissions. */
  lemma {:induction false} TransmissionsBounded(history: seq<Report>, result: Reply, p: RetryPolicy, limit: nat, u: Used)
    requires Trail(history, result, p, limit, u)
    requires u.transport <= limit && u.busy <= p.busyRetries && u.polls <= p.delayedResponsePolls
    ensures |history| <= 1 + (limit - u.transport) + (p.busyRetries - u.busy) + (p.delayedResponsePolls - u.polls)
    decreases |history|
  {
    var d := Decide(history[0], p, limit, u);
    if d.Again? {
      TransmissionsBounded(history[1..], result, p, limit, d.used);
    }
  }

  /**
    Every transmission after the first follows a busy or delayed reply, or
    silence; and silence only when the transport budget allows it.
   */
  lemma {:induction false} ResentOnlyFor(history: seq<Report>, result: Reply, p: RetryPolicy, limit: nat, u: Used, k: nat)
    requires Trail(history, result, p, limit, u) && k + 1 < |history|
    ensures IsBusy(history[k].reply) || IsDelayed(history[k].reply) || (history[k].reply == Err(ResponseTimeout) && limit > 0)
    decreases |history|
  {
    var d := Decide(history[0], p, limit, u);
    if k > 0 {
      ResentOnlyFor(history[1..], result, p, limit, d.used, k - 1);
    }
  }

  /** An action is never repeated after silence. */
  lemma ActionResentOnlyAfterReply(history: seq<Report>, result: Reply, p: RetryPolicy, k: nat)
    requires Trail(history, result, p, TransportLimit(p, Action), Used(0, 0, 0)) && k + 1 < |history|
    ensures history[k].reply.Ok? && history[k].reply.value.responseCode in {32, 33, 34}
  {
    ResentOnlyFor(history, result, p, 0, Used(0, 0, 0), k);
  }

  /** A reply handed to the caller is the last one received, and neither busy nor delayed. */
  lemma {:induction false} FinalReply(history: seq<Report>, result: Reply, p: RetryPolicy, limit: nat, u: Used)
    requires Trail(history, result, p, limit, u) && result.Ok?
    ensures history[|history| - 1].reply == result && !IsBusy(result) && !IsDelayed(result)
    decreases |history|
  {
    var d := Decide(history[0], p, limit, u);
    if d.Again? {
      FinalReply(history[1..], result, p, limit, d.used);
    }
  }

  /** How each budget's exhaustion is reported: the budget was spent in full. */
  lemma {:induction false} BudgetSpent(history: seq<Report>, result: Reply, p: RetryPolicy, limit: nat, u: Used)
    requires Trail(history, result, p, limit, u)
    requires u.transport <= limit && u.busy <= p.busyRetries && u.polls <= p.delayedResponsePolls
    requires forall k :: 0 <= k < |history| && history[k].reply.Err? ==>
      !history[k].reply.error.Busy? && !history[k].reply.error.DelayedResponse?
    ensures result.Err? && result.error.Busy? ==> Replies(history, IsBusy) == p.busyRetries - u.busy + 1
    ensures result.Err? && result.error.DelayedResponse? ==> Replies(history, IsDelayed) == p.delayedResponsePolls - u.polls + 1
    ensures result == Err(ResponseTimeout) ==> Replies(history, IsSilent) == limit - u.transport + 1
    decreases |history|
  {
    var d := Decide(history[0], p, limit, u);
    if d.Again? {
      BudgetSpent(history[1..], result, p, limit, d.used);
    } else {
      assert history[1..] == [];
    }
  }

  ghost function Replies(history: seq<Report>, p: Reply -> bool): nat {
    if history == [] then 0 else (if p(history[0].reply) then 1 else 0) + Replies(history[1..], p)
  }

  lemma {:induction false} TrailExtends(done: seq<Report>, a: Report, result: Reply, p: RetryPolicy, limit: nat, u: Used, v: Used)
    requires Reaches(done, p, limit, u, v)
    ensures Decide(a, p, limit, v) == Stop(result) ==> Trail(done + [a], result, p, limit, u)
    ensures Decide(a, p, limit, v).Again? ==> Reaches(done + [a], p, limit, u, Decide(a, p, limit, v).used)
    decreases |done|
  {
    if done == [] {
      assert done + [a] == [a] && [a][1..] == [];
    } else {
      TrailExtends(done[1..], a, result, p, limit, Decide(done[0], p, limit, u).used, v);
      assert (done + [a])[1..] == done[1..] + [a];
    }
  }

  /** The reports so far all asked for another attempt and spent the budgets from `u` to `v`. */
  ghost predicate Reaches(done: seq<Report>, p: RetryPolicy, limit: nat, u: Used, v: Used)
    decreases |done|
  {
    if done == [] then u == v
    else
      var d := Decide(done[0], p, limit, u);
      d.Again? && Reaches(done[1..], p, limit, d.used, v)
  }

  // ------------------------------------------------------------- the runner

  datatype Job = Job(id: nat, request: Request, transmitPrefix: seq<byte>, policy: RetryPolicy)

  /** The clock and the channel during one exchange, attempt by attempt. */
  datatype World = World(
    late: bool,
    attempt: nat -> Attempt,
    waitRefused: nat -> bool,
    expired: nat -> bool
  )

  /** One attempt: a failed send hears nothing, otherwise the runner listens. */
  function Attempted(buffer: seq<byte>, a: Attempt, f: Frame, l: DecodeLimits): Heard {
    match a.send
    case SendFailed => Heard(Err(ChannelFault), buffer, false)
    case SendTimedOut => Heard(Err(SendTimeout), buffer, false)
    case Sent => Listen(buffer, a.inputs, f, l)
  }

  /** The decoder's buffer before the k-th attempt, when every earlier one was made. */
  function BufferAt(buffer: seq<byte>, w: World, f: Frame, l: DecodeLimits, k: nat): seq<byte> {
    if k == 0 then buffer else Attempted(BufferAt(buffer, w, f, l, k - 1), w.attempt(k - 1), f, l).buffer
  }

  /** What the k-th attempt brings, by what the channel delivers and the clock says. */
  function ReportAt(buffer: seq<byte>, w: World, f: Frame, l: DecodeLimits, k: nat): Report {
    Report(Attempted(BufferAt(buffer, w, f, l, k), w.attempt(k), f, l).reply, w.waitRefused(k), w.expired(k))
  }

  /** A send that fails or times out is reported as such and costs the channel; nothing is heard. */
  lemma FailedSend(buffer: seq<byte>, a: Attempt, f: Frame, l: DecodeLimits)
    ensures Attempted(buffer, a, f, l).reply == Err(SendTimeout) <==> a.send.SendTimedOut?
    ensures a.send.SendFailed? ==> Attempted(buffer, a, f, l) == Heard(Err(ChannelFault), buffer, false)
    ensures a.send.SendTimedOut? ==> Attempted(buffer, a, f, l) == Heard(Err(SendTimeout), buffer, false)
  {
    hide Listen;
    if a.send.Sent? { ListenFailures(buffer, a.inputs, f, l); }
  }

  /** An attempt fails in three ways only, and the channel stays usable unless it was at fault. */
  lemma AttemptFailures(buffer: seq<byte>, a: Attempt, f: Frame, l: DecodeLimits)
    ensures var h := Attempted(buffer, a, f, l);
      && (h.reply.Err? ==> h.reply.error in {ResponseTimeout, ChannelFault, SendTimeout})
      && (h.usable <==> !Faulted(h.reply))
  {
    hide Listen;
    if a.send.Sent? { ListenFailures(buffer, a.inputs, f, l); }
  }

  /** The channel, and not the device or the clock, is to blame. */
  predicate Faulted(reply: Reply) { reply == Err(ChannelFault) || reply == Err(SendTimeout) }

  lemma {:induction false} ListenFailures(buffer: seq<byte>, inputs: seq<ReadOutcome>, f: Frame, l: DecodeLimits)
    ensures var h := Listen(buffer, inputs, f, l);
      && (h.reply.Err? ==> h.reply.error in {ResponseTimeout, ChannelFault})
      && (h.usable <==> h.reply != Err(ChannelFault))
    decreases |inputs|
  {
    hide PushOne, FirstMatch;
    if inputs != [] && inputs[0].Bytes? && inputs[0].bytes != [] {
      ListenFailures(PushOne(buffer, inputs[0].bytes, l).rest, inputs[1..], f, l);
    }
  }

  /**
    Over the attempts the channel and the clock determine: a busy, delayed or
    timeout error means exactly the budget and one more such attempts.
   */
  lemma ExhaustionMeansSpent(history: seq<Report>, result: Reply, p: RetryPolicy, limit: nat,
                             buffer: seq<byte>, w: World, f: Frame, l: DecodeLimits)
    requires Trail(history, result, p, limit, Used(0, 0, 0))
    requires forall k :: 0 <= k < |history| ==> history[k] == ReportAt(buffer, w, f, l, k)
    ensures result.Err? && result.error.Busy? ==> Replies(history, IsBusy) == p.busyRetries + 1
    ensures result.Err? && result.error.DelayedResponse? ==> Replies(history, IsDelayed) == p.delayedResponsePolls + 1
    ensures result == Err(ResponseTimeout) ==> Replies(history, IsSilent) == limit + 1
  {
    hide Attempted, Trail, Replies, BufferAt;
    forall k | 0 <= k < |history| && history[k].reply.Err?
      ensures !history[k].reply.error.Busy? && !history[k].reply.error.DelayedResponse?
    {
      AttemptFailures(BufferAt(buffer, w, f, l, k), w.attempt(k), f, l);
    }
    BudgetSpent(history, result, p, limit, Used(0, 0, 0));
  }

  class LinkRunner {
    const decoder: FrameDecoder
    const catalog: CommandCode -> Option<Safety>
    var channelUsable: bool
    var transmissions: seq<seq<byte>>

    constructor (d: FrameDecoder, c: CommandCode -> Option<Safety>)
      ensures decoder == d && catalog == c && channelUsable && transmissions == []
    {
      decoder, catalog, channelUsable, transmissions := d, c, true, [];
    }

    /** One transmission and the wait for its reply. */
    method ExchangeOnce(f: Frame, encoded: seq<byte>, world: Attempt) returns (reply: Reply)
      modifies this`channelUsable, this`transmissions, decoder
      ensures transmissions == old(transmissions) + [encoded]
      ensures var h := Attempted(old(decoder.bytes), world, f, decoder.limits);
        reply == h.reply && decoder.bytes == h.buffer && channelUsable == (old(channelUsable) && h.usable)
      ensures reply.Ok? ==> !reply.value.burst && Answers(reply.value, f)
    {
      hide PushOne, Listen, Answers;
      transmissions := transmissions + [encoded];
      match world.send {
        case SendFailed =>
          channelUsable := false;
          return Err(ChannelFault);
        case SendTimedOut =>
          channelUsable := false;
          return Err(SendTimeout);
        case Sent =>
      }
      HeardReplyAnswers(decoder.bytes, world.inputs, f, decoder.limits);
      ghost var whole := Listen(decoder.bytes, world.inputs, f, decoder.limits);
      var i := 0;
      while i < |world.inputs|
        invariant 0 <= i <= |world.inputs|
        invariant Listen(decoder.bytes, world.inputs[i..], f, decoder.limits) == whole
        invariant channelUsable == old(channelUsable) && transmissions == old(transmissions) + [encoded]
      {
        ListenUnfolds(decoder.bytes, world.inputs[i..], f, decoder.limits);
        var input := world.inputs[i];
        assert world.inputs[i..][1..] == world.inputs[i + 1..];
        match input {
          case ReadTimedOut =>
            return Err(ResponseTimeout);
          case ReadFailed =>
            channelUsable := false;
            return Err(ChannelFault);
          case Oversized =>
            channelUsable := false;
            return Err(ChannelFault);
          case Bytes(bytes) =>
            if bytes == [] {
              channelUsable := false;
              return Err(ChannelFault);
            }
            var events := decoder.Push(bytes);
            var found := FindMatch(events, f);
            if found.Some? {
              return Ok(found.value);
            }
        }
        i := i + 1;
      }
      ListenUnfolds(decoder.bytes, world.inputs[i..], f, decoder.limits);
      reply := Err(ResponseTimeout);
    }

    /** The event loop: echoes, refusals, bursts and stale replies are passed over. */
    method FindMatch(events: seq<DecodeEvent>, f: Frame) returns (found: Option<DeviceReply>)
      ensures found == FirstMatch(events, f)
    {
      for i := 0 to |events|
        invariant FirstMatch(events[i..], f) == FirstMatch(events, f)
      {
        assert events[i..][1..] == events[i + 1..];
        var e := events[i];
        if e.Rejected? { continue; }
        if IsEcho(e.frame, f) { continue; }
        var parsed := FromFrame(e.frame);
        if parsed.Err? || parsed.value.burst { continue; }
        if Answers(parsed.value, f) {
          return Some(parsed.value);
        }
      }
      found := None;
    }

    /**
      The whole exchange.  Nothing is transmitted when the deadline has passed or
      the request does not fit a frame; otherwise the transmissions are copies of
      one byte string, and `history`, which lists what each attempt heard,
      explains their number and the result.
     */
    method Perform(job: Job, world: World) returns (reply: Reply, ghost history: seq<Report>)
      modifies this`channelUsable, this`transmissions, decoder
      ensures var f := ToFrame(job.request);
        if world.late then reply == Err(Deadline) && transmissions == old(transmissions)
        else if f.Err? then reply == Err(OperationFailure(f.error)) && transmissions == old(transmissions)
        else
          && |transmissions| == |old(transmissions)| + |history|
          && transmissions[..|old(transmissions)|] == old(transmissions)
          && (forall k :: |old(transmissions)| <= k < |transmissions| ==>
                transmissions[k] == job.transmitPrefix + Encode(f.value).value)
          && (forall k :: 0 <= k < |history| ==>
                history[k] == ReportAt(old(decoder.bytes), world, f.value, decoder.limits, k))
          && decoder.bytes == BufferAt(old(decoder.bytes), world, f.value, decoder.limits, |history|)
          && Trail(history, reply, job.policy, TransportLimit(job.policy, ResolvedSafety(job.request, catalog)), Used(0, 0, 0))
      ensures channelUsable == (old(channelUsable) && !Faulted(reply))
      ensures reply.Ok? ==>
        && ToFrame(job.request).Ok? && !reply.value.burst && Answers(reply.value, ToFrame(job.request).value)
        && reply.value.responseCode !in {32, 33, 34}
    {
      hide Encode, Answers, Attempted, ToFrame, ReplyPayload, Trail, ReportAt, BufferAt;
      history := [];
      if world.late { return Err(Deadline), []; }
      var framed := ToFrame(job.request);
      if framed.Err? { return Err(OperationFailure(framed.error)), []; }
      FrameFits(job.request);
      var printed := EncodeFrame(framed.value);
      var encoded := job.transmitPrefix + printed.value;
      var safety := ResolvedSafety(job.request, catalog);
      var limit := TransportLimit(job.policy, safety);
      reply, history := Repeat(framed.value, encoded, job.policy, limit, world);
    }

    /** The retry loop: attempt after attempt until the rule says stop. */
    method Repeat(f: Frame, encoded: seq<byte>, policy: RetryPolicy, limit: nat, world: World)
      returns (reply: Reply, ghost history: seq<Report>)
      modifies this`channelUsable, this`transmissions, decoder
      ensures |transmissions| == |old(transmissions)| + |history|
      ensures transmissions[..|old(transmissions)|] == old(transmissions)
      ensures forall k :: |old(transmissions)| <= k < |transmissions| ==> transmissions[k] == encoded
      ensures forall k :: 0 <= k < |history| ==> history[k] == ReportAt(old(decoder.bytes), world, f, decoder.limits, k)
      ensures decoder.bytes == BufferAt(old(decoder.bytes), world, f, decoder.limits, |history|)
      ensures Trail(history, reply, policy, limit, Used(0, 0, 0))
      ensures channelUsable == (old(channelUsable) && !Faulted(reply))
      ensures reply.Ok? ==> !reply.value.burst && Answers(reply.value, f) && reply.value.responseCode !in {32, 33, 34}
    {
      hide Answers, Attempted, Decide, Trail, Reaches;
      NothingSpent(policy, Used(0, 0, 0));
      history := [];
      var used := Used(0, 0, 0);
      var n := 0;
      while true
        invariant n == |history| && |transmissions| == |old(transmissions)| + n
        invariant transmissions[..|old(transmissions)|] == old(transmissions)
        invariant forall k :: |old(transmissions)| <= k < |transmissions| ==> transmissions[k] == encoded
        invariant channelUsable == old(channelUsable)
        invariant decoder.bytes == BufferAt(old(decoder.bytes), world, f, decoder.limits, n)
        invariant forall k :: 0 <= k < n ==> history[k] == ReportAt(old(decoder.bytes), world, f, decoder.limits, k)
        invariant Reaches(history, policy, limit, Used(0, 0, 0), used)
        invariant used.transport <= limit && used.busy <= policy.busyRetries && used.polls <= policy.delayedResponsePolls
        decreases limit - used.transport + policy.busyRetries - used.busy + policy.delayedResponsePolls - used.polls
      {
        AttemptFailures(decoder.bytes, world.attempt(n), f, decoder.limits);
        var attempt := ExchangeOnce(f, encoded, world.attempt(n));
        ghost var report := Report(attempt, world.waitRefused(n), world.expired(n));
        var decision := NextMove(attempt, world.waitRefused(n), world.expired(n), policy, limit, used);
        TrailExtends(history, report, if decision.Stop? then decision.reply else attempt, policy, limit, Used(0, 0, 0), used);
        AgainSpendsOne(report, policy, limit, used);
        history := history + [report];
        n := n + 1;
        if decision.Stop? { return decision.reply, history; }
        used := decision.used;
      }
    }

    /** The branches of the retry loop after one attempt. */
    method NextMove(attempt: Reply, waitRefused: bool, expired: bool, policy: RetryPolicy, limit: nat, used: Used)
      returns (decision: Decision)
      ensures decision == Decide(Report(attempt, waitRefused, expired), policy, limit, used)
    {
      var spent := used;
      if IsBusy(attempt) {
        if used.busy >= policy.busyRetries { return Stop(Err(Busy(attempt.value.responseCode))); }
        spent := used.(busy := used.busy + 1);
        if waitRefused { return Stop(Err(Deadline)); }
      } else if IsDelayed(attempt) {
        if used.polls >= policy.delayedResponsePolls { return Stop(Err(DelayedResponse(attempt.value.responseCode))); }
        spent := used.(polls := used.polls + 1);
        if waitRefused { return Stop(Err(Deadline)); }
      } else if attempt == Err(ResponseTimeout) && used.transport < limit {
        spent := used.(transport := used.transport + 1);
      } else {
        return Stop(attempt);
      }
      if expired { return Stop(Err(Deadline)); }
      decision := Again(spent);
    }
  }

  /** Trying again takes one unit from one budget; a reply handed back is neither busy nor delayed. */
  lemma AgainSpendsOne(a: Report, p: RetryPolicy, limit: nat, u: Used)
    ensures var d := Decide(a, p, limit, u);
      && (d.Again? ==>
           && (d.used.transport == u.transport || u.transport < d.used.transport <= limit)
           && (d.used.busy == u.busy || u.busy < d.used.busy <= p.busyRetries)
           && (d.used.polls == u.polls || u.polls < d.used.polls <= p.delayedResponsePolls)
           && d.used.transport + d.used.busy + d.used.polls == u.transport + u.busy + u.polls + 1)
      && (d.Stop? && d.reply.Ok? ==> d.reply == a.reply && d.reply.value.responseCode !in {32, 33, 34})
      && (Faulted(a.reply) <==> d.Stop? && Faulted(d.reply))
  {}

  lemma NothingSpent(p: RetryPolicy, u: Used)
    ensures forall limit: nat :: Reaches([], p, limit, u, u)
  {}

  lemma FrameFits(r: Request)
    requires ToFrame(r).Ok?
    ensures Encode(ToFrame(r).value).Ok?
  {}

  lemma ListenUnfolds(buffer: seq<byte>, inputs: seq<ReadOutcome>, f: Frame, l: DecodeLimits)
    ensures Listen(buffer, inputs, f, l) ==
      if inputs == [] || inputs[0].ReadTimedOut? then Heard(Err(ResponseTimeout), buffer, true)
      else if !inputs[0].Bytes? || inputs[0].bytes == [] then Heard(Err(ChannelFault), buffer, false)
      else
        var p := PushOne(buffer, inputs[0].bytes, l);
        var m := FirstMatch(p.events, f);
        if m.Some? then Heard(Ok(m.value), p.rest, true) else Listen(p.rest, inputs[1..], f, l)
  {}
}
