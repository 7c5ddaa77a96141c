/**
  The bounded, resynchronising stream decoder (src/wire/decoder.rs): candidate
  search, frame analysis, the unbounded reference decoder `Decode`, the limited
  `Push` and runs of pushes, and the class that performs them in place.
 */
module Decoder {
  import opened Basics
  import opened Wire

  const MAXIMUM_DECODE_BUFFER_CAPACITY: nat := 16 * 1024 * 1024
  const MAXIMUM_DECODE_EVENTS_PER_PUSH: nat := 4096

  datatype ChecksumPolicy =
    | Strict
    | KnownGateway(delimiterBit: bool, checksumSourceNode: Option<byte>)

  datatype DecodeLimits = DecodeLimits(bufferCapacity: nat, minimumPreambles: nat, checksumPolicy: ChecksumPolicy)

  /** The limits a decoder can hold: `FrameDecoder::new` clamps everything else into this range. */
  predicate Effective(l: DecodeLimits) {
    && 1 <= l.bufferCapacity <= MAXIMUM_DECODE_BUFFER_CAPACITY
    && 1 <= l.minimumPreambles <= 255
  }

  function Clamped(l: DecodeLimits): (r: DecodeLimits)
    requires l.minimumPreambles <= 255
    ensures Effective(r)
    ensures Effective(l) ==> r == l
    ensures l.bufferCapacity == 0 ==> r.bufferCapacity == 1
    ensures l.bufferCapacity >= MAXIMUM_DECODE_BUFFER_CAPACITY ==> r.bufferCapacity == MAXIMUM_DECODE_BUFFER_CAPACITY
    ensures 1 <= l.bufferCapacity <= MAXIMUM_DECODE_BUFFER_CAPACITY ==> r.bufferCapacity == l.bufferCapacity
    ensures l.minimumPreambles == 0 ==> r.minimumPreambles == 1
    ensures l.minimumPreambles >= 1 ==> r.minimumPreambles == l.minimumPreambles
    ensures r.checksumPolicy == l.checksumPolicy
  {
    DecodeLimits(
      if l.bufferCapacity < 1 then 1
      else if l.bufferCapacity > MAXIMUM_DECODE_BUFFER_CAPACITY then MAXIMUM_DECODE_BUFFER_CAPACITY
      else l.bufferCapacity,
      if l.minimumPreambles < 1 then 1 else l.minimumPreambles,
      l.checksumPolicy)
  }

  datatype DecodeEvent = Received(frame: Frame) | Rejected(error: WireError)

  datatype Step =
    | NoCandidate
    | NeedMore
    | Discard(count: nat)
    | Reject(error: WireError, consumed: nat, checksumFailure: bool)
    | Emit(frame: Frame, consumed: nat, repaired: bool)

  // -------------------------------------------------------- candidate search

  predicate AllowDelimiterRepair(p: ChecksumPolicy) {
    p.KnownGateway? && p.delimiterBit
  }

  predicate IsPossibleDelimiter(b: byte, p: ChecksumPolicy) {
    KindOf(b).Some? || (AllowDelimiterRepair(p) && KindOf(b ^ 0x10).Some?)
  }

  /** Length of the run of preamble bytes that ends just before index `i`. */
  function RunBefore(b: seq<byte>, i: nat): (n: nat)
    requires i <= |b|
    ensures n <= i
  {
    if i > 0 && b[i - 1] == PREAMBLE then 1 + RunBefore(b, i - 1) else 0
  }

  predicate IsCandidate(b: seq<byte>, i: nat, l: DecodeLimits)
    requires i < |b|
  {
    IsPossibleDelimiter(b[i], l.checksumPolicy) && RunBefore(b, i) >= l.minimumPreambles
  }

  /** Index of the first candidate at or after `i`. */
  function FindFrom(b: seq<byte>, i: nat, l: DecodeLimits): (r: Option<nat>)
    requires i <= |b|
    ensures r.Some? ==> i <= r.value < |b| && IsCandidate(b, r.value, l)
    ensures forall j :: i <= j < (if r.Some? then r.value else |b|) ==> !IsCandidate(b, j, l)
    decreases |b| - i
  {
    if i == |b| then None
    else if IsCandidate(b, i, l) then Some(i)
    else FindFrom(b, i + 1, l)
  }

  datatype Candidate = Candidate(index: nat, start: nat, count: nat)

  function FindCandidate(b: seq<byte>, l: DecodeLimits): Option<Candidate> {
    match FindFrom(b, 0, l)
    case None => None
    case Some(i) =>
      var retained := Min(RunBefore(b, i), 255);
      Some(Candidate(i, i - retained, retained))
  }

  // ---------------------------------------------------------------- analysis

  function ShortAddressRepair(p: ChecksumPolicy, received: byte, expected: byte, actual: byte): Option<FrameRepair> {
    if p.Strict? || p.checksumSourceNode.None? then None
    else
      var source := p.checksumSourceNode.value;
      if source > 63 then None
      else
        var reconstructed := received ^ expected ^ actual;
        if reconstructed & 0xc0 == received & 0xc0 && reconstructed & 0x3f == source
        then Some(ShortAddressRewrite(source))
        else None
  }

  /** The delimiter after the optional repair of its reserved bit. */
  function RepairedDelimiter(raw: byte, p: ChecksumPolicy): byte {
    if KindOf(raw).None? && AllowDelimiterRepair(p) && KindOf(raw ^ 0x10).Some? then raw ^ 0x10 else raw
  }

  function AddressBytes(delimiter: byte): nat { if IsLong(delimiter) then 5 else 1 }

  /** Index of the count byte of a frame whose delimiter is at `i`. */
  function CountIndex(delimiter: byte, i: nat): nat {
    i + 1 + AddressBytes(delimiter) + ExpansionBits(delimiter) + 1
  }

  /** Where the frame whose delimiter is at `i` ends, once all of it is buffered. */
  function FrameEnd(b: seq<byte>, i: nat, p: ChecksumPolicy): (end: Option<nat>)
    requires i < |b|
    ensures end.Some? ==> i + 4 < end.value <= |b|
  {
    var countIndex := CountIndex(RepairedDelimiter(b[i], p), i);
    if |b| <= countIndex then None
    else
      var checksumIndex := countIndex + 1 + ValueOf(b[countIndex]);
      if |b| <= checksumIndex then None else Some(checksumIndex + 1)
  }

  datatype Verdict = Mismatch | Match(repair: Option<FrameRepair>)

  /** Whether the check byte is acceptable, and which repair makes it so. */
  function CheckByte(raw: byte, delimiter: byte, received: byte, expected: byte, actual: byte, p: ChecksumPolicy): Verdict {
    var delimiterMatches := AllowDelimiterRepair(p) && expected ^ 0x10 == actual;
    var addressRepair :=
      if expected != actual && !delimiterMatches && !IsLong(delimiter)
      then ShortAddressRepair(p, received, expected, actual)
      else None;
    if expected != actual && !delimiterMatches && addressRepair.None? then Mismatch
    else if addressRepair.Some? then Match(addressRepair)
    else if delimiterMatches || delimiter != raw then Match(Some(DelimiterBit))
    else Match(None)
  }

  /** Verdict on a complete frame `c` whose `i` leading preambles precede the delimiter. */
  function Judge(c: seq<byte>, i: nat, p: ChecksumPolicy): (step: Step)
    requires i < |c| && FrameEnd(c, i, p) == Some(|c|)
    ensures step.Emit? ==> step.consumed == |c|
    ensures step.Reject? ==> i < step.consumed <= |c|
    ensures step.Emit? || step.Reject?
  {
    var delimiter := RepairedDelimiter(c[i], p);
    var countIndex := CountIndex(delimiter, i);
    var commandIndex := countIndex - 1;
    var checksumIndex := |c| - 1;
    var expected := XorChecksum(c[i..checksumIndex]);
    var actual := c[checksumIndex];
    match CheckByte(c[i], delimiter, c[i + 1], expected, actual, p)
    case Mismatch => Reject(Checksum(expected, actual), i + 1, true)
    case Match(repair) =>
      var addressEnd := i + 1 + AddressBytes(delimiter);
      match ReadAddress(c[i + 1..addressEnd], IsLong(delimiter))
      case Err(error) => Reject(error, checksumIndex + 1, false)
      case Ok(address) =>
        if KindOf(delimiter).None? then Reject(UnknownDelimiter(delimiter), i + 1, false)
        else
          Emit(
            Frame(i, KindOf(delimiter).value, LayerOf(delimiter), address,
                  c[addressEnd..commandIndex], c[commandIndex],
                  c[countIndex + 1..checksumIndex], repair),
            checksumIndex + 1, repair.Some?)
  }

  /** Analysis of a buffer whose `i` leading preambles are followed by a delimiter. */
  function AnalyzeAt(b: seq<byte>, i: nat, l: DecodeLimits): (step: Step)
    requires i < |b|
    ensures step.Emit? ==> i < step.consumed <= |b|
    ensures step.Reject? ==> i < step.consumed <= |b|
    ensures !step.NoCandidate? && !step.Discard?
  {
    match FrameEnd(b, i, l.checksumPolicy)
    case None => NeedMore
    case Some(end) => Judge(b[..end], i, l.checksumPolicy)
  }

  function Analyze(b: seq<byte>, l: DecodeLimits): (step: Step)
    ensures step.Discard? ==> 0 < step.count <= |b|
    ensures step.Emit? ==> 0 < step.consumed <= |b|
    ensures step.Reject? ==> 0 < step.consumed <= |b|
  {
    match FindCandidate(b, l)
    case None => NoCandidate
    case Some(c) => if c.start > 0 then Discard(c.start) else AnalyzeAt(b, c.index, l)
  }

  // ------------------------------------------------- the reference decoder

  /** The trailing preambles worth keeping when no candidate is in sight. */
  function Retained(b: seq<byte>): (r: seq<byte>)
    ensures |r| <= |b| && r == b[|b| - |r|..] && |r| <= 255
  {
    b[|b| - Min(RunBefore(b, |b|), 255)..]
  }

  datatype Outcome = Outcome(events: seq<DecodeEvent>, rest: seq<byte>, discarded: nat)

  function Skip(n: nat, o: Outcome): Outcome { o.(discarded := n + o.discarded) }

  function Announce(e: DecodeEvent, o: Outcome): Outcome { o.(events := [e] + o.events) }

  /** Decoding of a whole buffer with neither a byte limit nor an event limit. */
  function Decode(b: seq<byte>, l: DecodeLimits): (o: Outcome)
    ensures |o.rest| <= |b|
    decreases |b|
  {
    match Analyze(b, l)
    case NoCandidate => Outcome([], Retained(b), |b| - |Retained(b)|)
    case NeedMore => Outcome([], b, 0)
    case Discard(n) => Skip(n, Decode(b[n..], l))
    case Reject(error, n, _) => Announce(Rejected(error), Skip(n, Decode(b[n..], l)))
    case Emit(frame, n, _) => Announce(Received(frame), Decode(b[n..], l))
  }

  /** The same, stopping as soon as `limit` events have been produced. */
  function DecodeUpTo(b: seq<byte>, l: DecodeLimits, limit: nat): (o: Outcome)
    ensures |o.rest| <= |b| && |o.events| <= limit
    decreases |b|
  {
    if limit == 0 then Outcome([], b, 0)
    else
      match Analyze(b, l)
      case NoCandidate => Outcome([], Retained(b), |b| - |Retained(b)|)
      case NeedMore => Outcome([], b, 0)
      case Discard(n) => Skip(n, DecodeUpTo(b[n..], l, limit))
      case Reject(error, n, _) => Announce(Rejected(error), Skip(n, DecodeUpTo(b[n..], l, limit - 1)))
      case Emit(frame, n, _) => Announce(Received(frame), DecodeUpTo(b[n..], l, limit - 1))
  }

  // ------------------------------------------------------------------ pushes

  datatype Pushed = Pushed(events: seq<DecodeEvent>, rest: seq<byte>, discarded: nat, overflow: nat, limitHits: nat)

  /** How many of the oldest bytes the capacity forces out. */
  function Overflow(buffer: seq<byte>, fragment: seq<byte>, l: DecodeLimits): nat {
    if |buffer| + |fragment| > l.bufferCapacity then |buffer| + |fragment| - l.bufferCapacity else 0
  }

  function PushOne(buffer: seq<byte>, fragment: seq<byte>, l: DecodeLimits): Pushed {
    var overflow := Overflow(buffer, fragment, l);
    var o := DecodeUpTo((buffer + fragment)[overflow..], l, MAXIMUM_DECODE_EVENTS_PER_PUSH);
    if |o.events| == MAXIMUM_DECODE_EVENTS_PER_PUSH && o.rest != []
    then Pushed(o.events, Retained(o.rest), o.discarded + |o.rest| - |Retained(o.rest)|, overflow, 1)
    else Pushed(o.events, o.rest, o.discarded, overflow, 0)
  }

  /** A run of pushes, counters summed. */
  function PushAll(buffer: seq<byte>, fragments: seq<seq<byte>>, l: DecodeLimits): Pushed
    decreases |fragments|
  {
    if fragments == [] then Pushed([], buffer, 0, 0, 0)
    else
      var first := PushOne(buffer, fragments[0], l);
      var others := PushAll(first.rest, fragments[1..], l);
      Pushed(first.events + others.events, others.rest, first.discarded + others.discarded,
             first.overflow + others.overflow, first.limitHits + others.limitHits)
  }

  function Flatten(fragments: seq<seq<byte>>): seq<byte> {
    if fragments == [] then [] else fragments[0] + Flatten(fragments[1..])
  }

  // ---------------------------------------------------------------- counters

  /** How many events satisfy `p`. */
  function Count(events: seq<DecodeEvent>, p: DecodeEvent -> bool): (n: nat)
    ensures n <= |events|
  {
    if events == [] then 0 else (if p(events[0]) then 1 else 0) + Count(events[1..], p)
  }

  predicate IsFrame(e: DecodeEvent) { e.Received? }

  predicate IsRepaired(e: DecodeEvent) { e.Received? && e.frame.repair.Some? }

  predicate IsChecksumFailure(e: DecodeEvent) { e.Rejected? && e.error.Checksum? }

  lemma {:induction false} CountAppend(a: seq<DecodeEvent>, b: seq<DecodeEvent>, p: DecodeEvent -> bool)
    ensures Count(a + b, p) == Count(a, p) + Count(b, p)
  {
    if a == [] {
      assert a + b == b;
    } else {
      CountAppend(a[1..], b, p);
      assert (a + b)[1..] == a[1..] + b;
    }
  }

  datatype Statistics = Statistics(
    frames: u64, discardedBytes: u64, checksumFailures: u64,
    overflowBytes: u64, repairedFrames: u64, eventLimitHits: u64
  )

  /** Counters after a stretch of decoding with the given events and byte totals. */
  function Tally(s: Statistics, events: seq<DecodeEvent>, discarded: nat, overflow: nat, limitHits: nat): Statistics {
    Statistics(
      SaturatingAdd(s.frames, Count(events, IsFrame)),
      SaturatingAdd(s.discardedBytes, discarded),
      SaturatingAdd(s.checksumFailures, Count(events, IsChecksumFailure)),
      SaturatingAdd(s.overflowBytes, overflow),
      SaturatingAdd(s.repairedFrames, Count(events, IsRepaired)),
      SaturatingAdd(s.eventLimitHits, limitHits))
  }

  /** Tallying two stretches one after the other is tallying them together, saturation included. */
  lemma TallyTwice(s: Statistics, e1: seq<DecodeEvent>, d1: nat, o1: nat, h1: nat,
                   e2: seq<DecodeEvent>, d2: nat, o2: nat, h2: nat)
    ensures Tally(Tally(s, e1, d1, o1, h1), e2, d2, o2, h2) == Tally(s, e1 + e2, d1 + d2, o1 + o2, h1 + h2)
  {
    CountAppend(e1, e2, IsFrame);
    CountAppend(e1, e2, IsChecksumFailure);
    CountAppend(e1, e2, IsRepaired);
  }

  /** The statistics after a run of pushes, counted push by push. */
  function TallyRun(s: Statistics, buffer: seq<byte>, fragments: seq<seq<byte>>, l: DecodeLimits): Statistics
    decreases |fragments|
  {
    if fragments == [] then s
    else
      var p := PushOne(buffer, fragments[0], l);
      TallyRun(Tally(s, p.events, p.discarded, p.overflow, p.limitHits), p.rest, fragments[1..], l)
  }

  /** They are the tally of the run's own totals. */
  lemma {:induction false} RunTallied(s: Statistics, buffer: seq<byte>, fragments: seq<seq<byte>>, l: DecodeLimits)
    ensures var r := PushAll(buffer, fragments, l);
      TallyRun(s, buffer, fragments, l) == Tally(s, r.events, r.discarded, r.overflow, r.limitHits)
    decreases |fragments|
  {
    hide PushOne, Tally;
    if fragments == [] {
      TallyNothing(s);
    } else {
      var p := PushOne(buffer, fragments[0], l);
      var o := PushAll(p.rest, fragments[1..], l);
      RunTallied(Tally(s, p.events, p.discarded, p.overflow, p.limitHits), p.rest, fragments[1..], l);
      TallyTwice(s, p.events, p.discarded, p.overflow, p.limitHits, o.events, o.discarded, o.overflow, o.limitHits);
    }
  }

  lemma TallyNothing(s: Statistics)
    ensures Tally(s, [], 0, 0, 0) == s
  {}

  /** What one event adds, as the flags of the analysis step report it. */
  lemma TallyOne(s: Statistics, e: DecodeEvent)
    ensures Tally(s, [e], 0, 0, 0) ==
      s.(frames := SaturatingAdd(s.frames, if IsFrame(e) then 1 else 0),
         checksumFailures := SaturatingAdd(s.checksumFailures, if IsChecksumFailure(e) then 1 else 0),
         repairedFrames := SaturatingAdd(s.repairedFrames, if IsRepaired(e) then 1 else 0))
  {
    assert [e][1..] == [];
  }

  // ------------------------------------------------------ unreachable refusals

  /** A candidate's delimiter, once repaired, names a frame kind. */
  lemma CandidateKind(raw: byte, p: ChecksumPolicy)
    requires IsPossibleDelimiter(raw, p)
    ensures KindOf(RepairedDelimiter(raw, p)).Some?
    ensures RepairedDelimiter(raw, p) == raw || (RepairedDelimiter(raw, p) == raw ^ 0x10 && AllowDelimiterRepair(p))
  {}

  /** The only refusal that can occur is a checksum mismatch, at the delimiter. */
  lemma OnlyChecksumRefusals(b: seq<byte>, l: DecodeLimits)
    ensures var step := Analyze(b, l);
      && (step.Reject? ==> step.error.Checksum? && step.checksumFailure)
      && (step.Emit? ==> step.repaired == step.frame.repair.Some?)
  {
    var c := FindCandidate(b, l);
    if c.Some? && c.value.start == 0 && FrameEnd(b, c.value.index, l.checksumPolicy).Some? {
      var i := c.value.index;
      var whole := b[..FrameEnd(b, i, l.checksumPolicy).value];
      CandidateKind(b[i], l.checksumPolicy);
      var delimiter := RepairedDelimiter(b[i], l.checksumPolicy);
      AddressReread(whole[i + 1..i + 1 + AddressBytes(delimiter)], IsLong(delimiter), false);
    }
  }

  // --------------------------------------------------------- splitting a limit

  /** Producing up to `limit` events is producing the first one and then the others. */
  lemma {:induction false} FirstEventThenOthers(b: seq<byte>, l: DecodeLimits, limit: nat)
    requires limit > 0
    ensures var one := DecodeUpTo(b, l, 1);
      var all := DecodeUpTo(b, l, limit);
      if one.events == [] then all == one
      else
        var others := DecodeUpTo(one.rest, l, limit - 1);
        all == Outcome(one.events + others.events, others.rest, one.discarded + others.discarded)
    decreases |b|
  {
    hide Analyze;
    match Analyze(b, l)
    case Discard(n) => FirstEventThenOthers(b[n..], l, limit);
    case Emit(_, n, _) => assert DecodeUpTo(b[n..], l, 0).events == [];
    case Reject(_, n, _) => assert DecodeUpTo(b[n..], l, 0).events == [];
    case _ =>
  }

  lemma NoEventsAllowed(b: seq<byte>, l: DecodeLimits)
    ensures DecodeUpTo(b, l, 0) == Outcome([], b, 0)
  {}

  // ------------------------------------------------------- the decoder object

  class FrameDecoder {
    const limits: DecodeLimits
    var bytes: seq<byte>
    var statistics: Statistics

    constructor (requested: DecodeLimits)
      requires requested.minimumPreambles <= 255
      ensures limits == Clamped(requested) && Effective(limits)
      ensures bytes == [] && statistics == Statistics(0, 0, 0, 0, 0, 0)
    {
      limits := Clamped(requested);
      bytes := [];
      statistics := Statistics(0, 0, 0, 0, 0, 0);
    }

    method Push(fragment: seq<byte>) returns (events: seq<DecodeEvent>)
      modifies this
      ensures var p := PushOne(old(bytes), fragment, limits);
        && events == p.events
        && bytes == p.rest
        && statistics == Tally(old(statistics), p.events, p.discarded, p.overflow, p.limitHits)
    {
      hide Analyze, DecodeUpTo, Count;
      AppendBounded(fragment);
      ghost var start, tally := bytes, statistics;
      ghost var whole := DecodeUpTo(start, limits, MAXIMUM_DECODE_EVENTS_PER_PUSH);
      ghost var skipped: nat := 0;
      events := [];
      TallyNothing(statistics);
      var more := true;
      while more && |events| < MAXIMUM_DECODE_EVENTS_PER_PUSH
        invariant |events| <= MAXIMUM_DECODE_EVENTS_PER_PUSH
        invariant statistics == Tally(tally, events, skipped, 0, 0)
        invariant more ==>
          var others := DecodeUpTo(bytes, limits, MAXIMUM_DECODE_EVENTS_PER_PUSH - |events|);
          whole == Outcome(events + others.events, others.rest, skipped + others.discarded)
        invariant !more ==> whole == Outcome(events, bytes, skipped) && |events| < MAXIMUM_DECODE_EVENTS_PER_PUSH
        decreases more, MAXIMUM_DECODE_EVENTS_PER_PUSH - |events|
      {
        ghost var one := DecodeUpTo(bytes, limits, 1);
        FirstEventThenOthers(bytes, limits, MAXIMUM_DECODE_EVENTS_PER_PUSH - |events|);
        TallyTwice(tally, events, skipped, 0, 0, one.events, one.discarded, 0, 0);
        skipped := skipped + one.discarded;
        var event := NextEvent();
        if event.Some? {
          events := events + [event.value];
        } else {
          more := false;
          assert events + [] == events;
        }
      }
      NoEventsAllowed(bytes, limits);
      assert events + [] == events;
      TallyTwice(old(statistics), [], 0, Overflow(old(bytes), fragment, limits), 0, events, skipped, 0, 0);
      assert [] + events == events;
      if |events| == MAXIMUM_DECODE_EVENTS_PER_PUSH && bytes != [] {
        TallyTwice(old(statistics), events, skipped, Overflow(old(bytes), fragment, limits), 0,
                   [], |bytes| - |Retained(bytes)|, 0, 1);
        statistics := statistics.(eventLimitHits := SaturatingAdd(statistics.eventLimitHits, 1));
        RetainPossiblePreambles();
      }
    }

    method Clear()
      modifies this
      ensures bytes == [] && statistics == old(statistics)
    {
      bytes := [];
    }

    method AppendBounded(fragment: seq<byte>)
      modifies this
      ensures bytes == (old(bytes) + fragment)[Overflow(old(bytes), fragment, limits)..]
      ensures statistics == Tally(old(statistics), [], 0, Overflow(old(bytes), fragment, limits), 0)
    {
      var overflow := Overflow(bytes, fragment, limits);
      if overflow == 0 {
        bytes := bytes + fragment;
        return;
      }
      var fromBuffer := Min(overflow, |bytes|);
      bytes := bytes[fromBuffer..];
      var fromFragment := Min(overflow - fromBuffer, |fragment|);
      bytes := bytes + fragment[fromFragment..];
      statistics := statistics.(overflowBytes := SaturatingAdd(statistics.overflowBytes, overflow));
    }

    /** Advances to the next event, or leaves an incomplete tail and returns nothing. */
    method NextEvent() returns (event: Option<DecodeEvent>)
      modifies this
      ensures var o := DecodeUpTo(old(bytes), limits, 1);
        && o.events == (if event.Some? then [event.value] else [])
        && bytes == o.rest
        && statistics == Tally(old(statistics), o.events, o.discarded, 0, 0)
    {
      hide Analyze;
      ghost var whole := DecodeUpTo(bytes, limits, 1);
      ghost var skipped: nat := 0;
      while true
        invariant whole == Skip(skipped, DecodeUpTo(bytes, limits, 1))
        invariant statistics == Tally(old(statistics), [], skipped, 0, 0)
        decreases |bytes|
      {
        OnlyChecksumRefusals(bytes, limits);
        var step := Analyze(bytes, limits);
        if step.Emit? {
          TallyTwice(old(statistics), [], skipped, 0, 0, [Received(step.frame)], 0, 0, 0);
          TallyOne(statistics, Received(step.frame));
        } else if step.Reject? {
          TallyTwice(old(statistics), [], skipped, 0, 0, [Rejected(step.error)], step.consumed, 0, 0);
          TallyOne(statistics, Rejected(step.error));
        }
        match step
        case NoCandidate =>
          RetainPossiblePreambles();
          return None;
        case NeedMore =>
          return None;
        case Discard(count) =>
          DiscardBytes(count);
          skipped := skipped + count;
        case Reject(error, consumed, checksumFailure) =>
          CountFlags(false, checksumFailure, false);
          DiscardBytes(consumed);
          return Some(Rejected(error));
        case Emit(frame, consumed, repaired) =>
          bytes := bytes[consumed..];
          CountFlags(true, false, repaired);
          return Some(Received(frame));
      }
    }

    /** The counters one event adds to. */
    method CountFlags(frame: bool, checksumFailure: bool, repaired: bool)
      modifies this`statistics
      ensures statistics == old(statistics).(
        frames := SaturatingAdd(old(statistics.frames), if frame then 1 else 0),
        checksumFailures := SaturatingAdd(old(statistics.checksumFailures), if checksumFailure then 1 else 0),
        repairedFrames := SaturatingAdd(old(statistics.repairedFrames), if repaired then 1 else 0))
    {
      if frame { statistics := statistics.(frames := SaturatingAdd(statistics.frames, 1)); }
      if checksumFailure {
        statistics := statistics.(checksumFailures := SaturatingAdd(statistics.checksumFailures, 1));
      }
      if repaired { statistics := statistics.(repairedFrames := SaturatingAdd(statistics.repairedFrames, 1)); }
    }

    method RetainPossiblePreambles()
      modifies this
      ensures bytes == Retained(old(bytes))
      ensures statistics ==
        old(statistics).(discardedBytes :=
          SaturatingAdd(old(statistics).discardedBytes, |old(bytes)| - |Retained(old(bytes))|))
    {
      var run := 0;
      while run < |bytes| && bytes[|bytes| - 1 - run] == PREAMBLE
        invariant run <= |bytes|
        invariant RunBefore(bytes, |bytes|) == run + RunBefore(bytes, |bytes| - run)
      {
        run := run + 1;
      }
      DiscardBytes(|bytes| - Min(run, 255));
    }

    method DiscardBytes(count: nat)
      modifies this
      ensures bytes == old(bytes)[Min(count, |old(bytes)|)..]
      ensures statistics ==
        old(statistics).(discardedBytes := SaturatingAdd(old(statistics).discardedBytes, count))
    {
      bytes := bytes[Min(count, |bytes|)..];
      statistics := statistics.(discardedBytes := SaturatingAdd(statistics.discardedBytes, count));
    }
  }
}
