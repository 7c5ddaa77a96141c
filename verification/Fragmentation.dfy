/**
  How a stream is cut into fragments does not matter.  The decoder keeps, as
  its whole memory of the past, a tail that later bytes continue exactly as
  the complete stream would have continued.
 */
module Fragmentation {
  import opened Basics
  import opened Wire
  import opened Decoder

  // ---------------------------------------------------------- prefix stability

  lemma {:induction false} RunBeforePrefix(b: seq<byte>, t: seq<byte>, i: nat)
    requires i <= |b|
    ensures RunBefore(b + t, i) == RunBefore(b, i)
  {
    if i > 0 && b[i - 1] == PREAMBLE {
      RunBeforePrefix(b, t, i - 1);
    }
  }

  lemma CandidatePrefix(b: seq<byte>, t: seq<byte>, i: nat, l: DecodeLimits)
    requires i < |b|
    ensures IsCandidate(b + t, i, l) == IsCandidate(b, i, l)
  {
    RunBeforePrefix(b, t, i);
  }

  /** The first candidate is the unique index that is one and has none before it. */
  lemma FirstCandidate(b: seq<byte>, i: nat, l: DecodeLimits)
    requires i < |b| && IsCandidate(b, i, l)
    requires forall j :: 0 <= j < i ==> !IsCandidate(b, j, l)
    ensures FindFrom(b, 0, l) == Some(i)
  {
    hide IsCandidate;
    var r := FindFrom(b, 0, l);
    assert r.Some?;
    assert !(r.value < i);
  }

  lemma CandidateStable(b: seq<byte>, t: seq<byte>, l: DecodeLimits)
    requires FindCandidate(b, l).Some?
    ensures FindCandidate(b + t, l) == FindCandidate(b, l)
  {
    hide IsCandidate;
    var i := FindFrom(b, 0, l).value;
    forall j | 0 <= j <= i ensures IsCandidate(b + t, j, l) == IsCandidate(b, j, l) {
      CandidatePrefix(b, t, j, l);
    }
    FirstCandidate(b + t, i, l);
    RunBeforePrefix(b, t, i);
  }

  /** A frame that can be judged is judged the same way whatever follows it. */
  lemma AnalyzeAtStable(b: seq<byte>, t: seq<byte>, i: nat, l: DecodeLimits)
    requires i < |b| && !AnalyzeAt(b, i, l).NeedMore?
    ensures AnalyzeAt(b + t, i, l) == AnalyzeAt(b, i, l)
  {
    hide Judge;
    var end := FrameEnd(b, i, l.checksumPolicy).value;
    assert (b + t)[..end] == b[..end];
  }

  lemma AnalyzeStable(b: seq<byte>, t: seq<byte>, l: DecodeLimits)
    requires !Analyze(b, l).NoCandidate? && !Analyze(b, l).NeedMore?
    ensures Analyze(b + t, l) == Analyze(b, l)
  {
    hide AnalyzeAt, FindCandidate;
    CandidateStable(b, t, l);
    var c := FindCandidate(b, l).value;
    if c.start == 0 {
      assert c.index < |b| by { CandidateIndex(b, l); }
      AnalyzeAtStable(b, t, c.index, l);
    }
  }

  lemma CandidateIndex(b: seq<byte>, l: DecodeLimits)
    requires FindCandidate(b, l).Some?
    ensures var c := FindCandidate(b, l).value;
      && c.index < |b| && c.count <= 255 && c.start + c.count == c.index
      && c.count == Min(RunBefore(b, c.index), 255) && IsCandidate(b, c.index, l)
  {}

  // ------------------------------------------------------- trimming preambles

  /** Dropping `n` leading bytes shortens a run only when the run reaches into them. */
  lemma {:induction false} RunAfterDrop(c: seq<byte>, n: nat, i: nat)
    requires n <= i <= |c|
    ensures RunBefore(c[n..], i - n) == Min(RunBefore(c, i), i - n)
  {
    if i > n && c[i - 1] == PREAMBLE {
      RunAfterDrop(c, n, i - 1);
    }
  }

  lemma {:induction false} RunExtends(c: seq<byte>, k: nat, i: nat)
    requires k <= i <= |c|
    ensures RunBefore(c, i) <= i - k + RunBefore(c, k)
  {
    if i > k && c[i - 1] == PREAMBLE {
      RunExtends(c, k, i - 1);
    }
  }

  /** Cutting all but the last 255 preambles of a useless prefix `b` hides no run. */
  lemma RunAfterTrim(b: seq<byte>, t: seq<byte>, i: nat)
    requires |b| <= i <= |b| + |t|
    ensures var n := |b| - |Retained(b)|;
      Min(RunBefore((b + t)[n..], i - n), 255) == Min(RunBefore(b + t, i), 255)
  {
    RunAfterDrop(b + t, |b| - |Retained(b)|, i);
    RunExtends(b + t, |b|, i);
    RunBeforePrefix(b, t, |b|);
  }

  lemma CandidateAfterTrim(b: seq<byte>, t: seq<byte>, i: nat, l: DecodeLimits)
    requires |b| <= i < |b| + |t| && l.minimumPreambles <= 255
    ensures var n := |b| - |Retained(b)|;
      IsCandidate((b + t)[n..], i - n, l) == IsCandidate(b + t, i, l)
  {
    RunAfterTrim(b, t, i);
  }

  lemma NoneBefore(b: seq<byte>, t: seq<byte>, l: DecodeLimits)
    requires FindCandidate(b, l).None?
    ensures forall i :: 0 <= i < |b| ==> !IsCandidate(b + t, i, l)
  {
    forall i | 0 <= i < |b| ensures !IsCandidate(b + t, i, l) {
      CandidatePrefix(b, t, i, l);
    }
  }

  /** No index inside a trimmed tail of preambles is a candidate. */
  lemma NoneInRetained(b: seq<byte>, t: seq<byte>, l: DecodeLimits)
    ensures forall i :: 0 <= i < |Retained(b)| ==> !IsCandidate(Retained(b) + t, i, l)
  {
    forall i | 0 <= i < |Retained(b)| ensures !IsCandidate(Retained(b) + t, i, l) {
      RunIsPreambles(b, |b|, |b| - |Retained(b)| + i);
      PreambleIsNoDelimiter(l.checksumPolicy);
    }
  }

  lemma PreambleIsNoDelimiter(p: ChecksumPolicy)
    ensures !IsPossibleDelimiter(PREAMBLE, p)
  {}

  lemma {:induction false} RunIsPreambles(b: seq<byte>, i: nat, j: nat)
    requires i <= |b| && i - RunBefore(b, i) <= j < i
    ensures b[j] == PREAMBLE
  {
    if j < i - 1 {
      RunIsPreambles(b, i - 1, j);
    }
  }

  /** The candidate search sees the same candidate, shifted, after the trim. */
  lemma SearchAfterTrim(b: seq<byte>, t: seq<byte>, l: DecodeLimits)
    requires FindCandidate(b, l).None? && l.minimumPreambles <= 255
    ensures var n := |b| - |Retained(b)|;
      match FindCandidate(b + t, l)
      case None => FindCandidate(Retained(b) + t, l).None?
      case Some(c) => c.start >= n && FindCandidate(Retained(b) + t, l) == Some(Candidate(c.index - n, c.start - n, c.count))
  {
    hide IsCandidate, Retained;
    var n := |b| - |Retained(b)|;
    var c := b + t;
    assert c[n..] == Retained(b) + t;
    NoneBefore(b, t, l);
    NoneInRetained(b, t, l);
    forall i | |b| <= i < |c| ensures IsCandidate(c[n..], i - n, l) == IsCandidate(c, i, l) {
      CandidateAfterTrim(b, t, i, l);
    }
    var found := FindFrom(c, 0, l);
    if found.Some? {
      var i := found.value;
      assert i >= |b|;
      forall j | 0 <= j < i - n ensures !IsCandidate(c[n..], j, l) {
        if j >= |Retained(b)| {
          assert !IsCandidate(c, j + n, l);
        }
      }
      FirstCandidate(c[n..], i - n, l);
      RunAfterTrim(b, t, i);
    } else {
      forall j | |Retained(b)| <= j < |c[n..]| ensures !IsCandidate(c[n..], j, l) {
        assert !IsCandidate(c, j + n, l);
      }
    }
  }

  /** Keeping only the trailing preambles of a prefix without candidate loses nothing. */
  lemma TrimLosesNothing(b: seq<byte>, t: seq<byte>, l: DecodeLimits)
    requires FindCandidate(b, l).None? && l.minimumPreambles <= 255
    ensures Decode(b + t, l) == Skip(|b| - |Retained(b)|, Decode(Retained(b) + t, l))
  {
    hide FindCandidate, AnalyzeAt, RunBefore, Retained, Decode;
    var n := |b| - |Retained(b)|;
    var c := b + t;
    SearchAfterTrim(b, t, l);
    assert c[n..] == Retained(b) + t;
    var found := FindCandidate(c, l);
    if found.None? {
      RetainedAfterTrim(b, t);
      DecodeNothing(c, l);
      DecodeNothing(c[n..], l);
    } else if n == 0 {
      assert c[n..] == c;
    } else {
      var start := found.value.start;
      CandidateIndex(c, l);
      DecodeFromStart(c, l);
      if start > n {
        CandidateIndex(c[n..], l);
        DecodeFromStart(c[n..], l);
        assert c[start..] == c[n..][start - n..];
      }
    }
  }

  lemma DecodeNothing(c: seq<byte>, l: DecodeLimits)
    requires FindCandidate(c, l).None?
    ensures Decode(c, l) == Outcome([], Retained(c), |c| - |Retained(c)|)
  {
    hide FindCandidate, AnalyzeAt, RunBefore, Retained;
  }

  /** Bytes before the candidate's preambles are skipped first. */
  lemma DecodeFromStart(c: seq<byte>, l: DecodeLimits)
    requires FindCandidate(c, l).Some? && 0 < FindCandidate(c, l).value.start <= |c|
    ensures var start := FindCandidate(c, l).value.start;
      Decode(c, l) == Skip(start, Decode(c[start..], l))
  {
    hide FindCandidate, AnalyzeAt, RunBefore, Retained;
  }

  lemma RetainedAfterTrim(b: seq<byte>, t: seq<byte>)
    ensures var n := |b| - |Retained(b)|;
      Retained((b + t)[n..]) == Retained(b + t)
  {
    RunAfterTrim(b, t, |b + t|);
  }

  // ------------------------------------------------------------- continuation

  function Join(first: Outcome, second: Outcome): Outcome {
    Outcome(first.events + second.events, second.rest, first.discarded + second.discarded)
  }

  lemma JoinSkip(n: nat, first: Outcome, second: Outcome)
    ensures Join(Skip(n, first), second) == Skip(n, Join(first, second))
  {}

  lemma JoinAnnounce(e: DecodeEvent, first: Outcome, second: Outcome)
    ensures Join(Announce(e, first), second) == Announce(e, Join(first, second))
  {
    assert [e] + (first.events + second.events) == [e] + first.events + second.events;
  }

  lemma JoinNothing(second: Outcome, rest: seq<byte>)
    ensures Join(Outcome([], rest, 0), second) == second
  {
    assert [] + second.events == second.events;
  }

  /** Decoding `b` and then continuing from its tail with `t` is decoding `b + t`. */
  lemma {:induction false} Continuation(b: seq<byte>, t: seq<byte>, l: DecodeLimits)
    requires l.minimumPreambles <= 255
    ensures Decode(b + t, l) == Join(Decode(b, l), Decode(Decode(b, l).rest + t, l))
    decreases |b|
  {
    hide Analyze, Retained, Join;
    match Analyze(b, l)
    case NoCandidate =>
      NoCandidateMeansNone(b, l);
      TrimLosesNothing(b, t, l);
      var second := Decode(Retained(b) + t, l);
      JoinSkip(|b| - |Retained(b)|, Outcome([], Retained(b), 0), second);
      JoinNothing(second, Retained(b));
    case NeedMore =>
      JoinNothing(Decode(b + t, l), b);
    case Discard(n) =>
      AnalyzeStable(b, t, l);
      assert (b + t)[n..] == b[n..] + t;
      Continuation(b[n..], t, l);
      JoinSkip(n, Decode(b[n..], l), Decode(Decode(b[n..], l).rest + t, l));
    case Reject(error, n, _) =>
      AnalyzeStable(b, t, l);
      assert (b + t)[n..] == b[n..] + t;
      Continuation(b[n..], t, l);
      var first, second := Decode(b[n..], l), Decode(Decode(b[n..], l).rest + t, l);
      JoinSkip(n, first, second);
      JoinAnnounce(Rejected(error), Skip(n, first), second);
    case Emit(frame, n, _) =>
      AnalyzeStable(b, t, l);
      assert (b + t)[n..] == b[n..] + t;
      Continuation(b[n..], t, l);
      JoinAnnounce(Received(frame), Decode(b[n..], l), Decode(Decode(b[n..], l).rest + t, l));
  }

  lemma NoCandidateMeansNone(b: seq<byte>, l: DecodeLimits)
    requires Analyze(b, l).NoCandidate?
    ensures FindCandidate(b, l).None?
  {}

  // ------------------------------------------------------------ settled tails

  /** A buffer from which nothing more can be extracted yet. */
  ghost predicate Settled(b: seq<byte>, l: DecodeLimits) {
    Decode(b, l) == Outcome([], b, 0)
  }

  lemma RetainedIsSettled(b: seq<byte>, l: DecodeLimits)
    ensures Settled(Retained(b), l)
  {
    hide IsCandidate, AnalyzeAt, RunBefore;
    var r := Retained(b);
    NoneInRetained(b, [], l);
    assert r + [] == r;
    assert FindFrom(r, 0, l).None?;
    RunAfterDrop(b, |b| - |r|, |b|);
  }

  lemma {:induction false} TailIsSettled(b: seq<byte>, l: DecodeLimits)
    ensures Settled(Decode(b, l).rest, l)
    decreases |b|
  {
    hide Analyze, Retained;
    match Analyze(b, l)
    case NoCandidate => RetainedIsSettled(b, l);
    case NeedMore =>
    case Discard(n) => TailIsSettled(b[n..], l);
    case Reject(_, n, _) => TailIsSettled(b[n..], l);
    case Emit(_, n, _) => TailIsSettled(b[n..], l);
  }

  /** An incomplete tail is shorter than the longest frame. */
  lemma SettledIsShort(b: seq<byte>, l: DecodeLimits)
    requires Settled(b, l)
    ensures |b| < MAX_ENCODED_FRAME_SIZE
  {
    hide Judge, KindOf;
    match Analyze(b, l)
    case NoCandidate =>
      assert |Retained(b)| == |b|;
    case NeedMore =>
      CandidateIndex(b, l);
    case Discard(n) =>
    case Reject(_, n, _) =>
    case Emit(_, n, _) =>
  }

  // --------------------------------------------------------------- event limit

  lemma {:induction false} LimitNotReached(b: seq<byte>, l: DecodeLimits, limit: nat)
    requires |Decode(b, l).events| < limit
    ensures DecodeUpTo(b, l, limit) == Decode(b, l)
    decreases |b|
  {
    hide Analyze, Retained;
    match Analyze(b, l)
    case NoCandidate =>
    case NeedMore =>
    case Discard(n) => LimitNotReached(b[n..], l, limit);
    case Reject(_, n, _) => LimitNotReached(b[n..], l, limit - 1);
    case Emit(_, n, _) => LimitNotReached(b[n..], l, limit - 1);
  }

  lemma StepConsumesTwo(b: seq<byte>, l: DecodeLimits)
    requires 1 <= l.minimumPreambles
    ensures var step := Analyze(b, l);
      (step.Emit? ==> step.consumed >= 2) && (step.Reject? ==> step.consumed >= 2)
  {
    hide Judge;
    if FindCandidate(b, l).Some? {
      CandidateIndex(b, l);
    }
  }

  /** Every event costs at least a preamble and a delimiter. */
  lemma {:induction false} EventsCostBytes(b: seq<byte>, l: DecodeLimits)
    requires 1 <= l.minimumPreambles
    ensures 2 * |Decode(b, l).events| <= |b|
    decreases |b|
  {
    hide Analyze, Retained;
    StepConsumesTwo(b, l);
    match Analyze(b, l)
    case NoCandidate =>
    case NeedMore =>
    case Discard(n) => EventsCostBytes(b[n..], l);
    case Reject(_, n, _) => EventsCostBytes(b[n..], l);
    case Emit(_, n, _) => EventsCostBytes(b[n..], l);
  }

  // -------------------------------------------------- fragmentation theorems

  /** No push of the run meets the byte limit or the event limit. */
  ghost predicate Unclipped(buffer: seq<byte>, fragments: seq<seq<byte>>, l: DecodeLimits)
    decreases |fragments|
  {
    fragments != [] ==>
      var o := Decode(buffer + fragments[0], l);
      && |buffer| + |fragments[0]| <= l.bufferCapacity
      && |o.events| < MAXIMUM_DECODE_EVENTS_PER_PUSH
      && Unclipped(o.rest, fragments[1..], l)
  }

  function AsPushed(o: Outcome): Pushed { Pushed(o.events, o.rest, o.discarded, 0, 0) }

  /**
    Fragmentation independence.  A run of pushes that no limit clips produces
    the events, the tail and the discard count of the unbounded decoder on the
    concatenated stream: they depend on the stream alone.
   */
  lemma {:induction false} FragmentsDoNotMatter(buffer: seq<byte>, fragments: seq<seq<byte>>, l: DecodeLimits)
    requires Effective(l) && Settled(buffer, l) && Unclipped(buffer, fragments, l)
    ensures PushAll(buffer, fragments, l) == AsPushed(Decode(buffer + Flatten(fragments), l))
    decreases |fragments|
  {
    hide Decode, DecodeUpTo;
    if fragments == [] {
      assert buffer + Flatten(fragments) == buffer;
    } else {
      var joined := buffer + fragments[0];
      LimitNotReached(joined, l, MAXIMUM_DECODE_EVENTS_PER_PUSH);
      assert joined[0..] == joined;
      TailIsSettled(joined, l);
      FragmentsDoNotMatter(Decode(joined, l).rest, fragments[1..], l);
      Continuation(joined, Flatten(fragments[1..]), l);
      assert joined + Flatten(fragments[1..]) == buffer + Flatten(fragments);
    }
  }

  /** A stream that fits the buffer and stays under the event limit is never clipped. */
  lemma {:induction false} ShortStreamUnclipped(buffer: seq<byte>, fragments: seq<seq<byte>>, l: DecodeLimits)
    requires Effective(l) && Settled(buffer, l)
    requires |buffer| + |Flatten(fragments)| <= l.bufferCapacity
    requires |Decode(buffer + Flatten(fragments), l).events| < MAXIMUM_DECODE_EVENTS_PER_PUSH
    ensures Unclipped(buffer, fragments, l)
    decreases |fragments|
  {
    hide Decode;
    if fragments != [] {
      var joined := buffer + fragments[0];
      TailIsSettled(joined, l);
      Continuation(joined, Flatten(fragments[1..]), l);
      assert joined + Flatten(fragments[1..]) == buffer + Flatten(fragments);
      ShortStreamUnclipped(Decode(joined, l).rest, fragments[1..], l);
    }
  }

  /** Every way of cutting such a stream gives what one push of it gives. */
  lemma AnyCutEqualsOnePush(buffer: seq<byte>, fragments: seq<seq<byte>>, stream: seq<byte>, l: DecodeLimits)
    requires Effective(l) && Settled(buffer, l) && Flatten(fragments) == stream
    requires |buffer| + |stream| <= l.bufferCapacity
    requires |PushAll(buffer, [stream], l).events| < MAXIMUM_DECODE_EVENTS_PER_PUSH
    ensures PushAll(buffer, fragments, l) == PushAll(buffer, [stream], l)
  {
    OnePush(buffer, stream, l);
    ShortStreamUnclipped(buffer, fragments, l);
    FragmentsDoNotMatter(buffer, fragments, l);
  }

  /** ... counters included: the statistics do not depend on the cut. */
  lemma AnyCutCountsAlike(s: Statistics, buffer: seq<byte>, fragments: seq<seq<byte>>, stream: seq<byte>, l: DecodeLimits)
    requires Effective(l) && Settled(buffer, l) && Flatten(fragments) == stream
    requires |buffer| + |stream| <= l.bufferCapacity
    requires |PushAll(buffer, [stream], l).events| < MAXIMUM_DECODE_EVENTS_PER_PUSH
    ensures TallyRun(s, buffer, fragments, l) == TallyRun(s, buffer, [stream], l)
  {
    hide PushAll, TallyRun, Tally, Settled, Flatten;
    AnyCutEqualsOnePush(buffer, fragments, stream, l);
    RunTallied(s, buffer, fragments, l);
    RunTallied(s, buffer, [stream], l);
  }

  lemma OnePush(buffer: seq<byte>, stream: seq<byte>, l: DecodeLimits)
    requires Effective(l) && |buffer| + |stream| <= l.bufferCapacity
    requires |PushAll(buffer, [stream], l).events| < MAXIMUM_DECODE_EVENTS_PER_PUSH
    ensures PushAll(buffer, [stream], l) == AsPushed(Decode(buffer + stream, l))
  {
    hide Decode, DecodeUpTo;
    var joined := buffer + stream;
    assert joined[0..] == joined;
    assert [stream][1..] == [];
    var p := PushOne(buffer, stream, l);
    assert PushAll(p.rest, [], l) == Pushed([], p.rest, 0, 0, 0);
    assert p.events + [] == p.events;
    LimitWasNotReached(joined, l, MAXIMUM_DECODE_EVENTS_PER_PUSH);
  }

  lemma {:induction false} LimitWasNotReached(b: seq<byte>, l: DecodeLimits, limit: nat)
    requires |DecodeUpTo(b, l, limit).events| < limit
    ensures DecodeUpTo(b, l, limit) == Decode(b, l)
    decreases |b|
  {
    hide Analyze, Retained;
    match Analyze(b, l)
    case NoCandidate =>
    case NeedMore =>
    case Discard(n) => LimitWasNotReached(b[n..], l, limit);
    case Reject(_, n, _) => LimitWasNotReached(b[n..], l, limit - 1);
    case Emit(_, n, _) => LimitWasNotReached(b[n..], l, limit - 1);
  }

  /** With every event costing two bytes, a tail and a read this long stay under the event limit. */
  const MODERATE_READ: nat := 2 * MAXIMUM_DECODE_EVENTS_PER_PUSH - MAX_ENCODED_FRAME_SIZE

  /**
    A condition on the fragments alone: with reads at least 521 bytes short of
    the capacity and at most `MODERATE_READ` bytes, streams of any length are
    never clipped.
   */
  lemma {:induction false} SmallFragmentsUnclipped(buffer: seq<byte>, fragments: seq<seq<byte>>, l: DecodeLimits)
    requires Effective(l) && Settled(buffer, l)
    requires forall f :: f in fragments ==> |f| + MAX_ENCODED_FRAME_SIZE - 1 <= l.bufferCapacity && |f| <= MODERATE_READ
    ensures Unclipped(buffer, fragments, l)
    decreases |fragments|
  {
    hide Decode;
    if fragments != [] {
      var joined := buffer + fragments[0];
      SettledIsShort(buffer, l);
      EventsCostBytes(joined, l);
      TailIsSettled(joined, l);
      SmallFragmentsUnclipped(Decode(joined, l).rest, fragments[1..], l);
    }
  }
}
