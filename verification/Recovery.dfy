/**
  Resynchronisation: a good frame behind arbitrary bytes.  A refused candidate
  costs only its preambles and its delimiter, and skipped bytes hide no
  candidate, so nothing but an accepted frame that runs into it, or one the
  decoder is still waiting for, can keep a good frame from being received.
 */
module Recovery {
  import opened Basics
  import opened Wire
  import opened Decoder
  import opened Fragmentation
  import opened Tiling
  import opened RoundTrip
  import opened Verdicts

  /** What is chosen for bytes at the front of a stream is taken off it. */
  lemma ChosenTaken(f: Frame, c: seq<byte>, t: seq<byte>, l: DecodeLimits)
    requires Effective(l) && Chosen(f, c, l.checksumPolicy) && f.preambles >= l.minimumPreambles
    ensures Analyze(c + t, l) == Emit(f, |c|, f.repair.Some?)
  {
    PreamblesBounded(f, c, l.checksumPolicy);
    hide Chosen, FrameEnd, FindCandidate, Judge, Analyze, IsPossibleDelimiter;
    var n, p := f.preambles, l.checksumPolicy;
    ChosenIsEmitted(f, c, p);
    LeadingCandidate(c + t, n, l);
    EndStable(c, t, n, p);
    AnalyzeIsJudge(c + t, l);
    assert (c + t)[..|c|] == c;
  }

  lemma PreamblesBounded(f: Frame, c: seq<byte>, p: ChecksumPolicy)
    requires Chosen(f, c, p)
    ensures f.preambles <= 255
  {}

  /** A flipped delimiter bit is repaired, at the front of any stream. */
  lemma FlippedDelimiterRepaired(f: Frame, checkedAfter: bool, t: seq<byte>, l: DecodeLimits)
    requires Effective(l) && ValidFrame(f) && f.preambles >= l.minimumPreambles && AllowDelimiterRepair(l.checksumPolicy)
    ensures var x := XorChecksum(Covered(f));
      var c := Image(f, Xor(DelimiterOf(f), 0x10), FirstAddressByte(f), if checkedAfter then Xor(x, 0x10) else x);
      Analyze(c + t, l) == Emit(f.(repair := Some(DelimiterBit)), |c|, true)
  {
    hide Chosen, Image, Covered, XorChecksum, Xor, DelimiterOf, FirstAddressByte, Analyze;
    FlippedDelimiterChosen(f, checkedAfter, l.checksumPolicy);
    var x := XorChecksum(Covered(f));
    var c := Image(f, Xor(DelimiterOf(f), 0x10), FirstAddressByte(f), if checkedAfter then Xor(x, 0x10) else x);
    ChosenTaken(f.(repair := Some(DelimiterBit)), c, t, l);
  }

  /** So is a short address rewritten after the check byte was computed. */
  lemma RewrittenAddressRepaired(f: Frame, source: byte, t: seq<byte>, l: DecodeLimits)
    requires Effective(l) && ValidFrame(f) && f.preambles >= l.minimumPreambles
    requires f.address.Polling? && f.address.node != source <= 63
    requires l.checksumPolicy.KnownGateway? && l.checksumPolicy.checksumSourceNode == Some(source)
    requires l.checksumPolicy.delimiterBit ==> Xor(f.address.node, source) != 0x10
    ensures var g := f.(address := Polling(source, f.address.master));
      var c := Image(f, DelimiterOf(f), FirstAddressByte(f), XorChecksum(Covered(g)));
      Analyze(c + t, l) == Emit(f.(repair := Some(ShortAddressRewrite(source))), |c|, true)
  {
    RewrittenAddressChosen(f, source, l.checksumPolicy);
    hide Chosen, Image, Covered, XorChecksum, Xor, DelimiterOf, FirstAddressByte, Analyze;
    var g := f.(address := Polling(source, f.address.master));
    var c := Image(f, DelimiterOf(f), FirstAddressByte(f), XorChecksum(Covered(g)));
    ChosenTaken(f.(repair := Some(ShortAddressRewrite(source))), c, t, l);
  }

  // ------------------------------------------------------------- recovery

  /** The tiles laid by the unbounded decoder. */
  ghost function StreamTiles(b: seq<byte>, l: DecodeLimits): seq<Tile>
    decreases |b|
  {
    match Analyze(b, l)
    case NoCandidate => [Tile(Skipped, b[..|b| - |Retained(b)|])]
    case NeedMore => []
    case Discard(n) => [Tile(Skipped, b[..n])] + StreamTiles(b[n..], l)
    case Reject(error, n, _) => [Tile(Refused(error), b[..n])] + StreamTiles(b[n..], l)
    case Emit(frame, n, _) => [Tile(Accepted(frame), b[..n])] + StreamTiles(b[n..], l)
  }

  /** They are the tiles of module Tiling when no limit is reached. */
  lemma {:induction false} StreamTilesAre(b: seq<byte>, l: DecodeLimits, limit: nat)
    requires |Decode(b, l).events| < limit
    ensures TilesOf(b, l, limit) == StreamTiles(b, l)
    decreases |b|
  {
    hide Analyze, Retained;
    match Analyze(b, l)
    case NoCandidate =>
    case NeedMore =>
    case Discard(n) => StreamTilesAre(b[n..], l, limit);
    case Reject(_, n, _) => StreamTilesAre(b[n..], l, limit - 1);
    case Emit(_, n, _) => StreamTilesAre(b[n..], l, limit - 1);
  }

  /** The tile that reaches beyond offset `n` is a frame whose delimiter lies before it. */
  ghost predicate RunsInto(tiles: seq<Tile>, n: nat)
    decreases |tiles|
  {
    tiles != []
    && var t := tiles[0];
       if |t.bytes| <= n then RunsInto(tiles[1..], n - |t.bytes|)
       else t.kind.Accepted? && t.kind.frame.preambles < n
  }

  /** With only preambles before it, the frame is taken with all of them. */
  lemma TakenWithMore(f: Frame, b: seq<byte>, i: nat, t: seq<byte>, l: DecodeLimits)
    requires Effective(l) && Sendable(f, l) && f.preambles <= i <= 255
    requires b == Preambles(i - f.preambles) + Encode(f).value + t
    ensures Analyze(b, l) == Emit(f.(preambles := i), i - f.preambles + |Encode(f).value|, false)
  {
    var g := f.(preambles := i);
    hide Analyze, Covered, XorChecksum;
    EncodedParts(f);
    EncodedParts(g);
    SameCovered(f, g);
    EncodedTaken(g, t, l);
    assert Preambles(i) == Preambles(i - f.preambles) + Preambles(f.preambles);
    assert Encode(g).value == Preambles(i - f.preambles) + Encode(f).value;
  }

  /** What the beginning of an encoded frame looks like inside a stream. */
  lemma InStream(u: seq<byte>, f: Frame, t: seq<byte>, l: DecodeLimits)
    requires Effective(l) && Sendable(f, l)
    ensures var b := u + Encode(f).value + t;
      var p := |u| + f.preambles;
      && p < |b| && (forall j :: |u| <= j < p ==> b[j] == PREAMBLE)
      && IsCandidate(b, p, l) && f.preambles <= RunBefore(b, p)
  {
    hide IsPossibleDelimiter, Encode, DelimiterOf, RunBefore, XorChecksum, Covered;
    var e := Encode(f).value;
    EncodedLayout(f);
    EncodedDelimiter(f, l.checksumPolicy);
    var b := u + e + t;
    var p := |u| + f.preambles;
    forall j | |u| <= j < p ensures b[j] == PREAMBLE { assert b[j] == e[j - |u|]; }
    assert b[p] == e[f.preambles];
    RunAtLeast(b, p, f.preambles);
  }

  lemma {:induction false} RunAtLeast(b: seq<byte>, i: nat, n: nat)
    requires n <= i <= |b| && forall j :: i - n <= j < i ==> b[j] == PREAMBLE
    ensures n <= RunBefore(b, i)
  {
    if n > 0 { RunAtLeast(b, i - 1, n - 1); }
  }

  /** The first candidate lies in the prefix, or it is the frame itself. */
  lemma FirstInStream(u: seq<byte>, f: Frame, t: seq<byte>, l: DecodeLimits)
    requires Effective(l) && Sendable(f, l)
    ensures var b := u + Encode(f).value + t;
      var found := FindCandidate(b, l);
      && found.Some? && found.value.start + found.value.count == found.value.index < |b|
      && (found.value.index < |u| || (found.value.index == |u| + f.preambles && found.value.start <= |u|))
      && found.value.count <= 255
      && (forall j :: found.value.start <= j < found.value.index ==> b[j] == PREAMBLE)
  {
    hide Encode, RunBefore, IsCandidate, IsPossibleDelimiter;
    InStream(u, f, t, l);
    var b := u + Encode(f).value + t;
    var p := |u| + f.preambles;
    FoundAtMost(b, p, l);
    CandidateIndex(b, l);
    var c := FindCandidate(b, l).value;
    forall j | c.start <= j < c.index ensures b[j] == PREAMBLE { RunIsPreambles(b, c.index, j); }
    if |u| <= c.index < p {
      NotPreamble(b, c.index, l);
    }
  }

  lemma FoundAtMost(b: seq<byte>, p: nat, l: DecodeLimits)
    requires p < |b| && IsCandidate(b, p, l)
    ensures FindCandidate(b, l).Some? && FindCandidate(b, l).value.index <= p
  {}

  lemma NotPreamble(b: seq<byte>, i: nat, l: DecodeLimits)
    requires i < |b| && IsCandidate(b, i, l)
    ensures b[i] != PREAMBLE
  {
    PreambleIsNoDelimiter(l.checksumPolicy);
  }

  /** The remaining stream after some bytes of the prefix. */
  lemma Onwards(u: seq<byte>, e: seq<byte>, t: seq<byte>, n: nat)
    requires n <= |u|
    ensures (u + e + t)[n..] == u[n..] + e + t
  {}

  /** Some events, then the frame with `m` preambles, then what is behind it. */
  function Behind(before: seq<DecodeEvent>, f: Frame, m: nat, d: nat, o: Outcome): Outcome {
    Outcome(before + [Received(f.(preambles := m))] + o.events, o.rest, d + o.discarded)
  }

  /** The frame was received, with at least its own preambles, and decoding went on behind it. */
  ghost predicate ReceivedIn(o: Outcome, f: Frame, t: seq<byte>, l: DecodeLimits) {
    exists before, m, d :: f.preambles <= m <= 255 && o == Behind(before, f, m, d, Decode(t, l))
  }

  lemma SkipReceived(n: nat, o: Outcome, f: Frame, t: seq<byte>, l: DecodeLimits)
    requires ReceivedIn(o, f, t, l)
    ensures ReceivedIn(Skip(n, o), f, t, l)
  {
    hide Decode;
    var before, m, d :| f.preambles <= m <= 255 && o == Behind(before, f, m, d, Decode(t, l));
    assert Skip(n, o) == Behind(before, f, m, n + d, Decode(t, l));
  }

  lemma AnnounceReceived(e: DecodeEvent, o: Outcome, f: Frame, t: seq<byte>, l: DecodeLimits)
    requires ReceivedIn(o, f, t, l)
    ensures ReceivedIn(Announce(e, o), f, t, l)
  {
    hide Decode;
    var before, m, d :| f.preambles <= m <= 255 && o == Behind(before, f, m, d, Decode(t, l));
    var x := [Received(f.(preambles := m))];
    assert [e] + (before + x + Decode(t, l).events) == ([e] + before) + x + Decode(t, l).events;
    assert Announce(e, o) == Behind([e] + before, f, m, d, Decode(t, l));
  }

  lemma FirstReceived(f: Frame, m: nat, t: seq<byte>, l: DecodeLimits)
    requires f.preambles <= m <= 255
    ensures ReceivedIn(Announce(Received(f.(preambles := m)), Decode(t, l)), f, t, l)
  {
    hide Decode;
    var x := [Received(f.(preambles := m))];
    assert [] + x + Decode(t, l).events == x + Decode(t, l).events;
    assert Announce(Received(f.(preambles := m)), Decode(t, l)) == Behind([], f, m, 0, Decode(t, l));
  }

  /**
    Behind any bytes, a good frame is received, and decoding goes on behind it,
    if no accepted frame of the prefix runs into it and the decoder is not still
    waiting for the end of a candidate of the prefix.
   */
  lemma {:induction false} FrameRecovered(u: seq<byte>, f: Frame, t: seq<byte>, l: DecodeLimits)
    requires Effective(l) && Sendable(f, l) && Encode(f).Ok?
    requires var b := u + Encode(f).value + t;
      !RunsInto(StreamTiles(b, l), |u|) && |Decode(b, l).rest| <= |Encode(f).value| + |t|
    ensures ReceivedIn(Decode(u + Encode(f).value + t, l), f, t, l)
    decreases |u|
  {
    hide Analyze, Sendable, Encode, FindCandidate, IsCandidate, ReceivedIn, Retained, RunBefore;
    var e := Encode(f).value;
    var b := u + e + t;
    FirstInStream(u, f, t, l);
    var found := FindCandidate(b, l).value;
    if found.start > 0 {
      StartSkipped(b, l);
      var n := found.start;
      Onwards(u, e, t, n);
      FrameRecovered(u[n..], f, t, l);
      SkipReceived(n, Decode(b[n..], l), f, t, l);
    } else if found.index >= |u| {
      OwnCandidate(u, f, t, found.index, l);
      FirstReceived(f, found.index, t, l);
    } else {
      EarlierCandidate(b, l);
      match Analyze(b, l)
      case Reject(error, n, _) =>
        Onwards(u, e, t, n);
        FrameRecovered(u[n..], f, t, l);
        SkipReceived(n, Decode(b[n..], l), f, t, l);
        AnnounceReceived(Rejected(error), Skip(n, Decode(b[n..], l)), f, t, l);
      case Emit(frame, n, _) =>
        Onwards(u, e, t, n);
        FrameRecovered(u[n..], f, t, l);
        AnnounceReceived(Received(frame), Decode(b[n..], l), f, t, l);
      case _ =>
    }
  }

  lemma StartSkipped(b: seq<byte>, l: DecodeLimits)
    requires FindCandidate(b, l).Some? && FindCandidate(b, l).value.start > 0
    ensures Analyze(b, l) == Discard(FindCandidate(b, l).value.start)
  {}

  /** A candidate with its preambles in front is judged or waited for; a refusal takes it up to its delimiter. */
  lemma EarlierCandidate(b: seq<byte>, l: DecodeLimits)
    requires Effective(l) && FindCandidate(b, l).Some? && FindCandidate(b, l).value.start == 0
    ensures var i := FindCandidate(b, l).value.index;
      var step := Analyze(b, l);
      && (step.NeedMore? || step.Reject? || step.Emit?)
      && (step.Reject? ==> step.consumed == i + 1)
      && (step.Emit? ==> step.frame.preambles == i)
  {
    hide FindCandidate, FrameEnd, Judge, Chosen, XorChecksum, Analyze;
    AnalyzeIsJudge(b, l);
    if FrameEnd(b, FindCandidate(b, l).value.index, l.checksumPolicy).Some? { VerdictExact(b, l); }
  }

  /** When the first candidate is the frame itself, it is taken. */
  lemma OwnCandidate(u: seq<byte>, f: Frame, t: seq<byte>, i: nat, l: DecodeLimits)
    requires Effective(l) && Sendable(f, l) && Encode(f).Ok? && i == |u| + f.preambles <= 255
    requires forall j :: 0 <= j < i && j < |u + Encode(f).value + t| ==> (u + Encode(f).value + t)[j] == PREAMBLE
    ensures var b := u + Encode(f).value + t;
      Decode(b, l) == Announce(Received(f.(preambles := i)), Decode(t, l))
  {
    hide Analyze, Sendable, Encode;
    var e := Encode(f).value;
    var b := u + e + t;
    forall j | 0 <= j < |u| ensures u[j] == PREAMBLE { assert b[j] == u[j]; }
    assert u == Preambles(|u|);
    TakenWithMore(f, b, i, t, l);
    assert b[|u| + |e|..] == t;
  }

  /** The same for the stream in pieces, when no limit clips a push. */
  lemma FrameRecoveredInPieces(u: seq<byte>, f: Frame, t: seq<byte>, fragments: seq<seq<byte>>, l: DecodeLimits)
    requires Effective(l) && Sendable(f, l) && Encode(f).Ok?
    requires Flatten(fragments) == u + Encode(f).value + t && Unclipped([], fragments, l)
    requires !RunsInto(StreamTiles(Flatten(fragments), l), |u|)
    requires |PushAll([], fragments, l).rest| <= |Encode(f).value| + |t|
    ensures exists m: nat :: f.preambles <= m <= 255 && Received(f.(preambles := m)) in PushAll([], fragments, l).events
  {
    hide Decode, PushAll, StreamTiles, RunsInto, Encode, Sendable, Flatten, Unclipped, Settled, ReceivedIn;
    EmptyIsSettled(l);
    FragmentsDoNotMatter([], fragments, l);
    assert [] + Flatten(fragments) == Flatten(fragments);
    FrameRecovered(u, f, t, l);
    ReceivedAmong(Decode(u + Encode(f).value + t, l), f, t, l);
  }

  lemma ReceivedAmong(o: Outcome, f: Frame, t: seq<byte>, l: DecodeLimits)
    requires ReceivedIn(o, f, t, l)
    ensures exists m: nat :: f.preambles <= m <= 255 && Received(f.(preambles := m)) in o.events
  {
    hide Decode;
    var before, m, d :| f.preambles <= m <= 255 && o == Behind(before, f, m, d, Decode(t, l));
    assert o.events[|before|] == Received(f.(preambles := m));
  }
}
