/**
  Printing and parsing undo each other: streams of encoded frames decode to
  exactly those frames however they are cut, and the smallest permitted buffer
  is enough for any frame even while overflow is dropping bytes.
 */
module RoundTrip {
  import opened Basics
  import opened Wire
  import opened Decoder
  import opened Fragmentation

  /** A frame this decoder can be sent: valid, unrepaired, with enough preambles. */
  predicate Sendable(f: Frame, l: DecodeLimits) {
    ValidFrame(f) && f.repair.None? && l.minimumPreambles <= f.preambles
  }

  lemma {:induction false} RunOfPreambles(b: seq<byte>, i: nat)
    requires i <= |b| && forall j :: 0 <= j < i ==> b[j] == PREAMBLE
    ensures RunBefore(b, i) == i
  {
    if i > 0 {
      RunOfPreambles(b, i - 1);
    }
  }

  lemma EncodedDelimiter(f: Frame, p: ChecksumPolicy)
    requires ValidFrame(f)
    ensures var d := DelimiterOf(f);
      && KindOf(d) == Some(f.kind) && IsPossibleDelimiter(d, p) && RepairedDelimiter(d, p) == d
      && IsLong(d) == f.address.Unique? && LayerOf(d) == f.physicalLayer && ExpansionBits(d) == |f.expansion|
  {
    hide MakeDelimiter, ExpansionBits, LayerOf, IsLong;
    DelimiterFields(f.kind, f.physicalLayer, f.address.Unique?, |f.expansion|);
  }

  /** Leading preambles followed by a possible delimiter are the first candidate. */
  lemma LeadingCandidate(b: seq<byte>, n: nat, l: DecodeLimits)
    requires Effective(l) && l.minimumPreambles <= n <= 255 && n < |b|
    requires forall j :: 0 <= j < n ==> b[j] == PREAMBLE
    requires IsPossibleDelimiter(b[n], l.checksumPolicy)
    ensures FindCandidate(b, l) == Some(Candidate(n, 0, n))
  {
    hide KindOf;
    RunOfPreambles(b, n);
    PreambleIsNoDelimiter(l.checksumPolicy);
    FirstCandidate(b, n, l);
  }

  lemma {:induction false} OnlyPreambles(b: seq<byte>, l: DecodeLimits)
    requires |b| <= 255 && forall j :: 0 <= j < |b| ==> b[j] == PREAMBLE
    ensures Decode(b, l) == Outcome([], b, 0)
  {
    RunOfPreambles(b, |b|);
    PreambleIsNoDelimiter(l.checksumPolicy);
    hide KindOf;
    assert FindFrom(b, 0, l).None?;
  }

  lemma EncodedParts(f: Frame)
    requires ValidFrame(f)
    ensures Encode(f) == Ok(Preambles(f.preambles) + Covered(f) + [XorChecksum(Covered(f))])
  {
    hide XorChecksum, Covered;
  }

  /** Positions of the delimiter, the count and the check byte in an encoding. */
  lemma EncodedLayout(f: Frame)
    requires ValidFrame(f)
    ensures var e := Encode(f).value;
      var n, m := f.preambles, AddressLength(f.address) + |f.expansion|;
      && |e| == n + m + 4 + |f.payload|
      && (forall j :: 0 <= j < n ==> e[j] == PREAMBLE)
      && e[n] == DelimiterOf(f)
      && e[n + (2 + m)] == ByteOf(|f.payload|)
      && e[n..|e| - 1] == Covered(f)
      && e[|e| - 1] == XorChecksum(Covered(f))
  {
    hide WriteAddress, XorChecksum, DelimiterOf, Covered, ByteOf, Encode, AddressLength, Preambles, ValidAddress;
    var c := Covered(f);
    EncodedParts(f);
    CoveredLayout(f);
    Embedded(Preambles(f.preambles), c, XorChecksum(c), 0, |c|);
  }

  /** Positions of the other fields. */
  lemma EncodedAddress(f: Frame)
    requires ValidFrame(f)
    ensures var e := Encode(f).value;
      var n, k := f.preambles, AddressLength(f.address);
      && e[n + 1..n + (1 + k)] == WriteAddress(f.address, f.kind.Burst?)
      && e[n + (1 + k)..n + (1 + (k + |f.expansion|))] == f.expansion
  {
    hide Encode, Covered, AddressLength, XorChecksum, Preambles, WriteAddress, ByteOf, DelimiterOf, ValidAddress;
    var c := Covered(f);
    var k := AddressLength(f.address);
    EncodedParts(f);
    CoveredLayout(f);
    Embedded(Preambles(f.preambles), c, XorChecksum(c), 1, 1 + k);
    Embedded(Preambles(f.preambles), c, XorChecksum(c), 1 + k, 1 + (k + |f.expansion|));
  }

  lemma EncodedPayload(f: Frame)
    requires ValidFrame(f)
    ensures var e := Encode(f).value;
      var n, m := f.preambles, AddressLength(f.address) + |f.expansion|;
      && e[n + (1 + m)] == f.wireCommand
      && e[n + (3 + m)..|e| - 1] == f.payload
  {
    hide Encode, Covered, AddressLength, XorChecksum, Preambles, WriteAddress, ByteOf, DelimiterOf, ValidAddress;
    var c := Covered(f);
    var m := AddressLength(f.address) + |f.expansion|;
    EncodedParts(f);
    CoveredLayout(f);
    Embedded(Preambles(f.preambles), c, XorChecksum(c), 3 + m, |c|);
  }

  /** Slices of the covered part, seen from the whole encoding. */
  lemma Embedded(p: seq<byte>, c: seq<byte>, x: byte, i: nat, j: nat)
    requires i <= j <= |c|
    ensures (p + c + [x])[|p| + i..|p| + j] == c[i..j]
  {}

  lemma CoveredLayout(f: Frame)
    requires ValidFrame(f)
    ensures var c := Covered(f);
      var k := AddressLength(f.address);
      var m := k + |f.expansion|;
      && c[0] == DelimiterOf(f)
      && c[1..1 + k] == WriteAddress(f.address, f.kind.Burst?)
      && c[1 + k..1 + m] == f.expansion
      && c[1 + m] == f.wireCommand
      && c[2 + m] == ByteOf(|f.payload|)
      && c[3 + m..|c|] == f.payload
  {
    hide WriteAddress, DelimiterOf, ByteOf;
  }

  /** An encoded frame ends where its length says. */
  lemma EncodedEnd(f: Frame, p: ChecksumPolicy)
    requires ValidFrame(f)
    ensures var e := Encode(f).value;
      f.preambles < |e| && FrameEnd(e, f.preambles, p) == Some(|e|)
  {
    hide DelimiterOf, Covered, Encode, KindOf, IsPossibleDelimiter, RepairedDelimiter, ExpansionBits, IsLong, WriteAddress, XorChecksum;
    EncodedLayout(f);
    EncodedDelimiter(f, p);
  }

  /** Judging an encoded frame gives the frame back, under every policy. */
  lemma EncodedJudged(f: Frame, p: ChecksumPolicy)
    requires ValidFrame(f) && f.repair.None?
    requires FrameEnd(Encode(f).value, f.preambles, p) == Some(|Encode(f).value|)
    ensures var e := Encode(f).value;
      Judge(e, f.preambles, p) == Emit(f, |e|, false)
  {
    hide DelimiterOf, Covered, Encode, KindOf, LayerOf, IsPossibleDelimiter, RepairedDelimiter, ExpansionBits, IsLong,
         WriteAddress, ReadAddress, XorChecksum, CheckByte, FrameEnd, ValidAddress;
    var e := Encode(f).value;
    EncodedLayout(f);
    EncodedAddress(f);
    EncodedPayload(f);
    EncodedDelimiter(f, p);
    AddressRoundTrip(f.address, f.kind.Burst?);
    CheckMatches(e[f.preambles], e[f.preambles + 1], XorChecksum(Covered(f)), p);
  }

  lemma CheckMatches(d: byte, received: byte, x: byte, p: ChecksumPolicy)
    ensures CheckByte(d, d, received, x, x, p) == Match(None)
  {
    assert x ^ 0x10 != x;
  }

  /** The analysis takes an encoded frame off the front of any stream. */
  lemma EncodedTaken(f: Frame, t: seq<byte>, l: DecodeLimits)
    requires Effective(l) && Sendable(f, l)
    ensures var e := Encode(f).value;
      Analyze(e + t, l) == Emit(f, |e|, false)
  {
    hide Covered, Encode, IsPossibleDelimiter, FrameEnd, Judge, FindCandidate, DelimiterOf, WriteAddress, XorChecksum;
    var e := Encode(f).value;
    EncodedLayout(f);
    EncodedDelimiter(f, l.checksumPolicy);
    EncodedEnd(f, l.checksumPolicy);
    EncodedJudged(f, l.checksumPolicy);
    assert e[..|e|] == e;
    LeadingCandidate(e, f.preambles, l);
    AnalyzeStable(e, t, l);
  }

  // ------------------------------------------------------------------ streams

  function EncodeAll(frames: seq<Frame>): seq<byte>
    requires forall f :: f in frames ==> Encode(f).Ok?
  {
    if frames == [] then [] else Encode(frames[0]).value + EncodeAll(frames[1..])
  }

  function AsEvents(frames: seq<Frame>): seq<DecodeEvent> {
    if frames == [] then [] else [Received(frames[0])] + AsEvents(frames[1..])
  }

  /** The unbounded decoder inverts the printing of any list of frames. */
  lemma {:induction false} StreamDecodes(frames: seq<Frame>, l: DecodeLimits)
    requires Effective(l) && forall f :: f in frames ==> Sendable(f, l) && Encode(f).Ok?
    ensures Decode(EncodeAll(frames), l) == Outcome(AsEvents(frames), [], 0)
  {
    hide Analyze, Encode, Sendable, ValidFrame, Retained;
    if frames == [] {
      OnlyPreambles([], l);
    } else {
      var e := Encode(frames[0]).value;
      var rest := EncodeAll(frames[1..]);
      EncodedTaken(frames[0], rest, l);
      assert (e + rest)[|e|..] == rest;
      StreamDecodes(frames[1..], l);
    }
  }

  /** Any cut of a printed list that no limit clips parses back to the list. */
  lemma StreamRoundTrip(frames: seq<Frame>, fragments: seq<seq<byte>>, l: DecodeLimits)
    requires Effective(l) && forall f :: f in frames ==> Sendable(f, l) && Encode(f).Ok?
    requires Flatten(fragments) == EncodeAll(frames) && Unclipped([], fragments, l)
    ensures PushAll([], fragments, l) == Pushed(AsEvents(frames), [], 0, 0, 0)
  {
    hide Decode, PushAll, Unclipped, Sendable, Encode;
    OnlyPreambles([], l);
    StreamDecodes(frames, l);
    FragmentsDoNotMatter([], fragments, l);
    assert [] + Flatten(fragments) == EncodeAll(frames);
  }

  lemma {:induction false} AsEventsLength(frames: seq<Frame>)
    ensures |AsEvents(frames)| == |frames|
  {
    if frames != [] { AsEventsLength(frames[1..]); }
  }

  /** In particular every cut of a list within the capacity and the event limit. */
  lemma BoundedStreamRoundTrip(frames: seq<Frame>, fragments: seq<seq<byte>>, l: DecodeLimits)
    requires Effective(l) && forall f :: f in frames ==> Sendable(f, l) && Encode(f).Ok?
    requires Flatten(fragments) == EncodeAll(frames)
    requires |EncodeAll(frames)| <= l.bufferCapacity && |frames| < MAXIMUM_DECODE_EVENTS_PER_PUSH
    ensures PushAll([], fragments, l) == Pushed(AsEvents(frames), [], 0, 0, 0)
  {
    hide Decode, PushAll, Unclipped, Sendable, Encode;
    OnlyPreambles([], l);
    StreamDecodes(frames, l);
    AsEventsLength(frames);
    assert [] + Flatten(fragments) == EncodeAll(frames);
    ShortStreamUnclipped([], fragments, l);
    StreamRoundTrip(frames, fragments, l);
  }

  /** ... and every cut into moderate reads, however long the list. */
  lemma EndlessStreamRoundTrip(frames: seq<Frame>, fragments: seq<seq<byte>>, l: DecodeLimits)
    requires Effective(l) && forall f :: f in frames ==> Sendable(f, l) && Encode(f).Ok?
    requires Flatten(fragments) == EncodeAll(frames)
    requires forall r :: r in fragments ==> |r| + MAX_ENCODED_FRAME_SIZE - 1 <= l.bufferCapacity && |r| <= MODERATE_READ
    ensures PushAll([], fragments, l) == Pushed(AsEvents(frames), [], 0, 0, 0)
  {
    hide Decode, PushAll, Unclipped, Sendable, Encode;
    OnlyPreambles([], l);
    SmallFragmentsUnclipped([], fragments, l);
    StreamRoundTrip(frames, fragments, l);
  }

  // --------------------------------------------------------- minimum capacity

  function BodyLength(f: Frame): nat { EncodedLength(f) - f.preambles }

  /** The smallest decoder buffer a link accepts. */
  function RequiredDecoderCapacity(minimumPreambles: nat): nat {
    MAX_ENCODED_FRAME_SIZE - 255 + minimumPreambles
  }

  lemma FewerPreambles(f: Frame, dropped: nat)
    requires ValidFrame(f) && dropped <= f.preambles
    ensures var g := f.(preambles := f.preambles - dropped);
      ValidFrame(g) && Encode(g).value == Encode(f).value[dropped..]
  {
    hide Covered, XorChecksum;
    var g := f.(preambles := f.preambles - dropped);
    assert Covered(g) == Covered(f) by { SameCovered(f, g); }
    assert Preambles(f.preambles)[dropped..] == Preambles(g.preambles);
    assert Encode(f).value == Preambles(f.preambles) + (Covered(f) + [XorChecksum(Covered(f))]);
    assert Encode(g).value == Preambles(g.preambles) + (Covered(f) + [XorChecksum(Covered(f))]);
  }

  lemma SameCovered(f: Frame, g: Frame)
    requires ValidFrame(f) && g == f.(preambles := g.preambles)
    ensures Covered(f) == Covered(g)
  {}

  /** A proper prefix of an encoded frame, delimiter included, waits for more. */
  lemma PrefixWaits(f: Frame, n: nat, l: DecodeLimits)
    requires Effective(l) && Sendable(f, l) && f.preambles < n < EncodedLength(f)
    ensures Settled(Encode(f).value[..n], l)
  {
    hide Covered, Encode, IsPossibleDelimiter, FindCandidate, DelimiterOf, FrameEnd, Judge, WriteAddress, XorChecksum, ValidAddress;
    var p := l.checksumPolicy;
    var e := Encode(f).value;
    var b := e[..n];
    EncodedLayout(f);
    EncodedDelimiter(f, p);
    EncodedEnd(f, p);
    LeadingCandidate(b, f.preambles, l);
    if FrameEnd(b, f.preambles, p).Some? {
      assert e == b + e[n..];
      EndStable(b, e[n..], f.preambles, p);
      assert false;
    }
  }

  lemma EndStable(b: seq<byte>, t: seq<byte>, i: nat, p: ChecksumPolicy)
    requires i < |b| && FrameEnd(b, i, p).Some?
    ensures FrameEnd(b + t, i, p) == FrameEnd(b, i, p)
  {}

  /** The last `capacity` bytes of the first `x` bytes of `e`. */
  function Window(e: seq<byte>, x: nat, capacity: nat): seq<byte>
    requires x <= |e|
  {
    e[x - Min(x, capacity)..x]
  }

  /** While the frame is incomplete, what the buffer holds of it yields nothing. */
  lemma WindowWaits(f: Frame, x: nat, l: DecodeLimits)
    requires Effective(l) && Sendable(f, l) && l.bufferCapacity >= BodyLength(f) + l.minimumPreambles
    requires Encode(f).Ok? && x < |Encode(f).value|
    ensures Settled(Window(Encode(f).value, x, l.bufferCapacity), l)
  {
    hide Covered, Encode, Settled, ValidAddress, Decode;
    var e := Encode(f).value;
    var n := Min(x, l.bufferCapacity);
    EncodedLayout(f);
    if x <= f.preambles {
      OnlyPreambles(e[x - n..x], l);
      SettledOutcome(e[x - n..x], l);
    } else {
      FewerPreambles(f, x - n);
      var g := f.(preambles := f.preambles - (x - n));
      PrefixWaits(g, n, l);
      assert e[x - n..][..n] == e[x - n..x];
    }
  }

  lemma SettledOutcome(b: seq<byte>, l: DecodeLimits)
    requires Decode(b, l) == Outcome([], b, 0)
    ensures Settled(b, l)
  {}

  /** The frame as the buffer can hold it: surplus preambles may have been dropped. */
  function Shortened(f: Frame, capacity: nat): Frame
    requires capacity >= BodyLength(f)
  {
    f.(preambles := Min(f.preambles, capacity - BodyLength(f)))
  }

  lemma WindowComplete(f: Frame, l: DecodeLimits)
    requires Effective(l) && Sendable(f, l) && l.bufferCapacity >= BodyLength(f) + l.minimumPreambles
    requires Encode(f).Ok?
    ensures var e := Encode(f).value;
      Decode(Window(e, |e|, l.bufferCapacity), l) == Outcome([Received(Shortened(f, l.bufferCapacity))], [], 0)
  {
    hide Covered, Encode, ValidAddress, Analyze;
    var e := Encode(f).value;
    var n := Min(|e|, l.bufferCapacity);
    var g := Shortened(f, l.bufferCapacity);
    assert |e| == EncodedLength(f) && |e| - n == f.preambles - g.preambles;
    FewerPreambles(f, |e| - n);
    assert g == f.(preambles := f.preambles - (|e| - n));
    EncodedTaken(g, [], l);
    var w := Encode(g).value;
    assert e[|e| - n..|e|] == e[|e| - n..];
    assert w == Window(e, |e|, l.bufferCapacity);
    assert w + [] == w && w[|w|..] == [];
    OnlyPreambles([], l);
  }

  lemma WindowGrows(e: seq<byte>, x: nat, fragment: seq<byte>, l: DecodeLimits)
    requires x + |fragment| <= |e| && fragment == e[x..x + |fragment|]
    ensures var w := Window(e, x, l.bufferCapacity);
      (w + fragment)[Overflow(w, fragment, l)..] == Window(e, x + |fragment|, l.bufferCapacity)
  {
    var w := Window(e, x, l.bufferCapacity);
    assert w + fragment == e[x - |w|..x + |fragment|];
  }

  /**
    The frame arrives, whatever the fragmentation and however many surplus
    preambles overflow drops on the way: exactly one event, and the preamble
    count that fits beside the body, never below the minimum.
   */
  lemma {:induction false} FrameArrives(f: Frame, x: nat, fragments: seq<seq<byte>>, l: DecodeLimits)
    requires Effective(l) && Sendable(f, l) && l.bufferCapacity >= BodyLength(f) + l.minimumPreambles
    requires Encode(f).Ok? && x <= |Encode(f).value| && Flatten(fragments) == Encode(f).value[x..]
    ensures var e := Encode(f).value;
      var buffer := if x < |e| then Window(e, x, l.bufferCapacity) else [];
      var r := PushAll(buffer, fragments, l);
      x < |e| ==>
        && r.events == [Received(Shortened(f, l.bufferCapacity))]
        && r.rest == [] && r.discarded == 0 && r.limitHits == 0
    ensures var e := Encode(f).value;
      x == |e| ==> PushAll([], fragments, l) == Pushed([], [], 0, 0, 0)
    decreases |fragments|
  {
    hide Encode, Decode, DecodeUpTo, Sendable, BodyLength, Shortened;
    var e := Encode(f).value;
    if fragments == [] {
      assert x == |e|;
    } else {
      var fragment := fragments[0];
      var y := x + |fragment|;
      assert e[x..] == fragment + Flatten(fragments[1..]);
      assert fragment == e[x..][..|fragment|] == e[x..y];
      assert Flatten(fragments[1..]) == e[x..][|fragment|..] == e[y..];
      FrameArrives(f, y, fragments[1..], l);
      if x == |e| {
        assert [] + fragment == [] && fragment[0..] == [];
        OnlyPreambles([], l);
        LimitNotReached([], l, MAXIMUM_DECODE_EVENTS_PER_PUSH);
      } else {
        var w := Window(e, y, l.bufferCapacity);
        WindowGrows(e, x, fragment, l);
        if y < |e| {
          WindowWaits(f, y, l);
        } else {
          WindowComplete(f, l);
        }
        LimitNotReached(w, l, MAXIMUM_DECODE_EVENTS_PER_PUSH);
      }
    }
  }

  /** The smallest buffer a link may be configured with is enough for every frame. */
  lemma MinimumCapacitySuffices(f: Frame, fragments: seq<seq<byte>>, l: DecodeLimits)
    requires Effective(l) && Sendable(f, l) && Encode(f).Ok?
    requires l.bufferCapacity >= RequiredDecoderCapacity(l.minimumPreambles)
    requires Flatten(fragments) == Encode(f).value
    ensures l.bufferCapacity >= BodyLength(f)
    ensures var g := Shortened(f, l.bufferCapacity);
      && PushAll([], fragments, l).events == [Received(g)]
      && PushAll([], fragments, l).rest == []
      && g == f.(preambles := g.preambles) && l.minimumPreambles <= g.preambles <= f.preambles
  {
    hide Encode, PushAll;
    var e := Encode(f).value;
    assert e[0..] == e;
    assert Window(e, 0, l.bufferCapacity) == [];
    FrameArrives(f, 0, fragments, l);
  }
}
