/**
  What every run of pushes does to its input, limits or no limits: the stream
  is tiled, in order and without gaps, by the bytes of accepted frames, refused
  candidates, skipped noise and bytes lost to the capacity, and then the tail.
  Each accepted frame stands for the bytes it consumed.
 */
module Tiling {
  import opened Basics
  import opened Wire
  import opened Decoder
  import opened Fragmentation

  // --------------------------------------------------------- frame soundness

  /** The first address byte of the encoding of `f`. */
  function FirstAddressByte(f: Frame): byte { WriteAddress(f.address, f.kind.Burst?)[0] }

  /** Everything between the first address byte and the check byte. */
  function Middle(f: Frame): seq<byte>
    requires |f.payload| <= 255
  {
    WriteAddress(f.address, f.kind.Burst?)[1..] + f.expansion
    + [f.wireCommand, ByteOf(|f.payload|)] + f.payload
  }

  /** The layout of `f` with its delimiter, first address byte and check byte given. */
  function Image(f: Frame, delimiter: byte, first: byte, check: byte): seq<byte>
    requires |f.payload| <= 255
  {
    Preambles(f.preambles) + [delimiter, first] + Middle(f) + [check]
  }

  lemma CoveredParts(f: Frame)
    requires ValidFrame(f)
    ensures Covered(f) == [DelimiterOf(f), FirstAddressByte(f)] + Middle(f)
    ensures Encode(f).value == Image(f, DelimiterOf(f), FirstAddressByte(f), XorChecksum(Covered(f)))
  {
    hide WriteAddress, DelimiterOf, XorChecksum;
    var w := WriteAddress(f.address, f.kind.Burst?);
    assert w == [w[0]] + w[1..];
  }

  /** XOR over everything after the preambles: zero exactly when the check byte matches. */
  function Residue(c: seq<byte>, i: nat): byte
    requires i < |c|
  {
    Xor(XorChecksum(c[i..|c| - 1]), c[|c| - 1])
  }

  /** Which residues the policy lets a frame with a given repair have. */
  predicate Admissible(f: Frame, delimiterAltered: bool, residue: byte, p: ChecksumPolicy) {
    && (delimiterAltered ==> AllowDelimiterRepair(p))
    && match f.repair
       case None => !delimiterAltered && residue == 0
       case Some(DelimiterBit) =>
         && AllowDelimiterRepair(p)
         && (residue == 0x10 || (residue == 0 && delimiterAltered))
       case Some(ShortAddressRewrite(source)) =>
         && p.KnownGateway? && p.checksumSourceNode == Some(source) && source <= 63
         && f.address.Polling? && residue == Xor(f.address.node, source) && residue != 0
  }

  /**
    The frame `f` stands for the bytes `c`: they are its encoding up to the
    reserved delimiter bit, the burst bit of the address and the check byte,
    within what the policy admits.
   */
  predicate StandsFor(f: Frame, c: seq<byte>, p: ChecksumPolicy) {
    && ValidFrame(f) && |c| == EncodedLength(f)
    && var i := f.preambles;
       var d := DelimiterOf(f);
       var a := FirstAddressByte(f);
       && c == Image(f, c[i], c[i + 1], c[|c| - 1])
       && (c[i] == d || c[i] == Xor(d, 0x10))
       && (c[i + 1] == a || c[i + 1] == Xor(a, 0x40))
       && Admissible(f, c[i] != d, Residue(c, i), p)
  }

  lemma BurstBitOnly(b: byte, burst: bool)
    ensures b == WithBurstBit(b, burst) || b == Xor(WithBurstBit(b, burst), 0x40)
  {}

  lemma RepairMeaning(p: ChecksumPolicy, received: byte, expected: byte, actual: byte)
    requires ShortAddressRepair(p, received, expected, actual).Some?
    ensures p.KnownGateway? && p.checksumSourceNode.Some? && p.checksumSourceNode.value <= 63
    ensures ShortAddressRepair(p, received, expected, actual).value == ShortAddressRewrite(p.checksumSourceNode.value)
    ensures Xor(expected, actual) == Xor(LowSix(received), p.checksumSourceNode.value)
  {}

  /** Which bytes the fields of an emitted frame come from. */
  lemma EmittedFields(c: seq<byte>, i: nat, p: ChecksumPolicy)
    requires i < |c| && FrameEnd(c, i, p) == Some(|c|) && Judge(c, i, p).Emit?
    ensures var f := Judge(c, i, p).frame;
      var delimiter := RepairedDelimiter(c[i], p);
      var k, n := AddressBytes(delimiter), ExpansionBits(delimiter);
      && i + k + n + 4 <= |c| == i + k + n + 4 + ValueOf(c[i + 2 + k + n])
      && f.preambles == i && KindOf(delimiter) == Some(f.kind) && f.physicalLayer == LayerOf(delimiter)
      && ReadAddress(c[i + 1..i + 1 + k], IsLong(delimiter)) == Ok(f.address)
      && f.expansion == c[i + 1 + k..i + 1 + k + n]
      && f.wireCommand == c[i + 1 + k + n]
      && f.payload == c[i + 3 + k + n..|c| - 1]
      && CheckByte(c[i], delimiter, c[i + 1], XorChecksum(c[i..|c| - 1]), c[|c| - 1], p) == Match(f.repair)
  {
    hide XorChecksum, CheckByte, ReadAddress, KindOf, IsLong, LayerOf, ExpansionBits, RepairedDelimiter;
  }

  /** The frame read from judged bytes has their delimiter and address. */
  lemma HeaderRead(c: seq<byte>, i: nat, p: ChecksumPolicy)
    requires i < |c| && i <= 255 && FrameEnd(c, i, p) == Some(|c|) && IsPossibleDelimiter(c[i], p)
    requires Judge(c, i, p).Emit?
    ensures var f := Judge(c, i, p).frame;
      var delimiter := RepairedDelimiter(c[i], p);
      var k, n := AddressBytes(delimiter), ExpansionBits(delimiter);
      && i + k + n + 4 <= |c|
      && ValidFrame(f) && EncodedLength(f) == |c|
      && DelimiterOf(f) == delimiter
      && f.address.Unique? == IsLong(delimiter)
      && (f.address.Polling? ==> f.address.node == LowSix(c[i + 1]))
      && FirstAddressByte(f) == WithBurstBit(c[i + 1], f.kind.Burst?)
      && WriteAddress(f.address, f.kind.Burst?)[1..] == c[i + 2..i + 1 + k]
  {
    CandidateKind(c[i], p);
    var delimiter := RepairedDelimiter(c[i], p);
    DelimiterRebuild(delimiter);
    EmittedFields(c, i, p);
    hide Judge, FrameEnd, XorChecksum, CheckByte, MakeDelimiter, WriteAddress, ReadAddress, WithBurstBit,
         KindOf, IsLong, LayerOf, ExpansionBits, RepairedDelimiter, IsPossibleDelimiter, ValidAddress;
    var f := Judge(c, i, p).frame;
    var k := AddressBytes(delimiter);
    var address := c[i + 1..i + 1 + k];
    AddressReread(address, IsLong(delimiter), f.kind.Burst?);
    assert address[1..] == c[i + 2..i + 1 + k];
  }

  /** ... and the rest of its layout. */
  lemma MiddleRead(c: seq<byte>, i: nat, p: ChecksumPolicy)
    requires i < |c| && i <= 255 && FrameEnd(c, i, p) == Some(|c|) && IsPossibleDelimiter(c[i], p)
    requires Judge(c, i, p).Emit?
    ensures |Judge(c, i, p).frame.payload| <= 255
    ensures i + 2 <= |c| - 1 && c[i + 2..|c| - 1] == Middle(Judge(c, i, p).frame)
  {
    HeaderRead(c, i, p);
    EmittedFields(c, i, p);
    hide *;
    var delimiter := RepairedDelimiter(c[i], p);
    MiddleFrom(c, i + 1, AddressBytes(delimiter), ExpansionBits(delimiter), Judge(c, i, p).frame);
  }

  lemma MiddleFrom(c: seq<byte>, a: nat, k: nat, n: nat, f: Frame)
    requires 1 <= k && a + k + n + 3 <= |c| == a + k + n + 3 + ValueOf(c[a + 1 + k + n])
    requires WriteAddress(f.address, f.kind.Burst?)[1..] == c[a + 1..a + k]
    requires f.expansion == c[a + k..a + k + n] && f.wireCommand == c[a + k + n]
    requires f.payload == c[a + 2 + k + n..|c| - 1]
    ensures |f.payload| <= 255 && c[a + 1..|c| - 1] == Middle(f)
  {
    hide WriteAddress, ByteOf, ValueOf;
    var w := WriteAddress(f.address, f.kind.Burst?)[1..];
    CommandAndCount(c, a + k + n, |f.payload|);
    var y := [f.wireCommand, ByteOf(|f.payload|)];
    Reassemble(c, a + 1, a + k, a + k + n, a + k + n + 2, |c| - 1, w, f.expansion, y, f.payload);
  }

  lemma TwoBytes(c: seq<byte>, a: nat)
    requires a + 2 <= |c|
    ensures c[a..a + 2] == [c[a], c[a + 1]]
  {}

  lemma CommandAndCount(c: seq<byte>, a: nat, n: nat)
    requires a + 2 <= |c| && ValueOf(c[a + 1]) == n
    ensures n <= 255 && c[a..a + 2] == [c[a], ByteOf(n)]
  {
    hide ByteOf, ValueOf;
    ByteOfBack(c[a + 1]);
  }

  lemma Pieces(c: seq<byte>, a: nat, b: nat, d: nat, e: nat, f: nat)
    requires a <= b <= d <= e <= f <= |c|
    ensures c[a..f] == c[a..b] + c[b..d] + c[d..e] + c[e..f]
  {
    assert c[a..d] == c[a..b] + c[b..d];
    assert c[a..e] == c[a..d] + c[d..e];
  }

  lemma Reassemble(c: seq<byte>, a: nat, b: nat, d: nat, e: nat, f: nat,
                   w: seq<byte>, x: seq<byte>, y: seq<byte>, z: seq<byte>)
    requires a <= b <= d <= e <= f <= |c|
    requires w == c[a..b] && x == c[b..d] && y == c[d..e] && z == c[e..f]
    ensures c[a..f] == w + x + y + z
  {
    Pieces(c, a, b, d, e, f);
  }

  /** What the tests of the check byte leave as possible residues. */
  lemma AcceptedResidue(raw: byte, received: byte, expected: byte, actual: byte, p: ChecksumPolicy, f: Frame)
    requires CheckByte(raw, RepairedDelimiter(raw, p), received, expected, actual, p) == Match(f.repair)
    requires f.address.Unique? == IsLong(RepairedDelimiter(raw, p))
    requires f.address.Polling? ==> f.address.node == LowSix(received)
    ensures Admissible(f, raw != RepairedDelimiter(raw, p), Xor(expected, actual), p)
  {
    hide ShortAddressRepair, KindOf, IsLong, RepairedDelimiter;
    XorTests(expected, actual);
    RepairedBack(raw, p);
    if ShortAddressRepair(p, received, expected, actual).Some? {
      RepairMeaning(p, received, expected, actual);
    }
  }

  lemma XorTests(a: byte, b: byte)
    ensures (Xor(a, b) == 0) == (a == b)
    ensures (a ^ 0x10 == b) == (Xor(a, b) == 0x10)
  {}

  /** Every frame the analysis emits stands for the bytes it consumed. */
  lemma JudgedStandsFor(c: seq<byte>, i: nat, p: ChecksumPolicy)
    requires i < |c| && i <= 255 && FrameEnd(c, i, p) == Some(|c|) && IsPossibleDelimiter(c[i], p)
    requires forall j :: 0 <= j < i ==> c[j] == PREAMBLE
    requires Judge(c, i, p).Emit?
    ensures StandsFor(Judge(c, i, p).frame, c, p)
  {
    HeaderRead(c, i, p);
    MiddleRead(c, i, p);
    EmittedFields(c, i, p);
    RepairedBack(c[i], p);
    var f := Judge(c, i, p).frame;
    BurstBitOnly(c[i + 1], f.kind.Burst?);
    hide Judge, KindOf, IsPossibleDelimiter, Admissible, FrameEnd, Middle, DelimiterOf, FirstAddressByte, WithBurstBit,
         RepairedDelimiter, CheckByte, XorChecksum, ReadAddress;
    AcceptedResidue(c[i], c[i + 1], XorChecksum(c[i..|c| - 1]), c[|c| - 1], p, f);
    CutAround(c, i);
  }

  lemma CutAround(c: seq<byte>, i: nat)
    requires i + 2 < |c| && forall j :: 0 <= j < i ==> c[j] == PREAMBLE
    ensures c == Preambles(i) + [c[i], c[i + 1]] + c[i + 2..|c| - 1] + [c[|c| - 1]]
  {
    assert c[..i] == Preambles(i);
    Pieces(c, 0, i, i + 2, |c| - 1, |c|);
    TwoBytes(c, i);
    assert c[0..|c|] == c;
  }

  lemma RepairedBack(raw: byte, p: ChecksumPolicy)
    ensures raw == RepairedDelimiter(raw, p) || (raw == Xor(RepairedDelimiter(raw, p), 0x10) && AllowDelimiterRepair(p))
  {}

  /**
    A frame taken without repair is, byte for byte, its own encoding, or that
    encoding with bit 0x40 flipped in both the first address byte and the
    check byte.
   */
  lemma UnrepairedReencodes(f: Frame, c: seq<byte>, p: ChecksumPolicy)
    requires StandsFor(f, c, p) && f.repair.None?
    ensures var d, a, x := DelimiterOf(f), FirstAddressByte(f), XorChecksum(Covered(f));
      && Encode(f) == Ok(Image(f, d, a, x))
      && (c == Image(f, d, a, x) || c == Image(f, d, Xor(a, 0x40), Xor(x, 0x40)))
  {
    CoveredParts(f);
    var i := f.preambles;
    var d, b, check := DelimiterOf(f), c[i + 1], c[|c| - 1];
    CheckedPart(f, d, b, check);
    XorTests(XorChecksum([d, b] + Middle(f)), check);
    hide *;
    BurstVariants(d, FirstAddressByte(f), b, Middle(f), check);
  }

  lemma BurstVariants(d: byte, a: byte, b: byte, m: seq<byte>, check: byte)
    requires XorChecksum([d, b] + m) == check && (b == a || b == Xor(a, 0x40))
    ensures var x := XorChecksum([d, a] + m);
      (b == a && check == x) || (b == Xor(a, 0x40) && check == Xor(x, 0x40))
  {
    hide *;
    CheckOfParts(d, a, m);
    CheckOfParts(d, b, m);
    FlipThrough(d, a, XorChecksum(m));
  }

  lemma CheckedPart(f: Frame, d: byte, b: byte, check: byte)
    requires ValidFrame(f)
    ensures var c := Image(f, d, b, check);
      && |c| == f.preambles + 3 + |Middle(f)|
      && c[f.preambles..|c| - 1] == [d, b] + Middle(f)
  {
    hide Middle;
  }

  lemma CheckOfParts(d: byte, b: byte, m: seq<byte>)
    ensures XorChecksum([d, b] + m) == Xor(Xor(d, b), XorChecksum(m))
  {
    hide Xor, XorChecksum;
    assert [d, b] == [d] + [b];
    XorAppend([d, b], m);
    XorAppend([d], [b]);
    XorOne(d);
    XorOne(b);
  }

  lemma FlipThrough(d: byte, a: byte, m: byte)
    ensures Xor(Xor(d, Xor(a, 0x40)), m) == Xor(Xor(Xor(d, a), m), 0x40)
  {}

  /** Under the strict policy no frame is repaired, so the previous lemma covers them all. */
  lemma StrictNeverRepairs(f: Frame, c: seq<byte>)
    requires StandsFor(f, c, Strict)
    ensures f.repair.None? && Residue(c, f.preambles) == 0
  {}

  // ------------------------------------------------------------------- tiles

  /**
    What became of a stretch of bytes: a frame, a refused candidate up to its
    delimiter, noise, bytes given up at the event limit, or bytes the capacity
    forced out.
   */
  datatype TileKind = Accepted(frame: Frame) | Refused(error: WireError) | Skipped | Abandoned | Lost

  datatype Tile = Tile(kind: TileKind, bytes: seq<byte>)

  function Bytes(tiles: seq<Tile>): seq<byte> {
    if tiles == [] then [] else tiles[0].bytes + Bytes(tiles[1..])
  }

  function EventIn(t: Tile): seq<DecodeEvent> {
    match t.kind
    case Accepted(frame) => [Received(frame)]
    case Refused(error) => [Rejected(error)]
    case _ => []
  }

  function EventsOf(tiles: seq<Tile>): seq<DecodeEvent> {
    if tiles == [] then [] else EventIn(tiles[0]) + EventsOf(tiles[1..])
  }

  predicate IsDiscarded(k: TileKind) { k.Skipped? || k.Refused? || k.Abandoned? }

  /** Bytes the decoder counts as discarded. */
  function DiscardedIn(tiles: seq<Tile>): nat {
    if tiles == [] then 0
    else (if IsDiscarded(tiles[0].kind) then |tiles[0].bytes| else 0) + DiscardedIn(tiles[1..])
  }

  function LostIn(tiles: seq<Tile>): nat {
    if tiles == [] then 0 else (if tiles[0].kind.Lost? then |tiles[0].bytes| else 0) + LostIn(tiles[1..])
  }

  /** `n` preambles followed by one byte that may be a delimiter, and nothing else. */
  predicate Lead(c: seq<byte>, l: DecodeLimits) {
    var n := |c| - 1;
    && l.minimumPreambles <= n <= 255
    && (forall j :: 0 <= j < n ==> c[j] == PREAMBLE)
    && (KindOf(c[n]).Some? || (l.checksumPolicy.KnownGateway? && l.checksumPolicy.delimiterBit && KindOf(Xor(c[n], 0x10)).Some?))
  }

  ghost predicate Genuine(t: Tile, l: DecodeLimits) {
    match t.kind
    case Accepted(frame) => frame.preambles >= l.minimumPreambles && StandsFor(frame, t.bytes, l.checksumPolicy)
    case Refused(error) => error.Checksum? && error.expected != error.actual && Lead(t.bytes, l)
    case Skipped => forall i :: 0 <= i < |t.bytes| ==> !IsCandidate(t.bytes, i, l)
    case _ => true
  }

  ghost predicate AllGenuine(tiles: seq<Tile>, l: DecodeLimits) {
    forall t :: t in tiles ==> Genuine(t, l)
  }

  /** The tiles laid while up to `limit` events are produced. */
  ghost function TilesOf(b: seq<byte>, l: DecodeLimits, limit: nat): seq<Tile>
    decreases |b|
  {
    if limit == 0 then []
    else
      match Analyze(b, l)
      case NoCandidate => [Tile(Skipped, b[..|b| - |Retained(b)|])]
      case NeedMore => []
      case Discard(n) => [Tile(Skipped, b[..n])] + TilesOf(b[n..], l, limit)
      case Reject(error, n, _) => [Tile(Refused(error), b[..n])] + TilesOf(b[n..], l, limit - 1)
      case Emit(frame, n, _) => [Tile(Accepted(frame), b[..n])] + TilesOf(b[n..], l, limit - 1)
  }

  /** A step's tile is genuine. */
  lemma StepGenuine(b: seq<byte>, l: DecodeLimits)
    requires Effective(l)
    ensures var step := Analyze(b, l);
      && (step.Emit? ==> Genuine(Tile(Accepted(step.frame), b[..step.consumed]), l))
      && (step.Reject? ==> Genuine(Tile(Refused(step.error), b[..step.consumed]), l))
      && (step.Discard? ==> Genuine(Tile(Skipped, b[..step.count]), l))
      && (step.NoCandidate? ==> Genuine(Tile(Skipped, b[..|b| - |Retained(b)|]), l))
  {
    var found := FindCandidate(b, l);
    if found.None? {
      NoneInPrefix(b, |b| - |Retained(b)|, |b|, l);
    } else {
      CandidateIndex(b, l);
      NoneInPrefix(b, found.value.start, found.value.index, l);
      if found.value.start == 0 { JudgedGenuine(b, l); }
    }
  }

  lemma NoneInPrefix(b: seq<byte>, n: nat, i: nat, l: DecodeLimits)
    requires n <= i <= |b|
    requires i == match FindCandidate(b, l) { case None => |b| case Some(c) => c.index }
    ensures forall j :: 0 <= j < n ==> !IsCandidate(b[..n], j, l)
  {
    forall j | 0 <= j < n ensures !IsCandidate(b[..n], j, l) {
      CandidatePrefix(b[..n], b[n..], j, l);
      assert b[..n] + b[n..] == b;
    }
  }

  lemma JudgedGenuine(b: seq<byte>, l: DecodeLimits)
    requires Effective(l) && FindCandidate(b, l).Some? && FindCandidate(b, l).value.start == 0
    ensures var step := Analyze(b, l);
      && (step.Emit? ==> Genuine(Tile(Accepted(step.frame), b[..step.consumed]), l))
      && (step.Reject? ==> Genuine(Tile(Refused(step.error), b[..step.consumed]), l))
  {
    hide StandsFor, Judge, FrameEnd, FindCandidate, KindOf, XorChecksum, Analyze, Lead, Xor;
    OnlyChecksumRefusals(b, l);
    CandidateIndex(b, l);
    var i, p := FindCandidate(b, l).value.index, l.checksumPolicy;
    forall j | 0 <= j < i ensures b[j] == PREAMBLE { RunIsPreambles(b, i, j); }
    AnalyzeIsJudge(b, l);
    if FrameEnd(b, i, p).Some? {
      var end := FrameEnd(b, i, p).value;
      var c := b[..end];
      SameEnd(b, i, p);
      if Judge(c, i, p).Emit? {
        JudgedStandsFor(c, i, p);
        JudgedPreambles(c, i, p);
      } else {
        RefusalIsMismatch(c, i, p);
        LeadFound(b, i, l);
      }
    }
  }

  /** With the candidate's preambles in front, the analysis is the verdict on the frame, once it is complete. */
  lemma AnalyzeIsJudge(b: seq<byte>, l: DecodeLimits)
    requires FindCandidate(b, l).Some? && FindCandidate(b, l).value.start == 0
    ensures var i := FindCandidate(b, l).value.index;
      && i < |b|
      && match FrameEnd(b, i, l.checksumPolicy)
         case None => Analyze(b, l) == NeedMore
         case Some(end) =>
           FrameEnd(b[..end], i, l.checksumPolicy) == Some(end) && Analyze(b, l) == Judge(b[..end], i, l.checksumPolicy)
  {
    hide Judge, FrameEnd, FindCandidate;
    CandidateIndex(b, l);
    var i := FindCandidate(b, l).value.index;
    if FrameEnd(b, i, l.checksumPolicy).Some? { SameEnd(b, i, l.checksumPolicy); }
  }

  lemma LeadFound(b: seq<byte>, i: nat, l: DecodeLimits)
    requires i < |b| && IsCandidate(b, i, l) && l.minimumPreambles <= i <= 255
    requires forall j :: 0 <= j < i ==> b[j] == PREAMBLE
    ensures Lead(b[..i + 1], l)
  {
    hide KindOf;
  }

  lemma JudgedPreambles(c: seq<byte>, i: nat, p: ChecksumPolicy)
    requires i < |c| && FrameEnd(c, i, p) == Some(|c|) && Judge(c, i, p).Emit?
    ensures Judge(c, i, p).frame.preambles == i
  {
    EmittedFields(c, i, p);
  }

  lemma SameEnd(b: seq<byte>, i: nat, p: ChecksumPolicy)
    requires i < |b| && FrameEnd(b, i, p).Some?
    ensures var end := FrameEnd(b, i, p).value;
      FrameEnd(b[..end], i, p) == Some(end)
  {}

  lemma RefusalIsMismatch(c: seq<byte>, i: nat, p: ChecksumPolicy)
    requires i < |c| && FrameEnd(c, i, p) == Some(|c|)
    ensures var step := Judge(c, i, p);
      step.Reject? && step.error.Checksum? ==>
        && step.error == Checksum(XorChecksum(c[i..|c| - 1]), c[|c| - 1]) && step.error.expected != step.error.actual
        && step.consumed == i + 1
  {
    hide KindOf, ReadAddress, ShortAddressRepair, XorChecksum;
    ReadErrors(c[i + 1..i + 1 + AddressBytes(RepairedDelimiter(c[i], p))], IsLong(RepairedDelimiter(c[i], p)));
  }

  lemma ReadErrors(bytes: seq<byte>, long: bool)
    ensures ReadAddress(bytes, long).Err? ==> !ReadAddress(bytes, long).error.Checksum?
  {}

  /** The tiles account for an outcome: same bytes in the same order, same events, same counts. */
  ghost predicate Accounts(tiles: seq<Tile>, b: seq<byte>, events: seq<DecodeEvent>, rest: seq<byte>,
                           discarded: nat, lost: nat, l: DecodeLimits)
  {
    && Bytes(tiles) + rest == b
    && EventsOf(tiles) == events
    && DiscardedIn(tiles) == discarded
    && LostIn(tiles) == lost
    && AllGenuine(tiles, l)
  }

  lemma {:induction false} BytesAppend(s: seq<Tile>, t: seq<Tile>)
    ensures Bytes(s + t) == Bytes(s) + Bytes(t)
  {
    if s == [] {
      assert s + t == t;
    } else {
      BytesAppend(s[1..], t);
      assert (s + t)[1..] == s[1..] + t;
      InThree(s[0].bytes, Bytes(s[1..]), Bytes(t));
    }
  }

  lemma InThree(a: seq<byte>, b: seq<byte>, c: seq<byte>)
    ensures a + (b + c) == (a + b) + c
  {}

  lemma {:induction false} EventsAppend(s: seq<Tile>, t: seq<Tile>)
    ensures EventsOf(s + t) == EventsOf(s) + EventsOf(t)
  {
    hide EventIn;
    if s == [] {
      assert s + t == t;
    } else {
      EventsAppend(s[1..], t);
      assert (s + t)[1..] == s[1..] + t;
      assert EventIn(s[0]) + (EventsOf(s[1..]) + EventsOf(t)) == (EventIn(s[0]) + EventsOf(s[1..])) + EventsOf(t);
    }
  }

  lemma {:induction false} CountsAppend(s: seq<Tile>, t: seq<Tile>)
    ensures DiscardedIn(s + t) == DiscardedIn(s) + DiscardedIn(t)
    ensures LostIn(s + t) == LostIn(s) + LostIn(t)
  {
    if s == [] {
      assert s + t == t;
    } else {
      CountsAppend(s[1..], t);
      assert (s + t)[1..] == s[1..] + t;
    }
  }

  lemma OneTile(t: Tile)
    ensures Bytes([t]) == t.bytes
    ensures EventsOf([t]) == EventIn(t)
    ensures DiscardedIn([t]) == if IsDiscarded(t.kind) then |t.bytes| else 0
    ensures LostIn([t]) == if t.kind.Lost? then |t.bytes| else 0
  {
    assert [t][1..] == [];
  }

  /** Stretches that are accounted for one after the other are accounted for together. */
  lemma AccountsInTurn(s: seq<Tile>, a: seq<byte>, e1: seq<DecodeEvent>, r: seq<byte>, d1: nat, o1: nat,
                       t: seq<Tile>, c: seq<byte>, e2: seq<DecodeEvent>, rest: seq<byte>, d2: nat, o2: nat,
                       l: DecodeLimits)
    requires Accounts(s, a, e1, r, d1, o1, l) && Accounts(t, r + c, e2, rest, d2, o2, l)
    ensures Accounts(s + t, a + c, e1 + e2, rest, d1 + d2, o1 + o2, l)
  {
    hide Genuine, Bytes, EventsOf, DiscardedIn, LostIn;
    BytesAppend(s, t);
    EventsAppend(s, t);
    CountsAppend(s, t);
    calc {
      Bytes(s + t) + rest;
      Bytes(s) + (Bytes(t) + rest);
      Bytes(s) + (r + c);
      (Bytes(s) + r) + c;
      a + c;
    }
  }

  lemma TileAccounts(t: Tile, b: seq<byte>, n: nat, l: DecodeLimits)
    requires n <= |b| && t.bytes == b[..n] && Genuine(t, l)
    ensures Accounts([t], b, EventsOf([t]), b[n..], DiscardedIn([t]), LostIn([t]), l)
  {
    hide Genuine;
    OneTile(t);
    assert b[..n] + b[n..] == b;
  }

  /** One more tile in front of an accounted stretch. */
  lemma TileThen(t: Tile, b: seq<byte>, n: nat, tiles: seq<Tile>, o: Outcome, l: DecodeLimits)
    requires n <= |b| && t.bytes == b[..n] && Genuine(t, l)
    requires Accounts(tiles, b[n..], o.events, o.rest, o.discarded, 0, l)
    ensures Accounts([t] + tiles, b, EventsOf([t]) + o.events, o.rest,
                     DiscardedIn([t]) + o.discarded, LostIn([t]), l)
  {
    TileAccounts(t, b, n, l);
    assert b[n..] + [] == b[n..] && b + [] == b;
    AccountsInTurn([t], b, EventsOf([t]), b[n..], DiscardedIn([t]), LostIn([t]),
                   tiles, [], o.events, o.rest, o.discarded, 0, l);
  }

  /** An event-producing step in front of an accounted decoding. */
  lemma EventStepTiles(t: Tile, b: seq<byte>, n: nat, l: DecodeLimits, limit: nat)
    requires n <= |b| && t.bytes == b[..n] && Genuine(t, l) && (t.kind.Accepted? || t.kind.Refused?)
    requires var o := DecodeUpTo(b[n..], l, limit);
      Accounts(TilesOf(b[n..], l, limit), b[n..], o.events, o.rest, o.discarded, 0, l)
    ensures var o := DecodeUpTo(b[n..], l, limit);
      Accounts([t] + TilesOf(b[n..], l, limit), b, EventIn(t) + o.events, o.rest,
               (if t.kind.Refused? then n else 0) + o.discarded, 0, l)
  {
    hide Accounts, DecodeUpTo, TilesOf, EventsOf, DiscardedIn, LostIn, Bytes, Genuine, EventIn;
    OneTile(t);
    TileThen(t, b, n, TilesOf(b[n..], l, limit), DecodeUpTo(b[n..], l, limit), l);
  }

  lemma SkipStepTiles(b: seq<byte>, n: nat, l: DecodeLimits, limit: nat)
    requires n <= |b| && Genuine(Tile(Skipped, b[..n]), l)
    requires var o := DecodeUpTo(b[n..], l, limit);
      Accounts(TilesOf(b[n..], l, limit), b[n..], o.events, o.rest, o.discarded, 0, l)
    ensures var o := DecodeUpTo(b[n..], l, limit);
      Accounts([Tile(Skipped, b[..n])] + TilesOf(b[n..], l, limit), b, o.events, o.rest, n + o.discarded, 0, l)
  {
    hide Accounts, DecodeUpTo, TilesOf, EventsOf, DiscardedIn, LostIn, Bytes, Genuine;
    var t, o := Tile(Skipped, b[..n]), DecodeUpTo(b[n..], l, limit);
    OneTile(t);
    TileThen(t, b, n, TilesOf(b[n..], l, limit), o, l);
    assert EventIn(t) + o.events == o.events;
  }

  lemma LastTiles(k: TileKind, b: seq<byte>, n: nat, l: DecodeLimits)
    requires n <= |b| && (k.Skipped? || k.Abandoned?) && Genuine(Tile(k, b[..n]), l)
    ensures Accounts([Tile(k, b[..n])], b, [], b[n..], n, 0, l)
  {
    hide Accounts, Genuine;
    OneTile(Tile(k, b[..n]));
    TileAccounts(Tile(k, b[..n]), b, n, l);
  }

  lemma {:induction false} DecodingTiles(b: seq<byte>, l: DecodeLimits, limit: nat)
    requires Effective(l)
    ensures var o := DecodeUpTo(b, l, limit);
      Accounts(TilesOf(b, l, limit), b, o.events, o.rest, o.discarded, 0, l)
    decreases |b|
  {
    hide Analyze, Genuine, Retained, Accounts;
    StepGenuine(b, l);
    if limit == 0 {
      NothingAccounts(b, l);
    } else {
      match Analyze(b, l)
      case NoCandidate =>
        LastTiles(Skipped, b, |b| - |Retained(b)|, l);
      case NeedMore =>
        NothingAccounts(b, l);
      case Discard(n) =>
        DecodingTiles(b[n..], l, limit);
        SkipStepTiles(b, n, l, limit);
      case Reject(error, n, _) =>
        DecodingTiles(b[n..], l, limit - 1);
        EventStepTiles(Tile(Refused(error), b[..n]), b, n, l, limit - 1);
      case Emit(frame, n, _) =>
        DecodingTiles(b[n..], l, limit - 1);
        EventStepTiles(Tile(Accepted(frame), b[..n]), b, n, l, limit - 1);
    }
  }

  lemma NothingAccounts(b: seq<byte>, l: DecodeLimits)
    ensures Accounts([], b, [], b, 0, 0, l)
  {
    assert [] + b == b;
  }

  /** The tiles laid by one push. */
  ghost function PushTiles(buffer: seq<byte>, fragment: seq<byte>, l: DecodeLimits): seq<Tile> {
    var joined := buffer + fragment;
    var overflow := Overflow(buffer, fragment, l);
    var o := DecodeUpTo(joined[overflow..], l, MAXIMUM_DECODE_EVENTS_PER_PUSH);
    [Tile(Lost, joined[..overflow])]
    + TilesOf(joined[overflow..], l, MAXIMUM_DECODE_EVENTS_PER_PUSH)
    + (if PushOne(buffer, fragment, l).limitHits == 1 then [Tile(Abandoned, o.rest[..|o.rest| - |Retained(o.rest)|])] else [])
  }

  lemma PushTiled(buffer: seq<byte>, fragment: seq<byte>, l: DecodeLimits)
    requires Effective(l)
    ensures var r := PushOne(buffer, fragment, l);
      Accounts(PushTiles(buffer, fragment, l), buffer + fragment, r.events, r.rest, r.discarded, r.overflow, l)
  {
    hide Accounts, DecodeUpTo, Retained;
    var joined := buffer + fragment;
    var n := Overflow(buffer, fragment, l);
    var o := DecodeUpTo(joined[n..], l, MAXIMUM_DECODE_EVENTS_PER_PUSH);
    var tiles := TilesOf(joined[n..], l, MAXIMUM_DECODE_EVENTS_PER_PUSH);
    DecodingTiles(joined[n..], l, MAXIMUM_DECODE_EVENTS_PER_PUSH);
    OneTile(Tile(Lost, joined[..n]));
    TileThen(Tile(Lost, joined[..n]), joined, n, tiles, o, l);
    assert [] + o.events == o.events;
    if PushOne(buffer, fragment, l).limitHits == 1 {
      var k := |o.rest| - |Retained(o.rest)|;
      LastTiles(Abandoned, o.rest, k, l);
      assert o.rest + [] == o.rest && joined + [] == joined && o.events + [] == o.events;
      AccountsInTurn([Tile(Lost, joined[..n])] + tiles, joined, o.events, o.rest, o.discarded, n,
                     [Tile(Abandoned, o.rest[..k])], [], [], Retained(o.rest), k, 0, l);
    } else {
      assert [Tile(Lost, joined[..n])] + tiles + [] == [Tile(Lost, joined[..n])] + tiles;
    }
  }

  /** The tiles laid by a run of pushes. */
  ghost function RunTiles(buffer: seq<byte>, fragments: seq<seq<byte>>, l: DecodeLimits): seq<Tile>
    decreases |fragments|
  {
    if fragments == [] then []
    else PushTiles(buffer, fragments[0], l) + RunTiles(PushOne(buffer, fragments[0], l).rest, fragments[1..], l)
  }

  /**
    Every run, clipped or not: the input is exactly the bytes of genuine frames,
    refusals, skipped and lost bytes, in order, followed by the tail.
   */
  lemma {:induction false} RunTiled(buffer: seq<byte>, fragments: seq<seq<byte>>, l: DecodeLimits)
    requires Effective(l)
    ensures var r := PushAll(buffer, fragments, l);
      Accounts(RunTiles(buffer, fragments, l), buffer + Flatten(fragments),
               r.events, r.rest, r.discarded, r.overflow, l)
    decreases |fragments|
  {
    hide Accounts, PushOne, PushTiles;
    if fragments == [] {
      NothingAccounts(buffer, l);
      assert buffer + [] == buffer;
    } else {
      var first := PushOne(buffer, fragments[0], l);
      var rest := Flatten(fragments[1..]);
      var others := PushAll(first.rest, fragments[1..], l);
      PushTiled(buffer, fragments[0], l);
      RunTiled(first.rest, fragments[1..], l);
      AccountsInTurn(PushTiles(buffer, fragments[0], l), buffer + fragments[0], first.events, first.rest,
                     first.discarded, first.overflow,
                     RunTiles(first.rest, fragments[1..], l), rest, others.events, others.rest,
                     others.discarded, others.overflow, l);
      assert buffer + fragments[0] + rest == buffer + Flatten(fragments);
    }
  }

  // --------------------------------------------------------- byte accounting

  function FrameBytes(events: seq<DecodeEvent>): nat {
    if events == [] then 0
    else (if events[0].Received? then EncodedLength(events[0].frame) else 0) + FrameBytes(events[1..])
  }

  lemma {:induction false} TileLengths(tiles: seq<Tile>, l: DecodeLimits)
    requires AllGenuine(tiles, l)
    ensures |Bytes(tiles)| == FrameBytes(EventsOf(tiles)) + DiscardedIn(tiles) + LostIn(tiles)
  {
    hide EventIn, Genuine, FrameBytes;
    if tiles == [] {
      NoFrameBytes();
    } else {
      assert Genuine(tiles[0], l);
      TileLength(tiles[0], l);
      TileLengths(tiles[1..], l);
      FrameBytesAppend(EventIn(tiles[0]), EventsOf(tiles[1..]));
    }
  }

  lemma NoFrameBytes()
    ensures FrameBytes([]) == 0
  {}

  lemma TileLength(t: Tile, l: DecodeLimits)
    requires Genuine(t, l)
    ensures |t.bytes| == FrameBytes(EventIn(t))
      + (if IsDiscarded(t.kind) then |t.bytes| else 0) + (if t.kind.Lost? then |t.bytes| else 0)
  {
    hide StandsFor, EncodedLength;
    if t.kind.Accepted? {
      FrameTileLength(t.kind.frame, t.bytes, l.checksumPolicy);
      assert EventIn(t)[1..] == [];
    } else if t.kind.Refused? {
      assert EventIn(t)[1..] == [];
    }
  }

  lemma {:induction false} FrameBytesAppend(a: seq<DecodeEvent>, b: seq<DecodeEvent>)
    ensures FrameBytes(a + b) == FrameBytes(a) + FrameBytes(b)
  {
    hide EncodedLength;
    if a == [] {
      assert a + b == b;
    } else {
      FrameBytesAppend(a[1..], b);
      assert (a + b)[1..] == a[1..] + b;
    }
  }

  lemma FrameTileLength(f: Frame, c: seq<byte>, p: ChecksumPolicy)
    requires StandsFor(f, c, p)
    ensures |c| == EncodedLength(f)
  {}

  /** Where every input byte went, over any run of pushes. */
  lemma BytesAccountedFor(buffer: seq<byte>, fragments: seq<seq<byte>>, l: DecodeLimits)
    requires Effective(l)
    ensures var r := PushAll(buffer, fragments, l);
      |buffer| + |Flatten(fragments)| == FrameBytes(r.events) + r.discarded + r.overflow + |r.rest|
  {
    RunTiled(buffer, fragments, l);
    hide Genuine, PushAll, RunTiles;
    TileLengths(RunTiles(buffer, fragments, l), l);
  }

  /** The buffer between pushes stays within the capacity and short of one whole frame. */
  lemma {:induction false} BufferStaysBounded(buffer: seq<byte>, fragments: seq<seq<byte>>, l: DecodeLimits)
    requires Effective(l) && Settled(buffer, l) && |buffer| <= l.bufferCapacity
    ensures var r := PushAll(buffer, fragments, l);
      Settled(r.rest, l) && |r.rest| <= l.bufferCapacity && |r.rest| < MAX_ENCODED_FRAME_SIZE
    decreases |fragments|
  {
    hide Settled, PushOne;
    SettledIsShort(buffer, l);
    if fragments != [] {
      PushSettles(buffer, fragments[0], l);
      BufferStaysBounded(PushOne(buffer, fragments[0], l).rest, fragments[1..], l);
    }
  }

  lemma PushSettles(buffer: seq<byte>, fragment: seq<byte>, l: DecodeLimits)
    requires Effective(l)
    ensures var r := PushOne(buffer, fragment, l).rest;
      Settled(r, l) && |r| <= l.bufferCapacity
  {
    hide Settled, Decode, DecodeUpTo, Retained;
    var b := (buffer + fragment)[Overflow(buffer, fragment, l)..];
    var o := DecodeUpTo(b, l, MAXIMUM_DECODE_EVENTS_PER_PUSH);
    if |o.events| < MAXIMUM_DECODE_EVENTS_PER_PUSH {
      LimitWasNotReached(b, l, MAXIMUM_DECODE_EVENTS_PER_PUSH);
      TailIsSettled(b, l);
    } else if o.rest == [] {
      EmptyIsSettled(l);
    } else {
      RetainedIsSettled(o.rest, l);
    }
  }

  lemma EmptyIsSettled(l: DecodeLimits)
    ensures Settled([], l)
  {
    assert Retained([]) == [];
  }
}
