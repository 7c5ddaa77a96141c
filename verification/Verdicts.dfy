/**
  Exactly which bytes the decoder accepts as a frame, in both directions: what
  it emits stands for the bytes (module Tiling), and whatever stands for the
  bytes is emitted.  So the two known gateway distortions are repaired.
 */
module Verdicts {
  import opened Basics
  import opened Wire
  import opened Decoder
  import opened Fragmentation
  import opened Tiling

  /** Both repairs can explain one residue; the delimiter repair then has precedence. */
  predicate Chosen(f: Frame, c: seq<byte>, p: ChecksumPolicy) {
    && StandsFor(f, c, p)
    && !(f.repair.Some? && f.repair.value.ShortAddressRewrite? && AllowDelimiterRepair(p) && Residue(c, f.preambles) == 0x10)
  }

  // ----------------------------------------------------- reading an image

  lemma NoTwin(d: byte)
    requires KindOf(d).Some?
    ensures KindOf(Xor(d, 0x10)).None? && Xor(Xor(d, 0x10), 0x10) == d && Xor(d, 0x10) == d ^ 0x10
  {}

  lemma NamesKind(f: Frame)
    requires ValidFrame(f)
    ensures KindOf(DelimiterOf(f)) == Some(f.kind) && LayerOf(DelimiterOf(f)) == f.physicalLayer
    ensures IsLong(DelimiterOf(f)) == f.address.Unique? && ExpansionBits(DelimiterOf(f)) == |f.expansion|
  {
    hide KindOf, LayerOf, IsLong, ExpansionBits, MakeDelimiter;
    DelimiterFields(f.kind, f.physicalLayer, f.address.Unique?, |f.expansion|);
  }

  /** The delimiter the decoder works with is the frame's own, distorted or not. */
  lemma DelimiterRestored(f: Frame, raw: byte, p: ChecksumPolicy)
    requires ValidFrame(f) && (raw == DelimiterOf(f) || (raw == Xor(DelimiterOf(f), 0x10) && AllowDelimiterRepair(p)))
    ensures RepairedDelimiter(raw, p) == DelimiterOf(f) && IsPossibleDelimiter(raw, p)
  {
    NamesKind(f);
    NoTwin(DelimiterOf(f));
    hide KindOf, DelimiterOf, Xor;
  }

  /** Where the parts of an image are. */
  lemma ImageParts(f: Frame, d: byte, a: byte, x: byte)
    requires ValidFrame(f)
    ensures var c := Image(f, d, a, x);
      var i, m := f.preambles, AddressLength(f.address) + |f.expansion|;
      && |c| == EncodedLength(f) == i + m + 4 + |f.payload|
      && (forall j :: 0 <= j < i ==> c[j] == PREAMBLE)
      && c[i] == d && c[i + 1] == a && c[|c| - 1] == x
      && c[i + 2..|c| - 1] == Middle(f)
      && c[i + 2 + m] == ByteOf(|f.payload|)
  {
    hide WriteAddress, ByteOf;
    var i, m := f.preambles, AddressLength(f.address) + |f.expansion|;
    var c := Image(f, d, a, x);
    assert |Middle(f)| == m + 1 + |f.payload|;
    assert Middle(f)[m] == ByteOf(|f.payload|);
    assert c[i + 2..|c| - 1] == Middle(f);
    assert c[i + 2 + m] == c[i + 2..|c| - 1][m];
  }

  lemma ImageEnds(f: Frame, c: seq<byte>, p: ChecksumPolicy)
    requires StandsFor(f, c, p)
    ensures f.preambles < |c| && FrameEnd(c, f.preambles, p) == Some(|c|) && IsPossibleDelimiter(c[f.preambles], p)
    ensures RepairedDelimiter(c[f.preambles], p) == DelimiterOf(f)
    ensures forall j :: 0 <= j < f.preambles ==> c[j] == PREAMBLE
  {
    hide Image, Middle, ByteOf, ValueOf, KindOf, DelimiterOf, RepairedDelimiter, IsPossibleDelimiter, Xor, Residue, IsLong, ExpansionBits;
    ImageParts(f, c[f.preambles], c[f.preambles + 1], c[|c| - 1]);
    DelimiterRestored(f, c[f.preambles], p);
    NamesKind(f);
    assert ValueOf(ByteOf(|f.payload|)) == |f.payload|;
  }

  // ------------------------------------------------------------ uniqueness

  lemma FirstBytesAgree(f: Frame, g: Frame, b: byte)
    requires ValidFrame(f) && ValidFrame(g) && f.kind == g.kind
    requires b == FirstAddressByte(f) || b == Xor(FirstAddressByte(f), 0x40)
    requires b == FirstAddressByte(g) || b == Xor(FirstAddressByte(g), 0x40)
    ensures FirstAddressByte(f) == FirstAddressByte(g)
  {
    BurstBitFixed(f);
    BurstBitFixed(g);
    SameBit(FirstAddressByte(f), FirstAddressByte(g));
    hide FirstAddressByte;
  }

  lemma BurstBitFixed(f: Frame)
    requires ValidFrame(f)
    ensures (FirstAddressByte(f) & 0x40 != 0) == f.kind.Burst?
  {}

  lemma SameBit(a: byte, b: byte)
    ensures (a & 0x40 == 0) == (b & 0x40 == 0) && a == Xor(b, 0x40) ==> false
    ensures Xor(a, 0x40) == Xor(b, 0x40) ==> a == b
    ensures Xor(a, 0x40) == b ==> a == Xor(b, 0x40)
  {}

  /** The address bytes, expansion, command and payload can be read off the middle part. */
  lemma MiddleFields(f: Frame, g: Frame)
    requires ValidFrame(f) && ValidFrame(g) && Middle(f) == Middle(g)
    requires f.address.Unique? == g.address.Unique? && |f.expansion| == |g.expansion|
    ensures WriteAddress(f.address, f.kind.Burst?)[1..] == WriteAddress(g.address, g.kind.Burst?)[1..]
    ensures f.expansion == g.expansion && f.wireCommand == g.wireCommand && f.payload == g.payload
  {
    hide WriteAddress, ByteOf;
    FourParts(f);
    FourParts(g);
  }

  lemma FourParts(f: Frame)
    requires ValidFrame(f)
    ensures var k, n := AddressLength(f.address) - 1, |f.expansion|;
      && |Middle(f)| == k + n + 2 + |f.payload|
      && Middle(f)[..k] == WriteAddress(f.address, f.kind.Burst?)[1..]
      && Middle(f)[k..k + n] == f.expansion && Middle(f)[k + n] == f.wireCommand && Middle(f)[k + n + 2..] == f.payload
  {
    hide WriteAddress, ByteOf;
    var w := WriteAddress(f.address, f.kind.Burst?)[1..];
    assert Middle(f) == w + (f.expansion + ([f.wireCommand, ByteOf(|f.payload|)] + f.payload));
  }

  lemma SameAddress(f: Frame, g: Frame)
    requires ValidFrame(f) && ValidFrame(g) && f.kind == g.kind && f.address.Unique? == g.address.Unique?
    requires FirstAddressByte(f) == FirstAddressByte(g)
    requires WriteAddress(f.address, f.kind.Burst?)[1..] == WriteAddress(g.address, g.kind.Burst?)[1..]
    ensures f.address == g.address
  {
    hide WriteAddress, ReadAddress;
    AddressRoundTrip(f.address, f.kind.Burst?);
    AddressRoundTrip(g.address, g.kind.Burst?);
    var v, w := WriteAddress(f.address, f.kind.Burst?), WriteAddress(g.address, g.kind.Burst?);
    assert v == [v[0]] + v[1..] && w == [w[0]] + w[1..];
  }

  /** Bytes determine the frame they stand for, up to the repair. */
  lemma SameFields(f: Frame, g: Frame, c: seq<byte>, p: ChecksumPolicy)
    requires StandsFor(f, c, p) && StandsFor(g, c, p) && f.preambles == g.preambles
    ensures f == g.(repair := f.repair)
  {
    hide Image, Middle, DelimiterOf, FirstAddressByte, KindOf, LayerOf, IsLong, ExpansionBits, WriteAddress, Residue, Admissible,
         RepairedDelimiter, FrameEnd, IsPossibleDelimiter, Xor;
    var i := f.preambles;
    ImageParts(f, c[i], c[i + 1], c[|c| - 1]);
    ImageParts(g, c[i], c[i + 1], c[|c| - 1]);
    ImageEnds(f, c, p);
    ImageEnds(g, c, p);
    NamesKind(f);
    NamesKind(g);
    FirstBytesAgree(f, g, c[i + 1]);
    MiddleFields(f, g);
    SameAddress(f, g);
  }

  // ---------------------------------------------------------- acceptance

  lemma AddressRepairable(node: byte, source: byte, received: byte, expected: byte, actual: byte, p: ChecksumPolicy)
    requires p.KnownGateway? && p.checksumSourceNode == Some(source) && source <= 63 && node <= 63
    requires LowSix(received) == node && Xor(expected, actual) == Xor(node, source)
    ensures ShortAddressRepair(p, received, expected, actual) == Some(ShortAddressRewrite(source))
  {}

  /** The tests of the check byte find exactly the admissible repair. */
  lemma RepairFound(f: Frame, raw: byte, received: byte, expected: byte, actual: byte, p: ChecksumPolicy)
    requires ValidFrame(f) && Admissible(f, raw != DelimiterOf(f), Xor(expected, actual), p)
    requires f.address.Polling? ==> LowSix(received) == f.address.node
    requires !(f.repair.Some? && f.repair.value.ShortAddressRewrite? && AllowDelimiterRepair(p) && Xor(expected, actual) == 0x10)
    ensures CheckByte(raw, DelimiterOf(f), received, expected, actual, p) == Match(f.repair)
  {
    NamesKind(f);
    hide DelimiterOf, ShortAddressRepair, KindOf, LayerOf, IsLong, ExpansionBits;
    XorTests(expected, actual);
    if f.repair.Some? && f.repair.value.ShortAddressRewrite? {
      AddressRepairable(f.address.node, f.repair.value.checksumSourceNode, received, expected, actual, p);
    }
  }

  lemma NodeReceived(f: Frame, b: byte)
    requires ValidFrame(f) && f.address.Polling?
    requires b == FirstAddressByte(f) || b == Xor(FirstAddressByte(f), 0x40)
    ensures LowSix(b) == f.address.node
  {}

  /** A complete frame is emitted once its check byte passes. */
  lemma PassedIsEmitted(c: seq<byte>, i: nat, p: ChecksumPolicy)
    requires i < |c| && FrameEnd(c, i, p) == Some(|c|) && IsPossibleDelimiter(c[i], p)
    requires !CheckByte(c[i], RepairedDelimiter(c[i], p), c[i + 1], XorChecksum(c[i..|c| - 1]), c[|c| - 1], p).Mismatch?
    ensures Judge(c, i, p).Emit? && Judge(c, i, p).consumed == |c|
    ensures Judge(c, i, p).repaired == Judge(c, i, p).frame.repair.Some?
  {
    hide CheckByte, XorChecksum, KindOf, ReadAddress, IsPossibleDelimiter, RepairedDelimiter, ValidAddress, WriteAddress;
    CandidateKind(c[i], p);
    var delimiter := RepairedDelimiter(c[i], p);
    AddressReread(c[i + 1..i + 1 + AddressBytes(delimiter)], IsLong(delimiter), false);
  }

  /** Whatever is chosen for the bytes is what the decoder emits. */
  lemma ChosenIsEmitted(f: Frame, c: seq<byte>, p: ChecksumPolicy)
    requires Chosen(f, c, p)
    ensures f.preambles < |c| && FrameEnd(c, f.preambles, p) == Some(|c|) && IsPossibleDelimiter(c[f.preambles], p)
    ensures forall j :: 0 <= j < f.preambles ==> c[j] == PREAMBLE
    ensures Judge(c, f.preambles, p) == Emit(f, |c|, f.repair.Some?)
  {
    ImageEnds(f, c, p);
    ImageRead(f, c, p);
    hide StandsFor, Judge, CheckByte, XorChecksum, RepairedDelimiter, FrameEnd, IsPossibleDelimiter, DelimiterOf, Residue, Image,
         KindOf, ValidAddress, ReadAddress, AddressBytes, ExpansionBits, LayerOf, IsLong;
    var i := f.preambles;
    PassedIsEmitted(c, i, p);
    EmittedFields(c, i, p);
    JudgedStandsFor(c, i, p);
    SameFields(f, Judge(c, i, p).frame, c, p);
  }

  lemma ImageRead(f: Frame, c: seq<byte>, p: ChecksumPolicy)
    requires Chosen(f, c, p) && f.preambles + 1 < |c|
    ensures CheckByte(c[f.preambles], DelimiterOf(f), c[f.preambles + 1], XorChecksum(c[f.preambles..|c| - 1]), c[|c| - 1], p)
      == Match(f.repair)
  {
    hide Image, CheckByte, XorChecksum, DelimiterOf, Admissible, FirstAddressByte, LowSix, Xor;
    var i := f.preambles;
    if f.address.Polling? { NodeReceived(f, c[i + 1]); }
    RepairFound(f, c[i], c[i + 1], XorChecksum(c[i..|c| - 1]), c[|c| - 1], p);
  }

  /** What is emitted is chosen. */
  lemma EmittedIsChosen(c: seq<byte>, i: nat, p: ChecksumPolicy)
    requires i < |c| && i <= 255 && FrameEnd(c, i, p) == Some(|c|) && IsPossibleDelimiter(c[i], p)
    requires forall j :: 0 <= j < i ==> c[j] == PREAMBLE
    requires Judge(c, i, p).Emit?
    ensures Chosen(Judge(c, i, p).frame, c, p) && Judge(c, i, p).frame.preambles == i
  {
    JudgedStandsFor(c, i, p);
    EmittedFields(c, i, p);
    hide StandsFor, Judge, XorChecksum, FrameEnd, IsPossibleDelimiter, RepairedDelimiter, ShortAddressRepair, KindOf, ReadAddress,
         IsLong, ExpansionBits, LayerOf;
    XorTests(XorChecksum(c[i..|c| - 1]), c[|c| - 1]);
  }

  /**
    The verdict on a complete candidate, exactly.  It is accepted as `f` if and
    only if `f` is what the bytes stand for; it is refused if and only if they
    stand for nothing, and then only its preambles and its delimiter go, with the
    computed and the received check byte as the reason.
   */
  lemma VerdictExact(b: seq<byte>, l: DecodeLimits)
    requires Effective(l) && FindCandidate(b, l).Some? && FindCandidate(b, l).value.start == 0
    requires FrameEnd(b, FindCandidate(b, l).value.index, l.checksumPolicy).Some?
    ensures var i := FindCandidate(b, l).value.index;
      var end := FrameEnd(b, i, l.checksumPolicy).value;
      var step := Analyze(b, l);
      && i < end <= |b|
      && (forall f: Frame :: step == Emit(f, end, f.repair.Some?) <==> Chosen(f, b[..end], l.checksumPolicy) && f.preambles == i)
      && (step.Emit? ==> Chosen(step.frame, b[..end], l.checksumPolicy) && step.frame.preambles == i)
      && (!step.Emit? ==> step == Reject(Checksum(XorChecksum(b[i..end - 1]), b[end - 1]), i + 1, true))
  {
    hide StandsFor, Judge, FrameEnd, FindCandidate, XorChecksum, KindOf, Chosen, Analyze, IsPossibleDelimiter;
    OnlyChecksumRefusals(b, l);
    AnalyzeIsJudge(b, l);
    CandidateIndex(b, l);
    var i, p := FindCandidate(b, l).value.index, l.checksumPolicy;
    var c := b[..FrameEnd(b, i, p).value];
    forall j | 0 <= j < i ensures b[j] == PREAMBLE { RunIsPreambles(b, i, j); }
    if Judge(c, i, p).Emit? {
      EmittedIsChosen(c, i, p);
    } else {
      RefusalIsMismatch(c, i, p);
      SliceOfPrefix(b, i, |c|);
    }
    forall f: Frame | Chosen(f, c, p) && f.preambles == i ensures Judge(c, i, p) == Emit(f, |c|, f.repair.Some?) {
      ChosenIsEmitted(f, c, p);
    }
    forall f: Frame | Judge(c, i, p) == Emit(f, |c|, f.repair.Some?) ensures Chosen(f, c, p) && f.preambles == i {}
  }

  lemma SliceOfPrefix(b: seq<byte>, i: nat, n: nat)
    requires i < n <= |b|
    ensures b[..n][i..n - 1] == b[i..n - 1] && b[..n][n - 1] == b[n - 1]
  {}

  // -------------------------------------------------- the known distortions

  /** Residue of an image, by its distorted bytes. */
  lemma ImageResidue(f: Frame, d: byte, a: byte, x: byte)
    requires ValidFrame(f)
    ensures f.preambles < |Image(f, d, a, x)|
    ensures Residue(Image(f, d, a, x), f.preambles) == Xor(Xor(Xor(d, a), XorChecksum(Middle(f))), x)
  {
    hide Image, Middle, XorChecksum, Xor;
    ImageParts(f, d, a, x);
    CheckedPart(f, d, a, x);
    CheckOfParts(d, a, Middle(f));
  }

  lemma CheckOfFrame(f: Frame)
    requires ValidFrame(f)
    ensures XorChecksum(Covered(f)) == Xor(Xor(DelimiterOf(f), FirstAddressByte(f)), XorChecksum(Middle(f)))
  {
    hide Middle, XorChecksum, Xor, DelimiterOf, FirstAddressByte, Covered, Image;
    CoveredParts(f);
    CheckOfParts(DelimiterOf(f), FirstAddressByte(f), Middle(f));
  }

  lemma FlipResidues(d: byte, a: byte, m: byte)
    ensures Xor(Xor(Xor(Xor(d, 0x10), a), m), Xor(Xor(d, a), m)) == 0x10
    ensures Xor(Xor(Xor(Xor(d, 0x10), a), m), Xor(Xor(Xor(d, a), m), 0x10)) == 0
    ensures Xor(d, 0x10) != d
  {}

  /**
    A frame whose reserved delimiter bit was flipped, before or after its check
    byte was computed, is what its bytes stand for, with that repair.
   */
  lemma FlippedDelimiterChosen(f: Frame, checkedAfter: bool, p: ChecksumPolicy)
    requires ValidFrame(f) && AllowDelimiterRepair(p)
    ensures var x := XorChecksum(Covered(f));
      var c := Image(f, Xor(DelimiterOf(f), 0x10), FirstAddressByte(f), if checkedAfter then Xor(x, 0x10) else x);
      Chosen(f.(repair := Some(DelimiterBit)), c, p)
  {
    hide Middle, XorChecksum, Xor, DelimiterOf, FirstAddressByte, Covered, Residue, Image;
    var g := f.(repair := Some(DelimiterBit));
    var d, a, x := DelimiterOf(f), FirstAddressByte(f), XorChecksum(Covered(f));
    var y := if checkedAfter then Xor(x, 0x10) else x;
    RepairIrrelevant(f, Some(DelimiterBit), Xor(d, 0x10), a, y);
    CheckOfFrame(f);
    ImageParts(f, Xor(d, 0x10), a, y);
    ImageResidue(f, Xor(d, 0x10), a, y);
    FlipResidues(d, a, XorChecksum(Middle(f)));
  }

  lemma RepairIrrelevant(f: Frame, repair: Option<FrameRepair>, d: byte, a: byte, x: byte)
    requires ValidFrame(f)
    ensures var g := f.(repair := repair);
      && ValidFrame(g) && DelimiterOf(g) == DelimiterOf(f) && FirstAddressByte(g) == FirstAddressByte(f)
      && Image(g, d, a, x) == Image(f, d, a, x) && EncodedLength(g) == EncodedLength(f)
  {
    hide WriteAddress, MakeDelimiter, ByteOf;
  }

  lemma RewrittenResidue(d: byte, m: byte, master: Master, burst: bool, node: byte, source: byte)
    requires node <= 63 && source <= 63
    ensures var a, b := FirstByte(master, burst, node), FirstByte(master, burst, source);
      Xor(Xor(Xor(d, a), m), Xor(Xor(d, b), m)) == Xor(node, source)
    ensures node != source ==> Xor(node, source) != 0
  {}

  /**
    A frame whose short address was rewritten after its check byte had been
    computed over the configured source node is what its bytes stand for, with
    that repair, unless the residue is that of a flipped delimiter bit and that
    repair is enabled too.
   */
  lemma RewrittenAddressChosen(f: Frame, source: byte, p: ChecksumPolicy)
    requires ValidFrame(f) && f.address.Polling? && f.address.node != source <= 63
    requires p.KnownGateway? && p.checksumSourceNode == Some(source)
    requires p.delimiterBit ==> Xor(f.address.node, source) != 0x10
    ensures var g := f.(address := Polling(source, f.address.master));
      var c := Image(f, DelimiterOf(f), FirstAddressByte(f), XorChecksum(Covered(g)));
      Chosen(f.(repair := Some(ShortAddressRewrite(source))), c, p)
  {
    var g := f.(address := Polling(source, f.address.master));
    ShortMiddle(f, g);
    RewrittenResidue(DelimiterOf(f), XorChecksum(Middle(f)), f.address.master, f.kind.Burst?, f.address.node, source);
    hide Middle, XorChecksum, Xor, DelimiterOf, Covered, Residue, Image, FirstByte;
    var d, a, x := DelimiterOf(f), FirstAddressByte(f), XorChecksum(Covered(g));
    CheckOfFrame(g);
    RepairIrrelevant(f, Some(ShortAddressRewrite(source)), d, a, x);
    ImageParts(f, d, a, x);
    ImageResidue(f, d, a, x);
  }

  lemma ShortMiddle(f: Frame, g: Frame)
    requires ValidFrame(f) && ValidFrame(g) && f.address.Polling? && g.address.Polling?
    requires g == f.(address := g.address)
    ensures Middle(g) == Middle(f) && DelimiterOf(g) == DelimiterOf(f)
  {
    hide ByteOf, MakeDelimiter;
  }
}
