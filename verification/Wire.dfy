/**
  HART data-link frames: addresses, delimiters, the XOR check byte and the
  canonical encoding of a frame (src/wire/address.rs, src/wire/frame.rs,
  src/wire/mod.rs).
 */
module Wire {
  import opened Basics

  type byte = bv8

  const PREAMBLE: byte := 0xff
  const MAX_ENCODED_FRAME_SIZE: nat := 522

  datatype Master = Primary | Secondary

  datatype Address =
    | Polling(node: byte, master: Master)
    | Unique(expandedType: bv16, deviceId: bv32, master: Master)

  datatype PhysicalLayer = Fsk | Psk

  datatype FrameKind = Request | Response | Burst

  datatype FrameRepair = DelimiterBit | ShortAddressRewrite(checksumSourceNode: byte)

  datatype WireError =
    | PollingAddress(node: byte)
    | ExpandedDeviceType(expandedType: bv16)
    | DeviceIdentifier(deviceId: bv32)
    | ExpansionLength(expansionLength: nat)
    | PayloadLength(payloadLength: nat)
    | Truncated
    | UnknownDelimiter(delimiter: byte)
    | Checksum(expected: byte, actual: byte)

  datatype Frame = Frame(
    preambles: nat,
    kind: FrameKind,
    physicalLayer: PhysicalLayer,
    address: Address,
    expansion: seq<byte>,
    wireCommand: byte,
    payload: seq<byte>,
    repair: Option<FrameRepair>
  )

  // ---------------------------------------------------------------- checksum

  function Xor(a: byte, b: byte): byte { a ^ b }

  function XorChecksum(bytes: seq<byte>): byte {
    if bytes == [] then 0 else Xor(XorChecksum(bytes[..|bytes| - 1]), bytes[|bytes| - 1])
  }

  lemma XorAssociates(a: byte, b: byte, c: byte)
    ensures Xor(Xor(a, b), c) == Xor(a, Xor(b, c))
  {}

  lemma XorZero(a: byte)
    ensures Xor(0, a) == a && Xor(a, 0) == a
  {}

  lemma {:induction false} XorAppend(a: seq<byte>, b: seq<byte>)
    ensures XorChecksum(a + b) == Xor(XorChecksum(a), XorChecksum(b))
  {
    hide Xor;
    if b == [] {
      assert a + b == a;
      XorZero(XorChecksum(a));
    } else {
      var n := |b| - 1;
      XorAppend(a, b[..n]);
      assert (a + b)[..|a + b| - 1] == a + b[..n];
      XorAssociates(XorChecksum(a), XorChecksum(b[..n]), b[n]);
    }
  }

  lemma XorOne(y: byte)
    ensures XorChecksum([y]) == y
  {
    hide Xor;
    assert [y][..0] == [];
    XorZero(y);
  }

  // --------------------------------------------------------------- addresses

  function AddressBit(m: Master): byte {
    match m case Primary => 0x80 case Secondary => 0
  }

  function MasterOf(b: byte): Master {
    if b & 0x80 == 0 then Secondary else Primary
  }

  /** What the validated constructors `polling` and `unique` accept. */
  predicate ValidAddress(a: Address) {
    match a
    case Polling(node, _) => node <= 63
    case Unique(expandedType, deviceId, _) => expandedType <= 0x3fff && deviceId <= 0xff_ffff
  }

  function AddressLength(a: Address): nat {
    if a.Polling? then 1 else 5
  }

  /** First address byte: master bit, burst bit and the low six bits. */
  function FirstByte(m: Master, burst: bool, low: byte): byte {
    AddressBit(m) | (if burst then 0x40 else 0) | low
  }

  function LowSix(b: byte): byte { b & 0x3f }

  function TypeHigh(t: bv16): byte { ((t >> 8) as byte) & 0x3f }

  function TypeLow(t: bv16): byte { (t & 0xff) as byte }

  function JoinType(high: byte, low: byte): bv16 { ((high as bv16) << 8) | (low as bv16) }

  function IdHigh(id: bv32): byte { ((id >> 16) & 0xff) as byte }

  function IdMiddle(id: bv32): byte { ((id >> 8) & 0xff) as byte }

  function IdLow(id: bv32): byte { (id & 0xff) as byte }

  function JoinId(x: byte, y: byte, z: byte): bv32 {
    ((x as bv32) << 16) | ((y as bv32) << 8) | (z as bv32)
  }

  function WriteAddress(a: Address, burst: bool): (bytes: seq<byte>)
    ensures |bytes| == AddressLength(a)
  {
    match a
    case Polling(node, master) => [FirstByte(master, burst, node)]
    case Unique(expandedType, deviceId, master) =>
      [ FirstByte(master, burst, TypeHigh(expandedType)), TypeLow(expandedType),
        IdHigh(deviceId), IdMiddle(deviceId), IdLow(deviceId) ]
  }

  function CheckedPolling(node: byte, master: Master): Result<Address, WireError> {
    if node > 63 then Err(PollingAddress(node)) else Ok(Polling(node, master))
  }

  function CheckedUnique(expandedType: bv16, deviceId: bv32, master: Master): Result<Address, WireError> {
    if expandedType > 0x3fff then Err(ExpandedDeviceType(expandedType))
    else if deviceId > 0xff_ffff then Err(DeviceIdentifier(deviceId))
    else Ok(Unique(expandedType, deviceId, master))
  }

  function ReadAddress(bytes: seq<byte>, long: bool): Result<Address, WireError> {
    if bytes == [] then Err(Truncated)
    else
      var first := bytes[0];
      if !long then CheckedPolling(LowSix(first), MasterOf(first))
      else if |bytes| < 5 then Err(Truncated)
      else CheckedUnique(JoinType(LowSix(first), bytes[1]), JoinId(bytes[2], bytes[3], bytes[4]), MasterOf(first))
  }

  /** Reading back a written valid address restores it, whichever way the burst bit was set. */
  lemma AddressRoundTrip(a: Address, burst: bool)
    requires ValidAddress(a)
    ensures ReadAddress(WriteAddress(a, burst), a.Unique?) == Ok(a)
  {
    hide FirstByte, LowSix, TypeHigh, TypeLow, JoinType, IdHigh, IdMiddle, IdLow, JoinId, MasterOf;
    match a
    case Polling(node, master) =>
      FirstByteBack(master, burst, node);
    case Unique(expandedType, deviceId, master) =>
      TypeBack(expandedType);
      FirstByteBack(master, burst, TypeHigh(expandedType));
      IdBack(deviceId);
  }

  lemma FirstByteBack(m: Master, burst: bool, low: byte)
    requires low <= 63
    ensures LowSix(FirstByte(m, burst, low)) == low && MasterOf(FirstByte(m, burst, low)) == m
  {}

  lemma TypeBack(t: bv16)
    requires t <= 0x3fff
    ensures TypeHigh(t) <= 63 && JoinType(TypeHigh(t), TypeLow(t)) == t
  {}

  lemma IdBack(t: bv32)
    requires t <= 0xff_ffff
    ensures JoinId(IdHigh(t), IdMiddle(t), IdLow(t)) == t
  {}

  /** The first address byte with its burst bit forced to a given value. */
  function WithBurstBit(first: byte, burst: bool): byte {
    (first & 0xbf) | (if burst then 0x40 else 0)
  }

  /**
    Every slice of the right length reads as a valid address, and writing that
    address back changes nothing but the burst bit of its first byte.
   */
  lemma AddressReread(bytes: seq<byte>, long: bool, burst: bool)
    requires |bytes| == if long then 5 else 1
    ensures ReadAddress(bytes, long).Ok?
    ensures var a := ReadAddress(bytes, long).value;
      && ValidAddress(a) && a.Unique? == long
      && (a.Polling? ==> a.node == LowSix(bytes[0]))
      && WriteAddress(a, burst)[0] == WithBurstBit(bytes[0], burst)
      && WriteAddress(a, burst)[1..] == bytes[1..]
  {
    hide FirstByte, LowSix, TypeHigh, TypeLow, JoinType, IdHigh, IdMiddle, IdLow, JoinId, MasterOf, WithBurstBit;
    FirstByteReread(bytes[0], burst);
    if long {
      TypeReread(LowSix(bytes[0]), bytes[1]);
      IdReread(bytes[2], bytes[3], bytes[4]);
    }
  }

  lemma FirstByteReread(b: byte, burst: bool)
    ensures LowSix(b) <= 63 && FirstByte(MasterOf(b), burst, LowSix(b)) == WithBurstBit(b, burst)
  {}

  lemma TypeReread(high: byte, low: byte)
    requires high <= 63
    ensures var t := JoinType(high, low);
      t <= 0x3fff && TypeHigh(t) == high && TypeLow(t) == low
  {}

  lemma IdReread(x: byte, y: byte, z: byte)
    ensures var t := JoinId(x, y, z);
      t <= 0xff_ffff && IdHigh(t) == x && IdMiddle(t) == y && IdLow(t) == z
  {}

  // -------------------------------------------------------------- delimiters

  function KindBits(k: FrameKind): byte {
    match k case Request => 0x02 case Response => 0x06 case Burst => 0x01
  }

  function LayerBit(p: PhysicalLayer): byte {
    match p case Fsk => 0 case Psk => 0x08
  }

  function KindOf(delimiter: byte): Option<FrameKind> {
    var low := delimiter & 0x1f;
    if low == 0x02 || low == 0x0a then Some(Request)
    else if low == 0x06 || low == 0x0e then Some(Response)
    else if low == 0x01 || low == 0x09 then Some(Burst)
    else None
  }

  function LayerOf(delimiter: byte): PhysicalLayer {
    if delimiter & 0x08 == 0 then Fsk else Psk
  }

  predicate IsLong(delimiter: byte) { delimiter & 0x80 != 0 }

  function ExpansionBits(delimiter: byte): (n: nat)
    ensures n <= 3
  {
    ExpansionBitsBound(delimiter);
    ((delimiter >> 5) & 3) as nat
  }

  lemma ExpansionBitsBound(delimiter: byte)
    ensures ((delimiter >> 5) & 3) as nat <= 3
  {
    assert (delimiter >> 5) & 3 <= 3;
  }

  function MakeDelimiter(k: FrameKind, p: PhysicalLayer, long: bool, expansion: nat): byte
    requires expansion <= 3
  {
    KindBits(k) | LayerBit(p) | (if long then 0x80 else 0) | ((expansion as byte) << 5)
  }

  /** The four fields packed in a delimiter are independent: each one reads back. */
  lemma DelimiterFields(k: FrameKind, p: PhysicalLayer, long: bool, expansion: nat)
    requires expansion <= 3
    ensures var d := MakeDelimiter(k, p, long, expansion);
      && KindOf(d) == Some(k) && LayerOf(d) == p
      && IsLong(d) == long && ExpansionBits(d) == expansion
  {
    var d := MakeDelimiter(k, p, long, expansion);
    assert (d >> 5) & 3 == expansion as byte;
  }

  /** A byte that names a frame kind is the delimiter built from its own fields. */
  lemma DelimiterRebuild(d: byte)
    requires KindOf(d).Some?
    ensures MakeDelimiter(KindOf(d).value, LayerOf(d), IsLong(d), ExpansionBits(d)) == d
  {
    assert (ExpansionBits(d) as byte) == (d >> 5) & 3;
  }

  // ------------------------------------------------------------------ frames

  /** A u8 as the number it is. */
  function ValueOf(b: byte): (n: nat)
    ensures n <= 255
  {
    ByteRange(b);
    b as nat
  }

  lemma ByteRange(b: byte)
    ensures b as nat <= 255
  {}

  /** A length as the u8 that carries it. */
  function ByteOf(n: nat): (b: byte)
    requires n <= 255
    ensures ValueOf(b) == n
  {
    if n == 0 then 0
    else
      Successor(ByteOf(n - 1));
      ByteOf(n - 1) + 1
  }

  lemma Successor(b: byte)
    requires ValueOf(b) < 255
    ensures ValueOf(b + 1) == ValueOf(b) + 1
  {}

  lemma ByteOfBack(b: byte)
    ensures ByteOf(ValueOf(b)) == b
  {
    hide ByteOf, ValueOf;
    SameValue(ByteOf(ValueOf(b)), b);
  }

  lemma SameValue(a: byte, b: byte)
    requires ValueOf(a) == ValueOf(b)
    ensures a == b
  {}

  // ------------------------------------------------------------ 16-bit fields

  type u16 = n: nat | n <= 0xffff

  function BigEndian(high: byte, low: byte): u16 { ValueOf(high) * 256 + ValueOf(low) }

  function HighByte(n: u16): byte { ByteOf(n / 256) }

  function LowByte(n: u16): byte { ByteOf(n % 256) }

  lemma BigEndianBack(n: u16)
    ensures BigEndian(HighByte(n), LowByte(n)) == n
  {
    hide ByteOf, ValueOf;
  }

  lemma BigEndianBytes(high: byte, low: byte)
    ensures HighByte(BigEndian(high, low)) == high && LowByte(BigEndian(high, low)) == low
  {
    hide ByteOf, ValueOf;
    var h, l := ValueOf(high), ValueOf(low);
    ByteOfBack(high);
    ByteOfBack(low);
    assert (h * 256 + l) / 256 == h && (h * 256 + l) % 256 == l;
  }

  function Preambles(n: nat): (p: seq<byte>)
    ensures |p| == n
    ensures forall i :: 0 <= i < n ==> p[i] == PREAMBLE
  {
    seq(n, _ => PREAMBLE)
  }

  function DelimiterOf(f: Frame): byte
    requires |f.expansion| <= 3
  {
    MakeDelimiter(f.kind, f.physicalLayer, f.address.Unique?, |f.expansion|)
  }

  /** Everything the check byte covers: delimiter, address, expansion, command, count, payload. */
  function Covered(f: Frame): (c: seq<byte>)
    requires |f.expansion| <= 3 && |f.payload| <= 255
    ensures |c| == 3 + AddressLength(f.address) + |f.expansion| + |f.payload|
  {
    [DelimiterOf(f)] + WriteAddress(f.address, f.kind.Burst?) + f.expansion
    + [f.wireCommand, ByteOf(|f.payload|)] + f.payload
  }

  function EncodedLength(f: Frame): nat {
    f.preambles + 4 + AddressLength(f.address) + |f.expansion| + |f.payload|
  }

  function Encode(f: Frame): (r: Result<seq<byte>, WireError>)
    ensures r.Ok? <==> |f.expansion| <= 3 && |f.payload| <= 255
    ensures r.Ok? ==> |r.value| == EncodedLength(f)
  {
    if |f.expansion| > 3 then Err(ExpansionLength(|f.expansion|))
    else if |f.payload| > 255 then Err(PayloadLength(|f.payload|))
    else
      var covered := Covered(f);
      Ok(Preambles(f.preambles) + covered + [XorChecksum(covered)])
  }

  /** `Frame::encode` as the source runs it: one output buffer filled field by field. */
  method EncodeFrame(f: Frame) returns (r: Result<seq<byte>, WireError>)
    ensures r == Encode(f)
  {
    if |f.expansion| > 3 {
      return Err(ExpansionLength(|f.expansion|));
    }
    if |f.payload| > 255 {
      return Err(PayloadLength(|f.payload|));
    }
    var output := Preambles(f.preambles);
    var checksumStart := |output|;
    output := output + [DelimiterOf(f)];
    output := output + WriteAddress(f.address, f.kind.Burst?);
    output := output + f.expansion;
    output := output + [f.wireCommand];
    output := output + [ByteOf(|f.payload|)];
    output := output + f.payload;
    assert output[checksumStart..] == Covered(f);
    assert output == Preambles(f.preambles) + Covered(f);
    output := output + [XorChecksum(output[checksumStart..])];
    r := Ok(output);
  }

  /** A frame the library can build: u8 preambles, valid address, at most 3 and 255 bytes. */
  predicate ValidFrame(f: Frame) {
    && f.preambles <= 255
    && ValidAddress(f.address)
    && |f.expansion| <= 3
    && |f.payload| <= 255
  }

  lemma EncodedBound(f: Frame)
    requires ValidFrame(f)
    ensures Encode(f).Ok? && |Encode(f).value| <= MAX_ENCODED_FRAME_SIZE
  {}
}
