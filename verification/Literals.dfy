/** Frames as literal bytes: the values of preamble, delimiter, address and check byte on the wire. */
module Literals {
  import opened Basics
  import opened Wire
  import I = HartIp

  lemma XorMore(s: seq<byte>, x: byte)
    ensures XorChecksum(s + [x]) == Xor(XorChecksum(s), x)
  {
    assert (s + [x])[..|s|] == s;
  }

  /** XOR of up to three more bytes. */
  lemma XorThree(s: seq<byte>, x: byte, y: byte, z: byte)
    ensures XorChecksum(s + [x, y, z]) == Xor(Xor(Xor(XorChecksum(s), x), y), z)
  {
    hide XorChecksum, Xor;
    XorMore(s, x);
    XorMore(s + [x], y);
    XorMore(s + [x] + [y], z);
    assert s + [x] + [y] + [z] == s + [x, y, z];
  }

  lemma ByteNumbers()
    ensures ByteOf(0) == 0 && ByteOf(1) == 1 && ByteOf(2) == 2
  {}

  /** The identification request to polling address 0 from the primary master. */
  lemma ShortRequestBytes()
    ensures Encode(Frame(5, Request, Fsk, Polling(0, Primary), [], 0, [], None))
      == Ok([0xff, 0xff, 0xff, 0xff, 0xff, 0x02, 0x80, 0x00, 0x00, 0x82])
  {
    var f := Frame(5, Request, Fsk, Polling(0, Primary), [], 0, [], None);
    ByteNumbers();
    hide ByteOf;
    var a: seq<byte>, b: seq<byte> := [0x02], [0x80, 0x00, 0x00];
    XorOne(0x02);
    XorThree(a, 0x80, 0x00, 0x00);
    assert Covered(f) == a + b;
    var five: seq<byte> := [0xff, 0xff, 0xff, 0xff, 0xff];
    assert Preambles(5) == five && XorChecksum(a + b) == 0x82;
    var all: seq<byte> := [0xff, 0xff, 0xff, 0xff, 0xff, 0x02, 0x80, 0x00, 0x00, 0x82];
    assert five + (a + b) + [0x82] == all;
  }

  /** A burst message with one data byte from polling address 5 to the primary master. */
  lemma BurstBytes()
    ensures Encode(Frame(2, Burst, Fsk, Polling(5, Primary), [], 3, [7], None))
      == Ok([0xff, 0xff, 0x01, 0xc5, 0x03, 0x01, 0x07, 0xc1])
  {
    var f := Frame(2, Burst, Fsk, Polling(5, Primary), [], 3, [7], None);
    ByteNumbers();
    hide ByteOf;
    var a: seq<byte>, b: seq<byte>, d: seq<byte> := [0x01], [0xc5, 0x03, 0x01], [0x07];
    XorOne(0x01);
    XorThree(a, 0xc5, 0x03, 0x01);
    XorMore(a + b, 0x07);
    assert Covered(f) == a + b + d;
    var two: seq<byte> := [0xff, 0xff];
    assert Preambles(2) == two && XorChecksum(a + b + d) == 0xc1;
    var all: seq<byte> := [0xff, 0xff, 0x01, 0xc5, 0x03, 0x01, 0x07, 0xc1];
    assert two + (a + b + d) + [0xc1] == all;
  }

  /** A response over PSK from a unique address to the secondary master, with one expansion byte. */
  lemma LongResponseBytes()
    ensures Encode(Frame(2, Response, Psk, Unique(0x1234, 0xabcdef, Secondary), [0x55], 3, [0x00, 0x40], None))
      == Ok([0xff, 0xff, 0xae, 0x12, 0x34, 0xab, 0xcd, 0xef, 0x55, 0x03, 0x02, 0x00, 0x40, 0x15])
  {
    var f := Frame(2, Response, Psk, Unique(0x1234, 0xabcdef, Secondary), [0x55], 3, [0x00, 0x40], None);
    LongHeader();
    LongCheck();
    ByteNumbers();
    hide ByteOf, WriteAddress, MakeDelimiter, XorChecksum;
    var covered: seq<byte>, two: seq<byte> := [0xae, 0x12, 0x34, 0xab, 0xcd, 0xef, 0x55, 0x03, 0x02, 0x00, 0x40], [0xff, 0xff];
    assert DelimiterOf(f) == 0xae;
    assert Covered(f) == covered;
    assert Preambles(2) == two;
    var all: seq<byte> := [0xff, 0xff, 0xae, 0x12, 0x34, 0xab, 0xcd, 0xef, 0x55, 0x03, 0x02, 0x00, 0x40, 0x15];
    assert two + covered + [0x15] == all;
  }

  lemma LongHeader()
    ensures WriteAddress(Unique(0x1234, 0xabcdef, Secondary), false) == [0x12, 0x34, 0xab, 0xcd, 0xef]
    ensures MakeDelimiter(Response, Psk, true, 1) == 0xae
  {}

  lemma LongCheck()
    ensures XorChecksum([0xae, 0x12, 0x34, 0xab, 0xcd, 0xef, 0x55, 0x03, 0x02, 0x00, 0x40]) == 0x15
  {
    var a: seq<byte>, b: seq<byte>, c: seq<byte>, d: seq<byte>, e: seq<byte> :=
      [0xae], [0x12, 0x34, 0xab], [0xcd, 0xef, 0x55], [0x03, 0x02, 0x00], [0x40];
    XorOne(0xae);
    XorThree(a, 0x12, 0x34, 0xab);
    XorThree(a + b, 0xcd, 0xef, 0x55);
    XorThree(a + b + c, 0x03, 0x02, 0x00);
    XorMore(a + b + c + d, 0x40);
    var all: seq<byte> := [0xae, 0x12, 0x34, 0xab, 0xcd, 0xef, 0x55, 0x03, 0x02, 0x00, 0x40];
    assert a + b + c + d + e == all;
  }

  // ------------------------------------------------------------------ HART-IP

  /** A HART-IP response with one body byte. */
  lemma IpResponseBytes()
    ensures I.Encode(I.IpPacket(1, I.Response, 3, 0, 0x0102, [0xaa]))
      == Ok([0x01, 0x01, 0x03, 0x00, 0x01, 0x02, 0x00, 0x09, 0xaa])
  {
    Halves();
    hide HighByte, LowByte;
    var head: seq<byte> := [0x01, 0x01, 0x03, 0x00, 0x01, 0x02, 0x00, 0x09];
    assert I.Header(I.IpPacket(1, I.Response, 3, 0, 0x0102, [0xaa]), 9) == head;
    var all: seq<byte> := [0x01, 0x01, 0x03, 0x00, 0x01, 0x02, 0x00, 0x09, 0xaa];
    assert head + [0xaa] == all;
  }

  lemma Halves()
    ensures HighByte(0x0102) == 0x01 && LowByte(0x0102) == 0x02 && HighByte(9) == 0x00 && LowByte(9) == 0x09
  {
    ByteNumbers();
    Nine();
    hide ByteOf;
  }

  lemma Nine()
    ensures ByteOf(9) == 9
  {}

  /** The message types on the wire. */
  lemma IpTypeBytes()
    ensures I.TypeCode(I.Request) == 0 && I.TypeCode(I.Response) == 1 && I.TypeCode(I.Publish) == 2 && I.TypeCode(I.Nak) == 15
  {}
}
