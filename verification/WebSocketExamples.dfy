/** The frames of section 5.7 of RFC 6455: what is sent for them and what they are read as. */
module WebSocketExamples {
  import opened Bytes
  import opened WebSocketFrames
  import opened WebSocketReceiver
  import opened WebSocketConnection

  /** What a peer that sends data for the opcode argument op writes, and what the other one reads. */
  lemma SentIs(op: nat, data: seq<byte>, mask: Option<Mask>, first: byte, octets: seq<byte>, rest: seq<byte>)
    requires |data| < MAX_PAYLOAD && first == OutFrame(op, data, mask).flags
    requires Wire(OutFrame(op, data, mask)) == octets
    ensures Parse(octets + rest) == Whole(first, data, rest)
  {
    ParseWire(OutFrame(op, data, mask), rest);
    hide Parse, Wire, OutFrame;
  }

  /** Text of fewer than 126 octets, without a mask, whole or as the first or the last fragment; and a ping. */
  lemma ShortFrames(data: seq<byte>, rest: seq<byte>)
    requires |data| < 126
    ensures Wire(OutFrame(1, data, None)) == [0x81, |data|] + data
    ensures Wire(OutFrame(0x101, data, None)) == [0x01, |data|] + data
    ensures Wire(OutFrame(0, data, None)) == [0x80, |data|] + data
    ensures Wire(OutFrame(9, data, None)) == [0x89, |data|] + data
    ensures Parse([0x81, |data|] + data + rest) == Whole(0x81, data, rest)
    ensures Parse([0x01, |data|] + data + rest) == Whole(0x01, data, rest)
    ensures Parse([0x80, |data|] + data + rest) == Whole(0x80, data, rest)
    ensures Parse([0x89, |data|] + data + rest) == Whole(0x89, data, rest)
  {
    hide *;
    FirstOctets(data);
    ShortFrame(1, 0x81, data, rest);
    ShortFrame(0x101, 0x01, data, rest);
    ShortFrame(0, 0x80, data, rest);
    ShortFrame(9, 0x89, data, rest);
  }

  lemma FirstOctets(data: seq<byte>)
    requires |data| < 126
    ensures OutFrame(1, data, None).flags == 0x81 && OutFrame(0x101, data, None).flags == 0x01
    ensures OutFrame(0, data, None).flags == 0x80 && OutFrame(9, data, None).flags == 0x89
  {
  }

  lemma ShortFrame(op: nat, first: byte, data: seq<byte>, rest: seq<byte>)
    requires |data| < 126 && OutFrame(op, data, None).flags == first
    ensures Wire(OutFrame(op, data, None)) == [first, |data|] + data
    ensures Parse([first, |data|] + data + rest) == Whole(first, data, rest)
  {
    hide Wire, Parse, OutFrame;
    ShortWire(op, data);
    SentIs(op, data, None, first, [first, |data|] + data, rest);
  }

  lemma ShortWire(op: nat, data: seq<byte>)
    requires |data| < 126
    ensures Wire(OutFrame(op, data, None)) == [OutFrame(op, data, None).flags, |data|] + data
  {
    var f := OutFrame(op, data, None);
    assert Header(f) == [f.flags, |data|];
  }

  const Hello: seq<byte> := [0x48, 0x65, 0x6C, 0x6C, 0x6F]
  const HelloMasked: seq<byte> := [0x7F, 0x9F, 0x4D, 0x51, 0x58]
  const HelloMask: seq<byte> := [0x37, 0xFA, 0x21, 0x3D]

  lemma HelloIsMasked()
    ensures |HelloMask| == 4 && Masked(HelloMask, Hello) == HelloMasked
  {
    FirstTwoMasked();
    LastThreeMasked();
    hide Xor, XorBits;
    var m := Masked(HelloMask, Hello);
    assert m == [m[0], m[1], m[2], m[3], m[4]];
  }

  lemma FirstTwoMasked()
    ensures Xor(0x48, 0x37) == 0x7F && Xor(0x65, 0xFA) == 0x9F
  {
    hide Xor;
    OctetMasked(0x48, 0x37, 0x7F);
    OctetMasked(0x65, 0xFA, 0x9F);
  }

  lemma LastThreeMasked()
    ensures Xor(0x6C, 0x21) == 0x4D && Xor(0x6C, 0x3D) == 0x51 && Xor(0x6F, 0x37) == 0x58
  {
    hide Xor;
    OctetMasked(0x6C, 0x21, 0x4D);
    OctetMasked(0x6C, 0x3D, 0x51);
    OctetMasked(0x6F, 0x37, 0x58);
  }

  /** The last bits of p and q differ. */
  function Differ(p: nat, q: nat): nat { if p % 2 == q % 2 then 0 else 1 }

  lemma OctetMasked(a: byte, b: byte, x: byte)
    requires x == Differ(a, b) + 2 * Differ(a / 2, b / 2) + 4 * Differ(a / 4, b / 4) + 8 * Differ(a / 8, b / 8)
                  + 16 * Differ(a / 16, b / 16) + 32 * Differ(a / 32, b / 32) + 64 * Differ(a / 64, b / 64)
                  + 128 * Differ(a / 128, b / 128)
    ensures Xor(a, b) == x
  {
    hide XorBits, Differ;
    Halved(a);
    Halved(b);
    LowBit(a, b, 8);
    LowBit(a / 2, b / 2, 7);
    LowBit(a / 4, b / 4, 6);
    LowBit(a / 8, b / 8, 5);
    LowBit(a / 16, b / 16, 4);
    LowBit(a / 32, b / 32, 3);
    LowBit(a / 64, b / 64, 2);
    LowBit(a / 128, b / 128, 1);
    NoBits(a / 128 / 2, b / 128 / 2);
  }

  lemma Halved(a: byte)
    ensures a / 2 / 2 == a / 4 && a / 4 / 2 == a / 8 && a / 8 / 2 == a / 16 && a / 16 / 2 == a / 32
    ensures a / 32 / 2 == a / 64 && a / 64 / 2 == a / 128
  {
  }

  lemma LowBit(p: nat, q: nat, k: nat)
    requires k > 0
    ensures XorBits(p, q, k) == 2 * XorBits(p / 2, q / 2, k - 1) + Differ(p, q)
  {
  }

  lemma NoBits(p: nat, q: nat)
    ensures XorBits(p, q, 0) == 0
  {
  }

  /** A text and a pong with the text Hello, masked: 81 85 37 FA 21 3D 7F 9F 4D 51 58 is read as Hello. */
  lemma MaskedFrames(rest: seq<byte>)
    ensures Wire(OutFrame(1, Hello, Some(HelloMask))) == [0x81, 0x85, 0x37, 0xFA, 0x21, 0x3D] + HelloMasked
    ensures Wire(OutFrame(10, Hello, Some(HelloMask))) == [0x8A, 0x85, 0x37, 0xFA, 0x21, 0x3D] + HelloMasked
    ensures Parse([0x81, 0x85, 0x37, 0xFA, 0x21, 0x3D] + HelloMasked + rest) == Whole(0x81, Hello, rest)
    ensures Parse([0x8A, 0x85, 0x37, 0xFA, 0x21, 0x3D] + HelloMasked + rest) == Whole(0x8A, Hello, rest)
  {
    MaskedWire(1, 0x81);
    MaskedWire(10, 0x8A);
    hide Wire, Parse;
    SentIs(1, Hello, Some(HelloMask), 0x81, [0x81, 0x85, 0x37, 0xFA, 0x21, 0x3D] + HelloMasked, rest);
    SentIs(10, Hello, Some(HelloMask), 0x8A, [0x8A, 0x85, 0x37, 0xFA, 0x21, 0x3D] + HelloMasked, rest);
  }

  lemma MaskedWire(op: nat, first: byte)
    requires first == OutFrame(op, Hello, Some(HelloMask)).flags
    ensures Wire(OutFrame(op, Hello, Some(HelloMask))) == [first, 0x85, 0x37, 0xFA, 0x21, 0x3D] + HelloMasked
  {
    HelloIsMasked();
    hide Masked;
    var f := OutFrame(op, Hello, Some(HelloMask));
    assert Header(f) == [first, 0x85, 0x37, 0xFA, 0x21, 0x3D];
  }

  /** 256 octets are announced in two octets, 65536 in eight. */
  lemma LongFrames(data: seq<byte>, rest: seq<byte>)
    ensures |data| == 0x100 ==> Wire(OutFrame(2, data, None)) == [0x82, 0x7E, 0x01, 0x00] + data
                                && Parse([0x82, 0x7E, 0x01, 0x00] + data + rest) == Whole(0x82, data, rest)
    ensures |data| == 0x1_0000
            ==> Wire(OutFrame(2, data, None)) == [0x82, 0x7F, 0, 0, 0, 0, 0, 1, 0, 0] + data
                && Parse([0x82, 0x7F, 0, 0, 0, 0, 0, 1, 0, 0] + data + rest) == Whole(0x82, data, rest)
  {
    if |data| == 0x100 {
      MediumWire(data);
      hide Wire, Parse;
      SentIs(2, data, None, 0x82, [0x82, 0x7E, 0x01, 0x00] + data, rest);
    }
    if |data| == 0x1_0000 {
      LongWire(data);
      hide Wire, Parse;
      SentIs(2, data, None, 0x82, [0x82, 0x7F, 0, 0, 0, 0, 0, 1, 0, 0] + data, rest);
    }
  }

  lemma MediumWire(data: seq<byte>)
    requires |data| == 0x100
    ensures Wire(OutFrame(2, data, None)) == [0x82, 0x7E, 0x01, 0x00] + data
  {
    var f := OutFrame(2, data, None);
    assert BigEndian(0x100, 2) == [1, 0];
    assert Header(f) == [0x82, 0x7E, 0x01, 0x00];
  }

  lemma LongWire(data: seq<byte>)
    requires |data| == 0x1_0000
    ensures Wire(OutFrame(2, data, None)) == [0x82, 0x7F, 0, 0, 0, 0, 0, 1, 0, 0] + data
  {
    hide BigEndian, FromBigEndian, Pow256, Wire, Header, OutFrame;
    LongHeader(data);
    LongLength();
    WireIs(OutFrame(2, data, None));
    PowersOf256();
    BigEndianHalves(0x1_0000);
    assert [0, 0, 0, 0] + [0, 1, 0, 0] == [0, 0, 0, 0, 0, 1, 0, 0];
    assert [0x82, 0x7F] + [0, 0, 0, 0, 0, 1, 0, 0] == [0x82, 0x7F, 0, 0, 0, 0, 0, 1, 0, 0];
  }

  lemma LongHeader(data: seq<byte>)
    requires |data| == 0x1_0000
    ensures var f := OutFrame(2, data, None);
            Header(f) == [0x82, 0x7F] + BigEndian(0x1_0000, 8) && f.mask == None && f.payload == data
  {
    hide BigEndian;
    assert [0x82, 0x7F] + BigEndian(0x1_0000, 8) + [] == [0x82, 0x7F] + BigEndian(0x1_0000, 8);
  }

  lemma WireIs(f: Frame)
    requires f.mask == None
    ensures Wire(f) == Header(f) + f.payload
  {
    hide Header;
  }

  lemma LongLength()
    ensures BigEndian(0, 4) == [0, 0, 0, 0] && BigEndian(0x1_0000, 4) == [0, 1, 0, 0]
  {
  }
}
