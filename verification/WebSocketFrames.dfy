/** The frame format of section 5.2 of RFC 6455, as mongoose.c writes and reads it. */
module WebSocketFrames {
  import opened Bytes

  const FIN: byte := 0x80
  const CONTINUE := 0
  const CLOSE := 8
  const PING := 9
  const PONG := 10
  /** Payload lengths have their top bit clear (section 5.2 of RFC 6455). */
  const MAX_PAYLOAD := 0x8000_0000_0000_0000
  const WORD := 0x1_0000_0000_0000_0000

  type Mask = s: seq<byte> | |s| == 4 witness [0, 0, 0, 0]

  /** How the payload length is written: 7 bits, 7 + 16 bits or 7 + 64 bits. */
  datatype LengthForm = Short | Medium | Long

  datatype RawFrame = Frame(flags: byte, form: LengthForm, mask: Option<Mask>, payload: seq<byte>)

  /** A frame whose payload length can be written in its form. */
  type Frame = f: RawFrame | Fits(f.form, |f.payload|) witness Frame(0, Short, None, [])

  predicate Fits(form: LengthForm, n: nat) {
    match form
    case Short => n < 126
    case Medium => n < 0x1_0000
    case Long => n < MAX_PAYLOAD
  }

  predicate IsFin(flags: byte) { flags >= 128 }

  function Opcode(flags: byte): byte { flags % 16 }

  predicate IsFragment(flags: byte) { !IsFin(flags) || Opcode(flags) == CONTINUE }

  predicate IsFirstFragment(flags: byte) { !IsFin(flags) && Opcode(flags) != CONTINUE }

  predicate IsControl(flags: byte) {
    Opcode(flags) == CLOSE || Opcode(flags) == PING || Opcode(flags) == PONG
  }

  /** Payload octet i is combined with mask octet i modulo 4. */
  function Masked(mask: Mask, data: seq<byte>): (s: seq<byte>)
    ensures |s| == |data|
  {
    seq(|data|, i requires 0 <= i < |data| => Xor(data[i], mask[i % 4]))
  }

  lemma MaskedTwice(mask: Mask, data: seq<byte>)
    ensures Masked(mask, Masked(mask, data)) == data
  {
    forall i | 0 <= i < |data|
      ensures Masked(mask, Masked(mask, data))[i] == data[i]
    {
      XorTwice(data[i], mask[i % 4]);
    }
  }

  /** Number of octets the length takes after the second octet. */
  function ExtraLength(form: LengthForm): nat {
    match form
    case Short => 0
    case Medium => 2
    case Long => 8
  }

  function LengthCode(form: LengthForm, n: nat): byte
    requires Fits(form, n)
  {
    match form
    case Short => n
    case Medium => 126
    case Long => 127
  }

  function MaskBytes(mask: Option<Mask>): seq<byte> {
    if mask.None? then [] else mask.value
  }

  function MaskedPayload(f: Frame): seq<byte> {
    if f.mask.None? then f.payload else Masked(f.mask.value, f.payload)
  }

  /** Everything in front of the payload. */
  function Header(f: Frame): (s: seq<byte>)
    ensures |s| == 2 + ExtraLength(f.form) + |MaskBytes(f.mask)|
  {
    [f.flags, LengthCode(f.form, |f.payload|) + if f.mask.None? then 0 else 128]
      + BigEndian(|f.payload|, ExtraLength(f.form)) + MaskBytes(f.mask)
  }

  function Wire(f: Frame): (s: seq<byte>)
    ensures |s| == |Header(f)| + |f.payload| >= 2
  {
    Header(f) + MaskedPayload(f)
  }

  /**
   * The octets in front of the payload one by one, in the numbers of section 5.2 of RFC 6455: the flags, the
   * mask bit and the length with its octets most significant first, and the mask.
   */
  lemma HeaderOctets(f: Frame)
    ensures var s, n := Header(f), |f.payload|;
            var e := if f.form.Short? then 0 else if f.form.Medium? then 2 else 8;
            && |s| == 2 + e + (if f.mask.Some? then 4 else 0) && s[0] == f.flags
            && s[1] == (if f.mask.Some? then 128 else 0) + (if e == 0 then n else if e == 2 then 126 else 127)
            && AreDigits(s[2..2 + e], n) && (f.mask.Some? ==> s[2 + e..] == f.mask.value)
  {
    var n, e := |f.payload|, ExtraLength(f.form);
    forall i | 0 <= i < e ensures BigEndian(n, e)[i] == Digit(n, e - 1 - i) {
      BigEndianAt(n, e, i);
    }
    assert Header(f)[2..2 + e] == BigEndian(n, e);
  }

  /** The octets of n, most significant first. */
  predicate AreDigits(s: seq<byte>, n: nat) {
    forall i :: 0 <= i < |s| ==> s[i] == Digit(n, |s| - 1 - i)
  }

  /** Behind the header comes the payload, combined bit by bit with the mask octets in turn. */
  lemma PayloadOctets(f: Frame)
    ensures var h := |Header(f)|;
            && Wire(f)[..h] == Header(f) && |Wire(f)| == h + |f.payload|
            && (f.mask.None? ==> Wire(f)[h..] == f.payload)
            && (f.mask.Some? ==> AreMasked(Wire(f)[h..], f.payload, f.mask.value))
  {
    var data := MaskedPayload(f);
    assert Wire(f)[|Header(f)|..] == data;
    if f.mask.Some? {
      forall i | 0 <= i < |data| ensures IsXor(data[i], f.payload[i], f.mask.value[i % 4]) {
        XorIsBitwise(f.payload[i], f.mask.value[i % 4]);
      }
    }
  }

  predicate AreMasked(s: seq<byte>, data: seq<byte>, mask: Mask) {
    |s| == |data| && forall i :: 0 <= i < |s| ==> IsXor(s[i], data[i], mask[i % 4])
  }

  /** x has exactly the bits that differ in a and b. */
  predicate IsXor(x: byte, a: byte, b: byte) {
    forall i :: 0 <= i < 8 ==> (Bit(x, i) == 1 <==> Bit(a, i) != Bit(b, i))
  }

  function Wires(fs: seq<Frame>): seq<byte>
  {
    if fs == [] then [] else Wire(fs[0]) + Wires(fs[1..])
  }

  lemma {:induction false} WiresConcat(a: seq<Frame>, b: seq<Frame>)
    ensures Wires(a + b) == Wires(a) + Wires(b)
  {
    if a == [] {
      assert a + b == b;
    } else {
      var w := Wire(a[0]);
      assert (a + b)[1..] == a[1..] + b;
      calc {
        Wires(a + b);
        w + Wires(a[1..] + b);
        { WiresConcat(a[1..], b); }
        w + (Wires(a[1..]) + Wires(b));
        { Assoc(w, Wires(a[1..]), Wires(b)); }
        Wires(a) + Wires(b);
      }
    }
  }

  /** What the octets u begin with. */
  datatype Parsed =
    | NeedMore
    | Overflow
    | Whole(flags: byte, payload: seq<byte>, rest: seq<byte>)

  function FormAt(u: seq<byte>): LengthForm
    requires |u| >= 2
  {
    var n := u[1] % 128;
    if n < 126 then Short else if n == 126 then Medium else Long
  }

  function HeaderSize(u: seq<byte>): nat
    requires |u| >= 2
  {
    2 + ExtraLength(FormAt(u)) + if u[1] >= 128 then 4 else 0
  }

  function PayloadSize(u: seq<byte>): nat
    requires |u| >= 2 && |u| >= HeaderSize(u)
  {
    if FormAt(u).Short? then u[1] % 128 else FromBigEndian(u[2..2 + ExtraLength(FormAt(u))])
  }

  function MaskAt(u: seq<byte>): Option<Mask>
    requires |u| >= 2 && |u| >= HeaderSize(u)
  {
    if u[1] >= 128 then Some(u[HeaderSize(u) - 4..HeaderSize(u)]) else None
  }

  function Parse(u: seq<byte>): Parsed {
    if |u| < 2 || |u| < HeaderSize(u) then NeedMore
    else
      var h, n := HeaderSize(u), PayloadSize(u);
      if h + n >= WORD then Overflow
      else if |u| < h + n then NeedMore
      else
        var raw := u[h..h + n];
        var mask := MaskAt(u);
        Whole(u[0], if mask.None? then raw else Masked(mask.value, raw), u[h + n..])
  }

  /** Two octets settle how long the header is. */
  lemma SecondOctet(f: Frame, u: seq<byte>)
    requires |u| >= 2 && u[..2] == Header(f)[..2]
    ensures u[0] == f.flags && FormAt(u) == f.form && HeaderSize(u) == |Header(f)|
  {
    assert u[0] == u[..2][0] && u[1] == u[..2][1];
  }

  /** The first octets of a written frame give back its header, whatever of the payload is there. */
  lemma HeaderReadsBack(f: Frame, u: seq<byte>)
    requires Header(f) <= u
    ensures FormAt(u) == f.form && HeaderSize(u) == |Header(f)|
    ensures PayloadSize(u) == |f.payload| && MaskAt(u) == f.mask
  {
    PowersOf256();
    var e := ExtraLength(f.form);
    SecondOctet(f, u);
    assert u[2..2 + e] == Header(f)[2..2 + e] == BigEndian(|f.payload|, e);
    if !f.form.Short? {
      BigEndianRoundTrip(|f.payload|, e);
    }
    if f.mask.Some? {
      assert u[2 + e..6 + e] == Header(f)[2 + e..6 + e] == f.mask.value;
    }
  }

  /** Reading undoes writing, for every length form, masked or not. */
  lemma ParseWire(f: Frame, rest: seq<byte>)
    ensures Parse(Wire(f) + rest) == Whole(f.flags, f.payload, rest)
  {
    var u := Wire(f) + rest;
    HeaderReadsBack(f, u);
    var h, n := |Header(f)|, |f.payload|;
    assert u[h..h + n] == MaskedPayload(f);
    assert u[h + n..] == rest;
    if f.mask.Some? {
      MaskedTwice(f.mask.value, f.payload);
    }
  }

  /** A frame that is still arriving is never taken for a whole one. */
  lemma ParseProperPrefix(f: Frame, p: seq<byte>)
    requires p < Wire(f)
    ensures Parse(p) == NeedMore
  {
    if |p| < |Header(f)| {
      if |p| >= 2 {
        SecondOctet(f, p);
      }
    } else {
      assert Header(f) <= p;
      HeaderReadsBack(f, p);
    }
  }

  lemma SliceExtend(u: seq<byte>, more: seq<byte>, i: nat, j: nat)
    requires i <= j <= |u|
    ensures (u + more)[i..j] == u[i..j]
  {
  }

  /** More octets never change what has already been read. */
  lemma ParseExtend(u: seq<byte>, more: seq<byte>)
    ensures Parse(u).Whole? ==> Parse(u + more) == Parse(u).(rest := Parse(u).rest + more)
    ensures Parse(u).Overflow? ==> Parse(u + more).Overflow?
  {
    if !Parse(u).NeedMore? {
      HeaderExtend(u, more);
      hide HeaderSize, PayloadSize, MaskAt, Masked;
      var h, n := HeaderSize(u), PayloadSize(u);
      if Parse(u).Whole? {
        SliceExtend(u, more, h, h + n);
        assert (u + more)[h + n..] == u[h + n..] + more;
      }
    }
  }

  lemma HeaderExtend(u: seq<byte>, more: seq<byte>)
    requires |u| >= 2 && |u| >= HeaderSize(u)
    ensures var v := u + more;
            && |v| >= 2 && v[0] == u[0] && HeaderSize(v) == HeaderSize(u) && |v| >= HeaderSize(v)
            && PayloadSize(v) == PayloadSize(u) && MaskAt(v) == MaskAt(u)
  {
    var v, h := u + more, HeaderSize(u);
    assert v[0] == u[0] && v[1] == u[1];
    SliceExtend(u, more, 2, 2 + ExtraLength(FormAt(u)));
    if u[1] >= 128 {
      SliceExtend(u, more, h - 4, h);
    }
  }

  lemma HeaderSound(u: seq<byte>) returns (f: Frame)
    requires Parse(u).Whole? && |Parse(u).payload| < MAX_PAYLOAD
    ensures f.flags == Parse(u).flags && f.payload == Parse(u).payload && f.mask == MaskAt(u)
    ensures Header(f) == u[..HeaderSize(u)]
  {
    var p := Parse(u);
    var e := ExtraLength(FormAt(u));
    PowersOf256();
    FromBigEndianBound(u[2..2 + e]);
    BigEndianOfFrom(u[2..2 + e]);
    hide BigEndian, FromBigEndian, Pow256, Masked;
    f := Frame(p.flags, FormAt(u), MaskAt(u), p.payload);
    ThreePieces(u, 2 + e, HeaderSize(u));
    assert BigEndian(|f.payload|, e) == u[2..2 + e] && MaskBytes(f.mask) == u[2 + e..HeaderSize(u)];
    hide Parse, PayloadSize;
  }

  lemma ThreePieces(u: seq<byte>, i: nat, j: nat)
    requires 2 <= i <= j <= |u|
    ensures u[..j] == [u[0], u[1]] + u[2..i] + u[i..j]
  {
  }

  lemma PayloadSound(u: seq<byte>, f: Frame)
    requires Parse(u).Whole? && f.payload == Parse(u).payload && f.mask == MaskAt(u)
    ensures var h := HeaderSize(u);
            h + |f.payload| <= |u| && MaskedPayload(f) == u[h..h + |f.payload|] && Parse(u).rest == u[h + |f.payload|..]
  {
    var h, n := HeaderSize(u), PayloadSize(u);
    if f.mask.Some? {
      MaskedTwice(f.mask.value, u[h..h + n]);
    }
  }

  /** Whatever is read is a written frame: the reader accepts nothing else. */
  lemma ParseSound(u: seq<byte>) returns (f: Frame)
    requires Parse(u).Whole? && |Parse(u).payload| < MAX_PAYLOAD
    ensures f.flags == Parse(u).flags && f.payload == Parse(u).payload
    ensures u == Wire(f) + Parse(u).rest
  {
    f := HeaderSound(u);
    PayloadSound(u, f);
    hide Parse, Header, HeaderSize, MaskedPayload;
  }

  /** The length form that mg_send_ws_header picks. */
  function FormFor(n: nat): LengthForm {
    if n < 126 then Short else if n < 65535 then Medium else Long
  }

  /** The only form section 5.2 of RFC 6455 allows for n: the shortest that fits. */
  ghost predicate IsMinimalForm(form: LengthForm, n: nat) {
    Fits(form, n) && forall g: LengthForm | Fits(g, n) :: ExtraLength(form) <= ExtraLength(g)
  }

  /** The sender writes the shortest form except at exactly one length. */
  lemma SenderFormMinimalExactly(n: nat)
    requires n < MAX_PAYLOAD
    ensures Fits(FormFor(n), n)
    ensures IsMinimalForm(FormFor(n), n) <==> n != 65535
  {
    if n == 65535 {
      assert Fits(Medium, n);
    }
  }

  // ---------------------------------------------------------------- lengths

  /** A frame is refused for its length exactly if header and payload together would have 2^64 octets or more. */
  lemma OverflowExactly(u: seq<byte>)
    ensures Parse(u).Overflow?
            <==> |u| >= 10 && u[1] % 128 == 127 && (u[1] >= 128 ==> |u| >= 14)
                 && (if u[1] >= 128 then 14 else 10) + FromBigEndian(u[2..10]) >= 0x1_0000_0000_0000_0000
  {
    if |u| >= 4 {
      FromTwo(u[2..4]);
    }
    hide FromBigEndian, Masked;
  }
}
