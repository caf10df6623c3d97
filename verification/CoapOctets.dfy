/**
 * CoAP messages octet by octet (section 3 of RFC 7252): a message is parsed exactly if its octets are
 * written as the standard says, and every composed message is; the numbers are those of the standard.
 */
module CoapOctets {
  import opened Bytes
  import opened CoapCodec

  /** Figure 8: four bits, and one octet or two behind them, stand for the number v. */
  predicate Coded(v: nat, bits: nat, behind: seq<byte>) {
    || (v <= 12 && bits == v && behind == [])
    || (13 <= v <= 268 && bits == 13 && behind == [v - 13])
    || (269 <= v <= 65804 && bits == 14 && |behind| == 2 && FromBigEndian(behind) == v - 269)
  }

  /** An option as it is written. */
  datatype Written = Written(delta: nat, deltaBits: nat, deltaBehind: seq<byte>,
                             length: nat, lengthBits: nat, lengthBehind: seq<byte>, value: seq<byte>)

  /** The parser keeps 16 bits of the length. */
  predicate IsOption(w: Written) {
    && Coded(w.delta, w.deltaBits, w.deltaBehind) && Coded(w.length, w.lengthBits, w.lengthBehind)
    && |w.value| == w.length % 65536
  }

  function OctetsOf(w: Written): seq<byte>
    requires IsOption(w)
  {
    [16 * w.deltaBits + w.lengthBits] + w.deltaBehind + w.lengthBehind + w.value
  }

  predicate AreOptions(ws: seq<Written>) { forall i :: 0 <= i < |ws| ==> IsOption(ws[i]) }

  function AllOctets(ws: seq<Written>): seq<byte>
    requires AreOptions(ws)
  {
    if ws == [] then [] else OctetsOf(ws[0]) + AllOctets(ws[1..])
  }

  /** The number of an option is the sum of the deltas up to it, in 16 bits. */
  function OptionsOf(ws: seq<Written>, prev: nat): seq<Opt>
    decreases |ws|
  {
    if ws == [] then []
    else
      var number := (prev + ws[0].delta) % 65536;
      [Opt(number, ws[0].value)] + OptionsOf(ws[1..], number)
  }

  // ---------------------------------------------------------------- one option

  lemma CodedIsRead(v: nat, bits: nat, behind: seq<byte>, rest: seq<byte>)
    requires Coded(v, bits, behind)
    ensures bits < 15 && ReadExtension(bits, behind + rest) == Some((v % 65536, |behind|))
  {
    if bits == 14 {
      FromTwo(behind);
    }
    hide FromBigEndian;
  }

  lemma ReadIsCoded(bits: byte, s: seq<byte>) returns (v: nat)
    requires bits < 15 && ReadExtension(bits, s).Some?
    ensures var (n, k) := ReadExtension(bits, s).value; Coded(v, bits, s[..k]) && n == v % 65536
  {
    if bits < 13 {
      v := bits;
    } else if bits == 13 {
      v := s[0] as nat + 13;
    } else {
      FromTwo(s[..2]);
      v := FromBigEndian(s[..2]) + 269;
    }
    hide FromBigEndian;
  }

  lemma FirstBits(d: nat, l: nat)
    requires d < 15 && l < 15
    ensures 16 * d + l < 0xFF && (16 * d + l) / 16 == d && (16 * d + l) % 16 == l
  {
  }

  /** A written option is read, whatever is behind it. */
  lemma OptionIsRead(w: Written, rest: seq<byte>)
    requires IsOption(w)
    ensures OctetsOf(w) != [] && OctetsOf(w)[0] != 0xFF
    ensures ReadOption(OctetsOf(w) + rest) == Good(w.delta % 65536, w.value, rest)
  {
    hide Coded, ReadExtension;
    var body := w.value + rest;
    var tail := w.lengthBehind + body;
    CodedIsRead(w.delta, w.deltaBits, w.deltaBehind, tail);
    CodedIsRead(w.length, w.lengthBits, w.lengthBehind, body);
    FirstBits(w.deltaBits, w.lengthBits);
    RegroupOption([16 * w.deltaBits + w.lengthBits], w.deltaBehind, w.lengthBehind, w.value, rest);
    TakenApart(w.lengthBehind, w.value, rest);
  }

  lemma TakenApart(a: seq<byte>, b: seq<byte>, c: seq<byte>)
    ensures (a + (b + c))[|a|..] == b + c && (b + c)[..|b|] == b && (b + c)[|b|..] == c
  {
  }

  /** What is read as an option is one. */
  lemma ReadIsOption(s: seq<byte>) returns (w: Written)
    requires s != [] && ReadOption(s).Good?
    ensures IsOption(w) && ReadOption(s).delta == w.delta % 65536 && ReadOption(s).value == w.value
    ensures s == OctetsOf(w) + ReadOption(s).rest
  {
    hide Coded, ReadExtension;
    var d, l := s[0] / 16, s[0] % 16;
    var delta := ReadIsCoded(d, s[1..]);
    var k := ReadExtension(d, s[1..]).value.1;
    var more := s[1 + k..];
    assert s[1..][k..] == more;
    var length := ReadIsCoded(l, more);
    var (n, j) := ReadExtension(l, more).value;
    w := Written(delta, d, s[1..][..k], length, l, more[..j], more[j..][..n]);
    var r := ReadOption(s);
    assert r == Good(ReadExtension(d, s[1..]).value.0, more[j..][..n], more[j..][n..]);
    assert 16 * d + l == s[0];
    PutTogether(s, k, j, n);
    Pieces([s[0]], s[1..][..k], more[..j], more[j..][..n], more[j..][n..]);
  }

  lemma PutTogether(s: seq<byte>, k: nat, j: nat, n: nat)
    requires 1 + k + j + n <= |s|
    ensures var more := s[1 + k..];
            s == [s[0]] + s[1..][..k] + more[..j] + more[j..][..n] + more[j..][n..]
  {
    var more := s[1 + k..];
    Halves(more[j..], n);
    Halves(more, j);
    Halves(s[1..], k);
    assert s[1..][k..] == more;
    Nested(s, s[1..][..k], more[..j], more[j..][..n], more[j..][n..]);
  }

  lemma Halves(s: seq<byte>, k: nat)
    requires k <= |s|
    ensures s == s[..k] + s[k..]
  {
  }

  lemma Nested(s: seq<byte>, b: seq<byte>, c: seq<byte>, d: seq<byte>, e: seq<byte>)
    requires s != [] && s[1..] == b + (c + (d + e))
    ensures s == [s[0]] + b + c + d + e
  {
    assert s == [s[0]] + (b + (c + (d + e)));
  }

  lemma Pieces(a: seq<byte>, b: seq<byte>, c: seq<byte>, d: seq<byte>, e: seq<byte>)
    ensures a + b + c + d + e == (a + b + c + d) + e
  {
  }

  /** A delta or length of fifteen is a format error; otherwise an option that is not read is cut. */
  lemma OptionFault(s: seq<byte>)
    requires s != [] && s[0] != 0xFF && ReadOption(s).Bad?
    ensures ReadOption(s).fault == if s[0] / 16 == 15 || s[0] % 16 == 15 then FormatError else NotEnoughData
  {
  }

  // ---------------------------------------------------------------- all options

  lemma NextWritten(ws: seq<Written>, prev: nat, acc: seq<Opt>, tail: seq<byte>)
    requires AreOptions(ws) && ws != []
    ensures var number := (prev + ws[0].delta) % 65536;
            ReadOptions(AllOctets(ws) + tail, prev, acc)
            == ReadOptions(AllOctets(ws[1..]) + tail, number, Insert(acc, Opt(number, ws[0].value)))
  {
    hide OctetsOf, IsOption, Insert, ReadOptions, ReadOption;
    assert IsOption(ws[0]);
    var more := AllOctets(ws[1..]) + tail;
    assert AllOctets(ws) + tail == OctetsOf(ws[0]) + more;
    OptionIsRead(ws[0], more);
    ReadOptionsStep(OctetsOf(ws[0]) + more, prev, acc);
    SumWraps(prev, ws[0].delta);
  }

  lemma SumWraps(a: nat, b: nat)
    ensures (b % 65536 + a) % 65536 == (a + b) % 65536
  {
  }

  /** Written options are read one by one, up to the end or the payload marker, and added in order. */
  lemma {:induction false} OptionsAreRead(ws: seq<Written>, prev: nat, acc: seq<Opt>, tail: seq<byte>)
    requires AreOptions(ws) && (tail == [] || tail[0] == 0xFF)
    ensures ReadOptions(AllOctets(ws) + tail, prev, acc) == OptionList(InsertAll(acc, OptionsOf(ws, prev)), tail)
    decreases |ws|
  {
    hide ReadOptions, Insert, IsOption, OctetsOf;
    if ws == [] {
      ReadOptionsStops(prev, acc, tail);
      assert AllOctets(ws) + tail == tail;
    } else {
      NextWritten(ws, prev, acc, tail);
      var number := (prev + ws[0].delta) % 65536;
      var o := Opt(number, ws[0].value);
      OptionsAreRead(ws[1..], number, Insert(acc, o), tail);
      InsertAllStep(acc, o, OptionsOf(ws[1..], number));
    }
  }

  lemma InsertAllStep(acc: seq<Opt>, o: Opt, os: seq<Opt>)
    ensures InsertAll(acc, [o] + os) == InsertAll(Insert(acc, o), os)
  {
    assert ([o] + os)[1..] == os;
    hide Insert;
  }

  /** Behind written options the first one that cannot be read is the fault of the whole. */
  lemma {:induction false} FaultIsFound(ws: seq<Written>, prev: nat, acc: seq<Opt>, bad: seq<byte>)
    requires AreOptions(ws) && bad != [] && bad[0] != 0xFF && ReadOption(bad).Bad?
    ensures ReadOptions(AllOctets(ws) + bad, prev, acc)
            == BadOptionList(if bad[0] / 16 == 15 || bad[0] % 16 == 15 then FormatError else NotEnoughData)
    decreases |ws|
  {
    hide ReadOptions, ReadOption, Insert, IsOption, OctetsOf;
    if ws == [] {
      assert AllOctets(ws) + bad == bad;
      ReadOptionsStep(bad, prev, acc);
      OptionFault(bad);
    } else {
      NextWritten(ws, prev, acc, bad);
      var number := (prev + ws[0].delta) % 65536;
      FaultIsFound(ws[1..], number, Insert(acc, Opt(number, ws[0].value)), bad);
    }
  }

  /** What is read as a list of options is written as one. */
  lemma {:induction false} ReadIsOptions(s: seq<byte>, prev: nat, acc: seq<Opt>) returns (ws: seq<Written>)
    requires ReadOptions(s, prev, acc).OptionList?
    ensures var rest := ReadOptions(s, prev, acc).rest;
            && AreOptions(ws) && s == AllOctets(ws) + rest && (rest == [] || rest[0] == 0xFF)
            && ReadOptions(s, prev, acc).options == InsertAll(acc, OptionsOf(ws, prev))
    decreases |s|
  {
    hide ReadOptions, ReadOption, Insert, IsOption, OctetsOf;
    ReadOptionsStep(s, prev, acc);
    if s == [] || s[0] == 0xFF {
      ws := [];
      assert s == [] + s;
    } else {
      var w := ReadIsOption(s);
      var r := ReadOption(s);
      var number := (r.delta + prev) % 65536;
      SumWraps(prev, w.delta);
      var more := ReadIsOptions(r.rest, number, Insert(acc, Opt(number, r.value)));
      ws := [w] + more;
      MoreWritten(w, more, prev, number);
      InsertAllStep(acc, Opt(number, r.value), OptionsOf(more, number));
      Assoc(OctetsOf(w), AllOctets(more), ReadOptions(s, prev, acc).rest);
    }
  }

  lemma MoreWritten(w: Written, more: seq<Written>, prev: nat, number: nat)
    requires IsOption(w) && AreOptions(more) && number == (prev + w.delta) % 65536
    ensures var ws := [w] + more;
            && AreOptions(ws) && AllOctets(ws) == OctetsOf(w) + AllOctets(more)
            && OptionsOf(ws, prev) == [Opt(number, w.value)] + OptionsOf(more, number)
  {
    assert ([w] + more)[1..] == more;
    hide IsOption, OctetsOf;
  }

  // ---------------------------------------------------------------- the message

  /** A message as it is written: tail is empty, or the octet 0xFF and the payload. */
  datatype Layout = Layout(msgType: nat, codeClass: nat, codeDetail: nat, hi: byte, lo: byte, token: seq<byte>,
                           options: seq<Written>, tail: seq<byte>)

  predicate IsMessage(l: Layout) {
    && l.msgType < 4 && l.codeClass < 8 && l.codeDetail < 32 && |l.token| <= 8 && AreOptions(l.options)
    && (l.tail == [] || l.tail[0] == 0xFF)
  }

  /** Version 1 is in the first two bits. */
  function MessageOctets(l: Layout): seq<byte>
    requires IsMessage(l)
  {
    [0x40 + 16 * l.msgType + |l.token|, 32 * l.codeClass + l.codeDetail, l.hi, l.lo] + l.token
      + AllOctets(l.options) + l.tail
  }

  function MessageOf(l: Layout): Msg
    requires IsMessage(l)
  {
    Msg(l.msgType, l.codeClass, l.codeDetail, l.hi as nat * 256 + l.lo, l.token,
      InsertAll([], OptionsOf(l.options, 0)), if l.tail == [] then [] else l.tail[1..])
  }

  lemma Octets4(a: byte, b: byte, c: byte, d: byte, token: seq<byte>, more: seq<byte>)
    ensures var io := [a, b, c, d] + token + more;
            && io[0] == a && io[1] == b && io[2..4] == [c, d]
            && io[4..4 + |token|] == token && io[4 + |token|..] == more
  {
  }

  lemma HeaderBits(l: Layout)
    requires IsMessage(l)
    ensures var a, b := 0x40 + 16 * l.msgType + |l.token|, 32 * l.codeClass + l.codeDetail;
            && a / 64 == 1 && a % 16 == |l.token| && a / 16 % 4 == l.msgType
            && b < 256 && b / 32 == l.codeClass && b % 32 == l.codeDetail
  {
  }

  /** A written message is parsed, and the flags say what it has. */
  lemma MessageIsRead(l: Layout)
    requires IsMessage(l)
    ensures var p, m := Parse(MessageOctets(l)), MessageOf(l);
            && p.Parsed? && p.m == m
            && (TokenField in p.found <==> m.token != []) && (PayloadField in p.found <==> m.payload != [])
            && {TypeField, ClassField, DetailField, IdField} <= p.found
            && (OptionsField in p.found <==> l.options != [] || l.tail != [])
  {
    hide AllOctets, OptionsOf, InsertAll, ReadOptions, AreOptions;
    var a, b := 0x40 + 16 * l.msgType + |l.token|, 32 * l.codeClass + l.codeDetail;
    var more := AllOctets(l.options) + l.tail;
    HeaderBits(l);
    Octets4(a, b, l.hi, l.lo, l.token, more);
    Assoc([a, b, l.hi, l.lo] + l.token, AllOctets(l.options), l.tail);
    FromTwo([l.hi, l.lo]);
    hide FromBigEndian;
    OptionsAreRead(l.options, 0, [], l.tail);
    NoOctets(l.options);
  }

  lemma NoOctets(ws: seq<Written>)
    requires AreOptions(ws)
    ensures AllOctets(ws) == [] <==> ws == []
  {
    if ws != [] {
      assert IsOption(ws[0]);
    }
  }

  /** What is parsed is written as a message. */
  lemma ReadIsMessage(io: seq<byte>) returns (l: Layout)
    requires Parse(io).Parsed?
    ensures IsMessage(l) && io == MessageOctets(l) && Parse(io).m == MessageOf(l)
  {
    hide AllOctets, OptionsOf, InsertAll, ReadOptions, AreOptions;
    var start := 4 + io[0] % 16;
    var ws := ReadIsOptions(io[start..], 0, []);
    var rest := ReadOptions(io[start..], 0, []).rest;
    l := Layout(io[0] / 16 % 4, io[1] / 32, io[1] % 32, io[2], io[3], io[4..start], ws, rest);
    FromTwo(io[2..4]);
    hide FromBigEndian;
    FirstTwo(io[0], io[1]);
    PartsOf(io, start, AllOctets(ws), rest);
  }

  lemma FirstTwo(a: byte, b: byte)
    requires a / 64 == 1 && a % 16 <= 8
    ensures a == 0x40 + 16 * (a / 16 % 4) + a % 16 && b == 32 * (b / 32) + b % 32 && b / 32 < 8
  {
  }

  lemma PartsOf(io: seq<byte>, start: nat, options: seq<byte>, tail: seq<byte>)
    requires 4 <= start <= |io| && io[start..] == options + tail
    ensures io == [io[0], io[1], io[2], io[3]] + io[4..start] + options + tail
  {
    assert io == [io[0], io[1], io[2], io[3]] + io[4..start] + io[start..];
  }

  /** Four octets, version 1, at most eight octets of token, and these octets are there. */
  lemma FixedFaultIs(io: seq<byte>)
    ensures |io| < 4 ==> Parse(io) == Failed(NotEnoughData)
    ensures |io| >= 4 && !(64 <= io[0] < 128) ==> Parse(io) == Failed(Ignored)
    ensures |io| >= 4 && 64 <= io[0] < 128 && io[0] % 16 > 8 ==> Parse(io) == Failed(FormatError)
    ensures |io| >= 4 && 64 <= io[0] < 128 && io[0] % 16 <= 8 && |io| < 4 + io[0] % 16
            ==> Parse(io) == Failed(NotEnoughData)
  {
    hide ReadOptions;
  }

  // ---------------------------------------------------------------- what is composed

  /** The number of the option before option i, prev before the first. */
  function Before(os: seq<Opt>, prev: nat, i: nat): nat
    requires i < |os|
  {
    if i == 0 then prev else os[i - 1].number
  }

  predicate FitsAt(os: seq<Opt>, prev: nat, i: nat)
    requires i < |os|
  {
    Before(os, prev, i) <= os[i].number <= Before(os, prev, i) + 65804 && |os[i].value| <= 65804
  }

  /** A message is composed exactly if its fields fit and its options are in order, none too far or too long. */
  lemma ComposableExactly(m: Msg)
    ensures Composable(m)
            <==> m.msgType <= 3 && |m.token| <= 8 && m.codeClass <= 7 && m.codeDetail <= 31 && m.msgId < 65536
                 && forall i :: 0 <= i < |m.options| ==> FitsAt(m.options, 0, i)
  {
    OptionsFitExactly(m.options, 0);
    hide OptionsFit;
  }

  lemma {:induction false} OptionsFitExactly(os: seq<Opt>, prev: nat)
    ensures OptionsFit(os, prev) <==> forall i :: 0 <= i < |os| ==> FitsAt(os, prev, i)
    decreases |os|
  {
    if os != [] {
      var more := os[1..];
      OptionsFitExactly(more, os[0].number);
      forall i | 0 <= i < |more| ensures FitsAt(more, os[0].number, i) == FitsAt(os, prev, i + 1) {
      }
      forall i | 1 <= i < |os| ensures FitsAt(more, os[0].number, i - 1) == FitsAt(os, prev, i) {
      }
      assert OptionsFit(os, prev) <==> FitsAt(os, prev, 0) && OptionsFit(more, os[0].number);
    }
  }

  /** The first reason, in this order, not to compose a message. */
  lemma RefusedFor(m: Msg)
    ensures m.msgType > 3 ==> CheckMsg(m) == Some(BadType)
    ensures m.msgType <= 3 && |m.token| > 8 ==> CheckMsg(m) == Some(BadToken)
    ensures m.msgType <= 3 && |m.token| <= 8 && m.codeClass > 7 ==> CheckMsg(m) == Some(BadClass)
    ensures m.msgType <= 3 && |m.token| <= 8 && m.codeClass <= 7 && m.codeDetail > 31 ==> CheckMsg(m) == Some(BadDetail)
    ensures m.msgType <= 3 && |m.token| <= 8 && m.codeClass <= 7 && m.codeDetail <= 31
            ==> CheckMsg(m) == None || CheckMsg(m) == Some(BadOptions)
  {
    hide OptionsFit;
  }

  /** How the composer writes an option. */
  function WrittenAs(prev: nat, o: Opt): Written
    requires prev <= o.number <= prev + 65804 && |o.value| <= 65804
  {
    var d, l := o.number - prev, |o.value|;
    Written(d, Nibble(d), Extension(d), l, Nibble(l), Extension(l), o.value)
  }

  lemma CodedAs(v: nat)
    requires v <= 65804
    ensures Coded(v, Nibble(v), Extension(v))
  {
    if v > 268 {
      PowersOf256();
      BigEndianRoundTrip(v - 269, 2);
    }
    hide BigEndian, FromBigEndian;
  }

  /** A composed option is a written one, unless its value is longer than the parser can know. */
  lemma OptionIsComposed(prev: nat, o: Opt)
    requires prev <= o.number <= prev + 65804 && |o.value| < 65536
    ensures var w := WrittenAs(prev, o);
            IsOption(w) && OctetsOf(w) == OptionBytes(prev, o) && w.value == o.value
            && prev + w.delta == o.number
  {
    CodedAs(o.number - prev);
    CodedAs(|o.value|);
    hide Coded, Nibble, Extension;
  }

  lemma {:induction false} OptionsAreComposed(prev: nat, os: seq<Opt>) returns (ws: seq<Written>)
    requires OptionsFit(os, prev) && Narrow(os)
    ensures AreOptions(ws) && AllOctets(ws) == OptionsBytes(prev, os) && OptionsOf(ws, prev) == os
    decreases |os|
  {
    hide IsOption, OctetsOf, OptionBytes;
    if os == [] {
      ws := [];
    } else {
      OptionIsComposed(prev, os[0]);
      var more := OptionsAreComposed(os[0].number, os[1..]);
      var w := WrittenAs(prev, os[0]);
      ws := [w] + more;
      assert os[0].number % 65536 == os[0].number;
      MoreWritten(w, more, prev, os[0].number);
      assert os == [os[0]] + os[1..];
    }
  }

  /** Every message whose options have 16-bit numbers and lengths is composed as the standard writes it. */
  lemma MessageIsComposed(m: Msg) returns (l: Layout)
    requires Composable(m) && Narrow(m.options)
    ensures IsMessage(l) && Encode(m) == MessageOctets(l)
    ensures l.msgType == m.msgType && l.codeClass == m.codeClass && l.codeDetail == m.codeDetail && l.token == m.token
    ensures l.hi as nat * 256 + l.lo == m.msgId && OptionsOf(l.options, 0) == m.options
    ensures l.tail == if m.payload == [] then [] else [0xFF] + m.payload
  {
    var ws := OptionsAreComposed(0, m.options);
    hide AllOctets, OptionsOf, OptionsBytes, AreOptions, OptionsFit, Narrow;
    l := Layout(m.msgType, m.codeClass, m.codeDetail, m.msgId / 256, m.msgId % 256, m.token, ws,
      PayloadBytes(m.payload));
    assert HeaderBytes(m)
        == [0x40 + 16 * l.msgType + |l.token|, 32 * l.codeClass + l.codeDetail, l.hi, l.lo] by { HeaderIs(m); }
    hide HeaderBytes;
  }

  lemma HeaderIs(m: Msg)
    requires Composable(m)
    ensures HeaderBytes(m)
            == [0x40 + 16 * m.msgType + |m.token|, 32 * m.codeClass + m.codeDetail, m.msgId / 256, m.msgId % 256]
  {
    assert Put16(m.msgId) == BigEndian(m.msgId, 2);
    hide BigEndian;
  }

  /** The request and the response of figure 16: GET /temperature, and 2.05 with the text 22.3 C. */
  lemma FigureExample()
    ensures var temperature: seq<byte> := [116, 101, 109, 112, 101, 114, 97, 116, 117, 114, 101];
            var request := Msg(0, 0, 1, 0x7D34, [], [Opt(11, temperature)], []);
            && Composable(request) && Encode(request) == [0x40, 0x01, 0x7D, 0x34] + ([0xBB] + temperature)
    ensures var response := Msg(2, 2, 5, 0x7D34, [], [], [50, 50, 46, 51, 32, 67]);
            && Composable(response) && Encode(response) == [0x60, 0x45, 0x7D, 0x34] + [0xFF, 50, 50, 46, 51, 32, 67]
  {
    var temperature: seq<byte> := [116, 101, 109, 112, 101, 114, 97, 116, 117, 114, 101];
    assert |temperature| == 11;
    ShortRequest(temperature);
    ShortResponse([50, 50, 46, 51, 32, 67]);
    hide *;
    assert [0xFF] + [50, 50, 46, 51, 32, 67] == [0xFF, 50, 50, 46, 51, 32, 67];
  }

  lemma ShortRequest(path: seq<byte>)
    requires |path| == 11
    ensures var m := Msg(0, 0, 1, 0x7D34, [], [Opt(11, path)], []);
            Composable(m) && Encode(m) == [0x40, 0x01, 0x7D, 0x34] + ([0xBB] + path)
  {
    var os := [Opt(11, path)];
    var m := Msg(0, 0, 1, 0x7D34, [], os, []);
    assert os[1..] == [] && OptionsFit(os, 0);
    HeaderIs(m);
    hide HeaderBytes;
    assert OptionBytes(0, os[0]) == [0xBB] + path;
    assert OptionsBytes(0, os) == [0xBB] + path;
  }

  lemma ShortResponse(payload: seq<byte>)
    requires payload != []
    ensures var m := Msg(2, 2, 5, 0x7D34, [], [], payload);
            Composable(m) && Encode(m) == [0x60, 0x45, 0x7D, 0x34] + ([0xFF] + payload)
  {
    var m := Msg(2, 2, 5, 0x7D34, [], [], payload);
    HeaderIs(m);
    hide HeaderBytes;
  }
}
