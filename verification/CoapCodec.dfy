/**
 * CoAP messages and their octets (sections 3 and 3.1 of RFC 7252), with the integer
 * widths of mongoose.c: the parser keeps option deltas, numbers and lengths in 16 bits.
 */
module CoapCodec {
  import opened Bytes

  const MARKER: byte := 0xFF
  const UINT16 := 0x1_0000
  /** The largest delta or length the extended forms can carry. */
  const MAX_EXTENDED := 0xFFFF + 269

  datatype Opt = Opt(number: nat, value: seq<byte>)

  datatype Msg = Msg(
    msgType: byte, codeClass: byte, codeDetail: byte, msgId: nat,
    token: seq<byte>, options: seq<Opt>, payload: seq<byte>)

  // ---------------------------------------------------------------- option order

  ghost predicate Sorted(os: seq<Opt>) {
    forall i, j :: 0 <= i < j < |os| ==> os[i].number <= os[j].number
  }

  /** Where a new option goes: in front of the first larger number. */
  function Place(os: seq<Opt>, n: nat): (k: nat)
    ensures k <= |os|
    ensures forall i :: 0 <= i < k ==> os[i].number <= n
    ensures k < |os| ==> os[k].number > n
  {
    if os == [] || os[0].number > n then 0 else 1 + Place(os[1..], n)
  }

  lemma {:induction false} PlaceIs(os: seq<Opt>, n: nat, k: nat)
    requires k <= |os| && forall i :: 0 <= i < k ==> os[i].number <= n
    requires k < |os| ==> os[k].number > n
    ensures Place(os, n) == k
  {
    if k > 0 {
      PlaceIs(os[1..], n, k - 1);
    }
  }

  function Insert(os: seq<Opt>, o: Opt): seq<Opt> {
    var k := Place(os, o.number);
    os[..k] + [o] + os[k..]
  }

  function InsertAll(os: seq<Opt>, more: seq<Opt>): seq<Opt>
    decreases |more|
  {
    if more == [] then os else InsertAll(Insert(os, more[0]), more[1..])
  }

  /** The values given for one number, in order. */
  function ValuesOf(os: seq<Opt>, n: nat): seq<seq<byte>> {
    if os == [] then []
    else (if os[0].number == n then [os[0].value] else []) + ValuesOf(os[1..], n)
  }

  lemma {:induction false} ValuesOfConcat(a: seq<Opt>, b: seq<Opt>, n: nat)
    ensures ValuesOf(a + b, n) == ValuesOf(a, n) + ValuesOf(b, n)
  {
    if a == [] {
      assert a + b == b;
    } else {
      assert (a + b)[1..] == a[1..] + b && (a + b)[0] == a[0];
      ValuesOfConcat(a[1..], b, n);
      ValuesStep(a, n);
      ValuesStep(a + b, n);
      hide ValuesOf;
    }
  }

  lemma ValuesStep(os: seq<Opt>, n: nat)
    requires os != []
    ensures ValuesOf(os, n) == (if os[0].number == n then [os[0].value] else []) + ValuesOf(os[1..], n)
  {
  }

  lemma {:induction false} ValuesOfLarger(os: seq<Opt>, n: nat)
    requires forall i :: 0 <= i < |os| ==> os[i].number > n
    ensures ValuesOf(os, n) == []
  {
    if os != [] {
      ValuesOfLarger(os[1..], n);
    }
  }

  /** Inserting keeps the order. */
  lemma InsertSorted(os: seq<Opt>, o: Opt)
    requires Sorted(os)
    ensures Sorted(Insert(os, o))
  {
    var k := Place(os, o.number);
    forall i | k <= i < |os| ensures os[i].number > o.number {
      assert os[k].number <= os[i].number;
    }
  }

  lemma ValuesOfSingle(o: Opt, n: nat)
    ensures ValuesOf([o], n) == if o.number == n then [o.value] else []
  {
    assert [o][1..] == [];
  }

  /** Inserting puts the new value after the others of its number, and touches no other number. */
  lemma InsertStable(os: seq<Opt>, o: Opt, n: nat)
    requires Sorted(os)
    ensures ValuesOf(Insert(os, o), n) == ValuesOf(os, n) + ValuesOf([o], n)
  {
    hide ValuesOf, Place;
    var k := Place(os, o.number);
    var a, b := os[..k], os[k..];
    assert os == a + b;
    ValuesAround(a, o, b, n);
    ValuesOfSingle(o, n);
    LargerBehind(os, o);
    if o.number == n {
      ValuesOfLarger(b, n);
    }
    LastMoves(ValuesOf(a, n), ValuesOf([o], n), ValuesOf(b, n));
  }

  lemma ValuesAround(a: seq<Opt>, o: Opt, b: seq<Opt>, n: nat)
    ensures ValuesOf(a + b, n) == ValuesOf(a, n) + ValuesOf(b, n)
    ensures ValuesOf(a + [o] + b, n) == ValuesOf(a, n) + ValuesOf([o], n) + ValuesOf(b, n)
  {
    ValuesOfConcat(a, b, n);
    ValuesOfConcat(a + [o], b, n);
    ValuesOfConcat(a, [o], n);
    hide ValuesOf;
  }

  lemma LargerBehind(os: seq<Opt>, o: Opt)
    requires Sorted(os)
    ensures forall i :: 0 <= i < |os[Place(os, o.number)..]| ==> os[Place(os, o.number)..][i].number > o.number
  {
    var k := Place(os, o.number);
    assert forall i :: k <= i < |os| ==> os[i].number >= os[k].number;
  }

  lemma LastMoves(a: seq<seq<byte>>, x: seq<seq<byte>>, b: seq<seq<byte>>)
    requires x == [] || b == []
    ensures (a + x) + b == (a + b) + x
  {
  }

  /** Any options added in any order end up sorted, each number's values as they were given. */
  lemma {:induction false} InsertAllIsStableSort(os: seq<Opt>, more: seq<Opt>, n: nat)
    requires Sorted(os)
    ensures Sorted(InsertAll(os, more))
    ensures ValuesOf(InsertAll(os, more), n) == ValuesOf(os, n) + ValuesOf(more, n)
    decreases |more|
  {
    if more != [] {
      InsertSorted(os, more[0]);
      InsertStable(os, more[0], n);
      InsertAllIsStableSort(Insert(os, more[0]), more[1..], n);
      ValuesOfConcat([more[0]], more[1..], n);
      assert [more[0]] + more[1..] == more;
    }
  }

  lemma {:induction false} ValuesOfPresent(os: seq<Opt>, i: nat)
    requires i < |os|
    ensures ValuesOf(os, os[i].number) != []
  {
    if i > 0 {
      ValuesOfPresent(os[1..], i - 1);
    }
  }

  /** Order and the values of each number leave no freedom: there is one stable sort. */
  lemma {:induction false} StableSortUnique(a: seq<Opt>, b: seq<Opt>)
    requires Sorted(a) && Sorted(b) && forall n: nat :: ValuesOf(a, n) == ValuesOf(b, n)
    ensures a == b
  {
    if a == [] || b == [] {
      if a != [] { ValuesOfPresent(a, 0); }
      if b != [] { ValuesOfPresent(b, 0); }
    } else {
      SameHead(a, b);
      forall n: nat ensures ValuesOf(a[1..], n) == ValuesOf(b[1..], n) {
        var own := if a[0].number == n then [a[0].value] else [];
        assert ValuesOf(a, n) == ValuesOf(b, n);
        assert own + ValuesOf(a[1..], n) == own + ValuesOf(b[1..], n);
        assert ValuesOf(a[1..], n) == (own + ValuesOf(a[1..], n))[|own|..];
        assert ValuesOf(b[1..], n) == (own + ValuesOf(b[1..], n))[|own|..];
      }
      StableSortUnique(a[1..], b[1..]);
    }
  }

  lemma SameHead(a: seq<Opt>, b: seq<Opt>)
    requires a != [] && b != []
    requires Sorted(a) && Sorted(b) && forall n: nat :: ValuesOf(a, n) == ValuesOf(b, n)
    ensures a[0] == b[0]
  {
    if a[0].number < b[0].number {
      ValuesOfPresent(a, 0);
      ValuesOfLarger(b, a[0].number);
    } else if b[0].number < a[0].number {
      ValuesOfPresent(b, 0);
      ValuesOfLarger(a, b[0].number);
    } else {
      var n := a[0].number;
      assert ValuesOf(a, n)[0] == a[0].value && ValuesOf(b, n)[0] == b[0].value;
    }
  }

  // ---------------------------------------------------------------- composing

  /** The errors of coap_calculate_packet_size, in the order in which they are looked for. */
  datatype ComposeError = BadType | BadToken | BadClass | BadDetail | BadOptions

  predicate OptionsFit(os: seq<Opt>, prev: nat) {
    os == [] ||
    (prev <= os[0].number <= prev + MAX_EXTENDED && |os[0].value| <= MAX_EXTENDED
     && OptionsFit(os[1..], os[0].number))
  }

  function CheckMsg(m: Msg): Option<ComposeError> {
    if m.msgType > 3 then Some(BadType)
    else if |m.token| > 8 then Some(BadToken)
    else if m.codeClass > 7 then Some(BadClass)
    else if m.codeDetail > 31 then Some(BadDetail)
    else if !OptionsFit(m.options, 0) then Some(BadOptions)
    else None
  }

  predicate Composable(m: Msg) { CheckMsg(m).None? && m.msgId < UINT16 }

  /** The nibble for a delta or length. */
  function Nibble(v: nat): (b: byte)
    ensures b <= 14
  {
    if v < 13 then v else if v <= 0xFF + 13 then 13 else 14
  }

  /** The octets that complete the nibble. */
  function Extension(v: nat): seq<byte>
    requires v <= MAX_EXTENDED
  {
    if v < 13 then [] else if v <= 0xFF + 13 then [v - 13] else BigEndian(v - 269, 2)
  }

  function OptionBytes(prev: nat, o: Opt): (s: seq<byte>)
    requires prev <= o.number <= prev + MAX_EXTENDED && |o.value| <= MAX_EXTENDED
    ensures s != [] && s[0] != MARKER
  {
    [16 * Nibble(o.number - prev) + Nibble(|o.value|)]
      + Extension(o.number - prev) + Extension(|o.value|) + o.value
  }

  function OptionsBytes(prev: nat, os: seq<Opt>): seq<byte>
    requires OptionsFit(os, prev)
    decreases |os|
  {
    if os == [] then [] else OptionBytes(prev, os[0]) + OptionsBytes(os[0].number, os[1..])
  }

  function HeaderBytes(m: Msg): (s: seq<byte>)
    requires Composable(m)
    ensures |s| == 4
  {
    [64 + 16 * m.msgType + |m.token|, 32 * m.codeClass + m.codeDetail] + BigEndian(m.msgId, 2)
  }

  function PayloadBytes(payload: seq<byte>): seq<byte> {
    if payload == [] then [] else [MARKER] + payload
  }

  function Encode(m: Msg): seq<byte>
    requires Composable(m)
  {
    HeaderBytes(m) + m.token + OptionsBytes(0, m.options) + PayloadBytes(m.payload)
  }

  // ---------------------------------------------------------------- parsing

  datatype Fault = NotEnoughData | Ignored | FormatError

  /** The fields that the returned flags say were found. */
  datatype Field = TypeField | ClassField | DetailField | IdField | TokenField | OptionsField | PayloadField

  datatype Parsed = Failed(fault: Fault) | Parsed(m: Msg, found: set<Field>)

  /** coap_get_ext_opt: the delta or length, and how many octets it took. */
  function ReadExtension(nibble: byte, s: seq<byte>): (r: Option<(nat, nat)>)
    ensures r.Some? ==> r.value.0 < UINT16 && r.value.1 <= |s|
  {
    if nibble == 13 then
      if |s| >= 1 then Some((s[0] as int + 13, 1)) else None
    else if nibble == 14 then
      if |s| >= 2 then Some(((256 * s[0] + s[1] + 269) % UINT16, 2)) else None
    else Some((nibble, 0))
  }

  datatype OptionStep = Bad(fault: Fault) | Good(delta: nat, value: seq<byte>, rest: seq<byte>)

  /** n octets of value at the front of body. */
  function TakeValue(delta: nat, n: nat, body: seq<byte>): (r: OptionStep)
    ensures r.Good? ==> r.delta == delta && |r.value| == n && |r.rest| <= |body|
  {
    if |body| < n then Bad(NotEnoughData) else Good(delta, body[..n], body[n..])
  }

  /** The length and the value behind the delta. */
  function ReadLength(delta: nat, nibble: byte, s: seq<byte>): (r: OptionStep)
    ensures r.Good? ==> r.delta == delta && |r.value| < UINT16 && |r.rest| <= |s|
  {
    match ReadExtension(nibble, s)
    case None => Bad(NotEnoughData)
    case Some((n, k)) => TakeValue(delta, n, s[k..])
  }

  /** One option at the front of s, which does not start with the payload marker. */
  function ReadOption(s: seq<byte>): (r: OptionStep)
    requires s != []
    ensures r.Good? ==> r.delta < UINT16 && |r.value| < UINT16 && |r.rest| < |s|
  {
    if s[0] / 16 == 15 || s[0] % 16 == 15 then Bad(FormatError)
    else
      match ReadExtension(s[0] / 16, s[1..])
      case None => Bad(NotEnoughData)
      case Some((delta, k)) => ReadLength(delta, s[0] % 16, s[1 + k..])
  }

  datatype OptionsResult = BadOptionList(fault: Fault) | OptionList(options: seq<Opt>, rest: seq<byte>)

  /** coap_get_options: numbers are sums of deltas, in 16 bits. */
  function ReadOptions(s: seq<byte>, prev: nat, acc: seq<Opt>): OptionsResult
    decreases |s|
  {
    if s == [] || s[0] == MARKER then OptionList(acc, s)
    else match ReadOption(s)
      case Bad(fault) => BadOptionList(fault)
      case Good(delta, value, rest) =>
        var number := (delta + prev) % UINT16;
        ReadOptions(rest, number, Insert(acc, Opt(number, value)))
  }

  /** What is wrong with the fixed header or the length of the token. */
  function FixedFault(io: seq<byte>): Option<Fault> {
    if |io| < 4 then Some(NotEnoughData)
    else if io[0] / 64 != 1 then Some(Ignored)
    else if io[0] % 16 > 8 then Some(FormatError)
    else if |io| < 4 + io[0] % 16 then Some(NotEnoughData)
    else None
  }

  function Parse(io: seq<byte>): Parsed {
    if FixedFault(io).Some? then Failed(FixedFault(io).value) else ParseFrom(io, 4 + io[0] % 16)
  }

  /** The message whose options start at octet start. */
  function ParseFrom(io: seq<byte>, start: nat): Parsed
    requires 4 <= start <= |io|
  {
    match ReadOptions(io[start..], 0, [])
    case BadOptionList(fault) => Failed(fault)
    case OptionList(options, rest) =>
      var m := Msg(io[0] / 16 % 4, io[1] / 32, io[1] % 32, FromBigEndian(io[2..4]),
                   io[4..start], options, if rest == [] then [] else rest[1..]);
      Parsed(m, Found(m, io[start..] != []))
  }

  function Found(m: Msg, optionsRead: bool): set<Field> {
    {TypeField, ClassField, DetailField, IdField}
      + (if m.token != [] then {TokenField} else {})
      + (if optionsRead then {OptionsField} else {})
      + (if m.payload != [] then {PayloadField} else {})
  }

  // ---------------------------------------------------------------- round trip

  lemma ExtensionReadsBack(v: nat, rest: seq<byte>)
    requires v < UINT16
    ensures ReadExtension(Nibble(v), Extension(v) + rest) == Some((v, |Extension(v)|))
  {
    if v > 0xFF + 13 {
      PowersOf256();
      var e := Extension(v);
      BigEndianRoundTrip(v - 269, 2);
      assert e[..1] == [e[0]] && FromBigEndian(e[..1]) == 256 * FromBigEndian(e[..1][..0]) + e[0];
    }
  }

  lemma OptionReadsBack(prev: nat, o: Opt, rest: seq<byte>)
    requires prev <= o.number < UINT16 && |o.value| < UINT16
    ensures ReadOption(OptionBytes(prev, o) + rest) == Good(o.number - prev, o.value, rest)
  {
    hide ReadExtension, Extension, Nibble;
    var d, l := o.number - prev, |o.value|;
    var body := o.value + rest;
    var tail := Extension(l) + body;
    var s := OptionBytes(prev, o) + rest;
    OptionShape(prev, o, rest);
    ExtensionReadsBack(d, tail);
    ExtensionReadsBack(l, body);
    assert tail[|Extension(l)|..] == body && body[..l] == o.value && body[l..] == rest;
  }

  /** The octets of an option in the order in which they are read. */
  lemma OptionShape(prev: nat, o: Opt, rest: seq<byte>)
    requires prev <= o.number <= prev + MAX_EXTENDED && |o.value| <= MAX_EXTENDED
    ensures var s, d, l := OptionBytes(prev, o) + rest, o.number - prev, |o.value|;
            var tail := Extension(l) + (o.value + rest);
            && s[0] / 16 == Nibble(d) && s[0] % 16 == Nibble(l)
            && s[1..] == Extension(d) + tail && s[1 + |Extension(d)|..] == tail
  {
    var s, d, l := OptionBytes(prev, o) + rest, o.number - prev, |o.value|;
    var tail := Extension(l) + (o.value + rest);
    hide Extension, Nibble;
    RegroupOption([16 * Nibble(d) + Nibble(l)], Extension(d), Extension(l), o.value, rest);
  }

  lemma RegroupOption(a: seq<byte>, b: seq<byte>, c: seq<byte>, d: seq<byte>, e: seq<byte>)
    requires |a| == 1
    ensures var s, tail := a + b + c + d + e, c + (d + e);
            s[0] == a[0] && s[1..] == b + tail && s[1 + |b|..] == tail
  {
  }

  predicate Narrow(os: seq<Opt>) {
    forall i :: 0 <= i < |os| ==> os[i].number < UINT16 && |os[i].value| < UINT16
  }

  lemma InsertAtEnd(acc: seq<Opt>, o: Opt)
    requires forall i :: 0 <= i < |acc| ==> acc[i].number <= o.number
    ensures Insert(acc, o) == acc + [o]
  {
    assert Place(acc, o.number) == |acc|;
  }

  /** One composed option in front of anything is read and appended. */
  lemma OptionsStep(prev: nat, o: Opt, acc: seq<Opt>, more: seq<byte>)
    requires prev <= o.number < UINT16 && |o.value| < UINT16
    requires forall i :: 0 <= i < |acc| ==> acc[i].number <= prev
    ensures ReadOptions(OptionBytes(prev, o) + more, prev, acc) == ReadOptions(more, o.number, acc + [o])
  {
    hide OptionBytes, ReadOption, Insert;
    OptionReadsBack(prev, o, more);
    InsertAtEnd(acc, o);
    var s := OptionBytes(prev, o) + more;
    assert s[0] == OptionBytes(prev, o)[0];
    assert (o.number - prev + prev) % UINT16 == o.number;
  }

  lemma OptionsBytesStep(prev: nat, os: seq<Opt>, acc: seq<Opt>, tail: seq<byte>)
    requires os != [] && OptionsFit(os, prev) && Narrow(os)
    requires forall i :: 0 <= i < |acc| ==> acc[i].number <= prev
    ensures ReadOptions(OptionsBytes(prev, os) + tail, prev, acc)
         == ReadOptions(OptionsBytes(os[0].number, os[1..]) + tail, os[0].number, acc + [os[0]])
  {
    hide ReadOptions, OptionBytes;
    var more := OptionsBytes(os[0].number, os[1..]);
    OptionsStep(prev, os[0], acc, more + tail);
    assert OptionsBytes(prev, os) + tail == OptionBytes(prev, os[0]) + (more + tail);
  }

  lemma ReadOptionsStops(prev: nat, acc: seq<Opt>, tail: seq<byte>)
    requires tail == [] || tail[0] == MARKER
    ensures ReadOptions(tail, prev, acc) == OptionList(acc, tail)
  {
  }

  lemma {:induction false} OptionsReadBack(prev: nat, os: seq<Opt>, acc: seq<Opt>, tail: seq<byte>)
    requires OptionsFit(os, prev) && Narrow(os) && prev < UINT16
    requires tail == [] || tail[0] == MARKER
    requires forall i :: 0 <= i < |acc| ==> acc[i].number <= prev
    ensures ReadOptions(OptionsBytes(prev, os) + tail, prev, acc) == OptionList(acc + os, tail)
    decreases |os|
  {
    hide ReadOptions, OptionBytes;
    if os == [] {
      ReadOptionsStops(prev, acc, tail);
      assert OptionsBytes(prev, os) + tail == tail && acc + os == acc;
    } else {
      OptionsBytesStep(prev, os, acc, tail);
      OptionsReadBack(os[0].number, os[1..], acc + [os[0]], tail);
      assert acc + [os[0]] + os[1..] == acc + os;
    }
  }

  lemma {:induction false} ReadOptionsNarrow(s: seq<byte>, prev: nat, acc: seq<Opt>)
    requires Narrow(acc)
    ensures ReadOptions(s, prev, acc).OptionList? ==> Narrow(ReadOptions(s, prev, acc).options)
    decreases |s|
  {
    hide ReadOptions, ReadOption, Insert, Narrow;
    ReadOptionsStep(s, prev, acc);
    if s != [] && s[0] != MARKER && ReadOption(s).Good? {
      var r := ReadOption(s);
      var number := (r.delta + prev) % UINT16;
      InsertNarrow(acc, Opt(number, r.value));
      ReadOptionsNarrow(r.rest, number, Insert(acc, Opt(number, r.value)));
    }
  }

  lemma ReadOptionsStep(s: seq<byte>, prev: nat, acc: seq<Opt>)
    ensures ReadOptions(s, prev, acc)
            == if s == [] || s[0] == MARKER then OptionList(acc, s)
               else if ReadOption(s).Bad? then BadOptionList(ReadOption(s).fault)
               else var r := ReadOption(s);
                    var number := (r.delta + prev) % UINT16;
                    ReadOptions(r.rest, number, Insert(acc, Opt(number, r.value)))
  {
    hide ReadOption, Insert;
  }

  lemma InsertNarrow(os: seq<Opt>, o: Opt)
    requires Narrow(os) && o.number < UINT16 && |o.value| < UINT16
    ensures Narrow(Insert(os, o))
  {
    hide Place;
  }

  lemma HeaderReadsBack(m: Msg, rest: seq<byte>)
    requires Composable(m)
    ensures var io := HeaderBytes(m) + rest;
            && io[0] / 64 == 1 && io[0] % 16 == |m.token| && io[0] / 16 % 4 == m.msgType
            && io[1] / 32 == m.codeClass && io[1] % 32 == m.codeDetail
            && FromBigEndian(io[2..4]) == m.msgId
  {
    var io := HeaderBytes(m) + rest;
    PowersOf256();
    assert io[2..4] == BigEndian(m.msgId, 2);
    BigEndianRoundTrip(m.msgId, 2);
    assert io[0] == 64 + 16 * m.msgType + |m.token|;
  }

  /** Every message composed with 16-bit option numbers and lengths parses back to itself. */
  lemma ParseEncode(m: Msg)
    requires Composable(m) && Narrow(m.options)
    ensures Parse(Encode(m)) ==
            Parsed(m, Found(m, m.options != [] || m.payload != []))
  {
    hide HeaderBytes, OptionsBytes, ReadOptions, PayloadBytes, Narrow, Found;
    var io, tail := Encode(m), PayloadBytes(m.payload);
    var s := OptionsBytes(0, m.options) + tail;
    EncodeShape(HeaderBytes(m), m.token, OptionsBytes(0, m.options), tail);
    HeaderReadsBack(m, m.token + s);
    PayloadIsBehindMarker(m.payload);
    OptionsReadBack(0, m.options, [], tail);
    assert [] + m.options == m.options;
    OptionsAreThere(m.options, tail);
  }

  lemma EncodeShape(header: seq<byte>, token: seq<byte>, options: seq<byte>, tail: seq<byte>)
    requires |header| == 4
    ensures var io := header + token + options + tail;
            && io == header + (token + (options + tail))
            && io[4..4 + |token|] == token && io[4 + |token|..] == options + tail
  {
  }

  lemma PayloadIsBehindMarker(payload: seq<byte>)
    ensures var tail := PayloadBytes(payload);
            && (tail == [] <==> payload == []) && (tail != [] ==> tail[0] == MARKER && tail[1..] == payload)
  {
  }

  lemma OptionsAreThere(os: seq<Opt>, tail: seq<byte>)
    requires OptionsFit(os, 0)
    ensures OptionsBytes(0, os) + tail != [] <==> os != [] || tail != []
  {
    hide OptionBytes;
  }

  /** The composer accepts messages that do not survive: exactly those with a wider number or length. */
  lemma RoundTripExactly(m: Msg)
    requires Composable(m)
    ensures (exists found :: Parse(Encode(m)) == Parsed(m, found)) <==> Narrow(m.options)
  {
    if Narrow(m.options) {
      ParseEncode(m);
    }
    var io := Encode(m);
    if |io| >= 4 && Parse(io).Parsed? {
      ReadOptionsNarrow(io[4 + io[0] % 16..], 0, []);
    }
  }

  /** One such message: its only option has number 65536. */
  lemma WideNumberIsLost()
    ensures var m := Msg(0, 0, 1, 7, [], [Opt(65536, [])], []);
            Composable(m) && forall found :: Parse(Encode(m)) != Parsed(m, found)
  {
    var m := Msg(0, 0, 1, 7, [], [Opt(65536, [])], []);
    assert OptionsFit(m.options[1..], 65536);
    RoundTripExactly(m);
    assert !Narrow(m.options) by { assert m.options[0].number == 65536; }
  }
}
