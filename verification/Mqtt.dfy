/**
 * MQTT packets in mongoose.c (sections 2.2.3, 3.1, 3.3 and 3.8 of MQTT 3.1.1): parse_mqtt against
 * what mg_mqtt_publish, mg_mqtt_subscribe and mg_send_mqtt_handshake_opt write.
 */
module Mqtt {
  import opened Bytes

  const CONNECT := 1
  const CONNACK := 2
  const PUBLISH := 3
  const SUBSCRIBE := 8

  // ---------------------------------------------------------------- the remaining length

  datatype Length = NeedMore | TooLong | Length(n: nat, used: nat)

  /** The loop that decodes the remaining length; k octets have been taken before s. */
  function ScanLength(s: seq<byte>, k: nat): (l: Length)
    requires k <= 4
    ensures l.Length? ==> 0 < l.used <= |s| && l.used + k <= 5
    decreases 5 - k
  {
    if s == [] then NeedMore
    else if s[0] < 0x80 then Length(s[0], 1)
    else if k + 1 > 4 then TooLong
    else
      match ScanLength(s[1..], k + 1)
      case Length(n, used) => Length(s[0] % 0x80 + 0x80 * n, used + 1)
      case other => other
  }

  /** The loop of mg_mqtt_prepend_header. */
  function LengthOctets(n: nat): (s: seq<byte>)
    ensures |s| > 0
  {
    if n < 0x80 then [n] else [n % 0x80 + 0x80] + LengthOctets(n / 0x80)
  }

  /** What k octets can say. */
  function Pow128(k: nat): (p: nat)
    ensures p > 0
  {
    if k == 0 then 1 else 0x80 * Pow128(k - 1)
  }

  lemma {:induction false} LengthReadsBack(n: nat, more: seq<byte>, k: nat)
    requires k <= 4 && n < Pow128(5 - k)
    ensures ScanLength(LengthOctets(n) + more, k) == Length(n, |LengthOctets(n)|)
    decreases 5 - k
  {
    var s := LengthOctets(n) + more;
    if n < 0x80 {
      assert s[0] == n;
    } else {
      assert Pow128(1) == 0x80;
      assert k < 4;
      assert Pow128(5 - k) == 0x80 * Pow128(4 - k);
      assert n / 0x80 < Pow128(4 - k);
      LengthReadsBack(n / 0x80, more, k + 1);
      assert s[1..] == LengthOctets(n / 0x80) + more;
    }
  }

  lemma {:induction false} LengthExtend(s: seq<byte>, t: seq<byte>, k: nat)
    requires k <= 4 && ScanLength(s, k) != NeedMore
    ensures ScanLength(s + t, k) == ScanLength(s, k)
    decreases 5 - k
  {
    if s[0] >= 0x80 && k < 4 {
      assert (s + t)[1..] == s[1..] + t;
      LengthExtend(s[1..], t, k + 1);
    }
  }

  // ---------------------------------------------------------------- strings

  /** scanto, as far as it stays inside the packet. */
  function TakeString(s: seq<byte>): (r: Option<(seq<byte>, seq<byte>)>)
    ensures r.Some? ==> s == Put16(|r.value.0|) + r.value.0 + r.value.1 && |r.value.0| < 65536
  {
    if |s| < 2 || 2 + U16(s) > |s| then None
    else
      assert s == s[..2] + s[2..2 + U16(s)] + s[2 + U16(s)..];
      Some((s[2..2 + U16(s)], s[2 + U16(s)..]))
  }

  /** htons of the length cut to 16 bits, then the string. */
  function PutString(s: seq<byte>): seq<byte> { Put16(|s|) + s }

  lemma TakePut(s: seq<byte>, more: seq<byte>)
    requires |s| < 65536
    ensures TakeString(PutString(s) + more) == Some((s, more))
  {
    var w := PutString(s) + more;
    assert U16(w) == |s|;
    assert w[2..2 + |s|] == s && w[2 + |s|..] == more;
  }

  // ---------------------------------------------------------------- packets

  datatype Body =
    | ConnectBody(
        protocol: seq<byte>, version: byte, flags: byte, keepAlive: nat, clientId: seq<byte>,
        willTopic: Option<seq<byte>>, willMessage: Option<seq<byte>>,
        userName: Option<seq<byte>>, password: Option<seq<byte>>)
    | ConnackBody(code: byte)
    /** PUBACK, PUBREC, PUBREL, PUBCOMP or SUBACK; the identifier is None if it is read from behind the buffer. */
    | AckBody(id: Option<nat>)
    | PublishBody(topic: seq<byte>, messageId: Option<nat>, payload: seq<byte>)
    /** The topics are left in the payload. */
    | SubscribeBody(subscriptionId: nat, topics: seq<byte>)
    | OtherBody

  /** What a handler is given. */
  datatype Message = Message(cmd: nat, qos: nat, body: Body)

  predicate HasBit(flags: nat, bit: nat)
    requires bit > 0
  {
    flags / bit % 2 == 1
  }

  const WILL := 0x04
  const PASSWORD := 0x40
  const USER_NAME := 0x80

  function Qos(flags: nat): nat { flags / 2 % 4 }

  /** A string that is there only if its flag is set. */
  function TakeIf(s: seq<byte>, there: bool): Option<(Option<seq<byte>>, seq<byte>)> {
    if !there then Some((None, s))
    else match TakeString(s)
         case None => None
         case Some(r) => Some((Some(r.0), r.1))
  }

  function ParseConnect(b: seq<byte>): Option<Body> {
    match TakeString(b)
    case None => None
    case Some((protocol, r)) =>
      if |r| < 5 then None
      else match TakeString(r[4..])
           case None => None
           case Some((client, r1)) => ParseOptions(protocol, r[0], r[1], U16(r[2..]), client, r1)
  }

  function ParseOptions(protocol: seq<byte>, version: byte, flags: byte, keepAlive: nat, client: seq<byte>,
                        r1: seq<byte>): Option<Body> {
    match TakeIf(r1, HasBit(flags, WILL))
    case None => None
    case Some((topic, r2)) =>
      match TakeIf(r2, HasBit(flags, WILL))
      case None => None
      case Some((message, r3)) =>
        match TakeIf(r3, HasBit(flags, USER_NAME))
        case None => None
        case Some((user, r4)) =>
          match TakeIf(r4, HasBit(flags, PASSWORD))
          case None => None
          case Some((pass, r5)) =>
            if r5 != [] then None
            else Some(ConnectBody(protocol, version, flags, keepAlive, client, topic, message, user, pass))
  }

  function ParsePublish(b: seq<byte>, qos: nat): Option<Body> {
    match TakeString(b)
    case None => None
    case Some((topic, r)) =>
      if qos == 0 then Some(PublishBody(topic, None, r))
      else if |r| < 2 then None
      else Some(PublishBody(topic, Some(U16(r)), r[2..]))
  }

  /** The commands whose case reads an identifier without asking whether the packet has one. */
  predicate IsAck(cmd: nat) { cmd in {4, 5, 6, 7, 9} }

  /**
   * The switch of parse_mqtt; None is MALFORMED. The packet's own octets are b, seen is b and all that
   * lies behind it in the buffer.
   */
  function ParseBody(cmd: nat, qos: nat, b: seq<byte>, seen: seq<byte>): Option<Body> {
    if cmd == CONNECT then ParseConnect(b)
    else if cmd == CONNACK then (if |b| < 2 then None else Some(ConnackBody(b[1])))
    else if IsAck(cmd) then Some(AckBody(if |seen| < 2 then None else Some(U16(seen))))
    else if cmd == PUBLISH then ParsePublish(b, qos)
    else if cmd == SUBSCRIBE then (if |b| < 2 then None else Some(SubscribeBody(U16(b), b[2..])))
    else Some(OtherBody)
  }

  datatype Parsed = Incomplete | Malformed | Packet(message: Message, size: nat)

  /** parse_mqtt. */
  function Parse(s: seq<byte>): (p: Parsed)
    ensures p.Packet? ==> 2 <= p.size <= |s|
  {
    if |s| < 2 then Incomplete
    else ParseBy(s, ScanLength(s[1..], 0))
  }

  /** The rest of the packet, by what its remaining length says. */
  function ParseBy(s: seq<byte>, l: Length): (p: Parsed)
    requires |s| >= 2 && (l.Length? ==> 0 < l.used < |s|)
    ensures p.Packet? ==> 2 <= p.size <= |s|
  {
    match l
    case NeedMore => Incomplete
    case TooLong => Malformed
    case Length(n, used) => ParseSized(s, 1 + used, 1 + used + n)
  }

  /** The packet's own octets are s[from..size]. */
  function ParseSized(s: seq<byte>, from: nat, size: nat): (p: Parsed)
    requires 2 <= from <= |s| && from <= size
    ensures p.Packet? ==> p.size == size <= |s|
  {
    if size > |s| then Incomplete
    else
      var cmd, qos := s[0] / 16, Qos(s[0]);
      match ParseBody(cmd, qos, s[from..size], s[from..])
      case None => Malformed
      case Some(b) => Packet(Message(cmd, qos, b), size)
  }

  // ---------------------------------------------------------------- what is sent

  /** mg_mqtt_prepend_header in front of the last len octets of what is to be sent. */
  function Prepend(send: seq<byte>, cmd: nat, flags: nat, len: nat): seq<byte>
    requires len <= |send| && cmd < 16 && flags < 16
  {
    send[..|send| - len] + [cmd * 16 + flags] + LengthOctets(len) + send[|send| - len..]
  }

  function PublishOctets(topic: seq<byte>, id: nat, flags: nat, data: seq<byte>): seq<byte> {
    PutString(topic) + (if Qos(flags) > 0 then Put16(id) else []) + data
  }

  /** mg_mqtt_publish onto the octets already in the send buffer. */
  function Publish(send: seq<byte>, topic: seq<byte>, id: nat, flags: nat, data: seq<byte>): seq<byte>
    requires flags < 16
  {
    var b := PublishOctets(topic, id, flags, data);
    Prepend(send + b, PUBLISH, flags, |b|)
  }

  type Topic = (seq<byte>, byte)

  function TopicOctets(topics: seq<Topic>): seq<byte> {
    if topics == [] then [] else PutString(topics[0].0) + [topics[0].1] + TopicOctets(topics[1..])
  }

  /** mg_mqtt_subscribe. */
  function Subscribe(send: seq<byte>, topics: seq<Topic>, id: nat): seq<byte> {
    var b := Put16(id) + TopicOctets(topics);
    Prepend(send + b, SUBSCRIBE, 2, |b|)
  }

  // ---------------------------------------------------------------- framing

  /** The octets of a packet whose header has been put in front of its body b. */
  function Framed(cmd: nat, flags: nat, b: seq<byte>): seq<byte>
    requires cmd < 16 && flags < 16
  {
    [cmd * 16 + flags] + LengthOctets(|b|) + b
  }

  lemma PrependIsFramed(send: seq<byte>, b: seq<byte>, cmd: nat, flags: nat)
    requires cmd < 16 && flags < 16
    ensures Prepend(send + b, cmd, flags, |b|) == send + Framed(cmd, flags, b)
  {
    assert (send + b)[..|send|] == send && (send + b)[|send|..] == b;
  }

  /** A packet of up to four length octets, as the standard has it, is cut out whole, whatever follows. */
  lemma ParseFramed(cmd: nat, flags: nat, b: seq<byte>, more: seq<byte>)
    requires cmd < 16 && flags < 16 && |b| < Pow128(4)
    ensures Parse(Framed(cmd, flags, b) + more)
            == match ParseBody(cmd, Qos(flags), b, b + more)
               case None => Malformed
               case Some(body) => Packet(Message(cmd, Qos(flags), body), |Framed(cmd, flags, b)|)
  {
    var s, l := Framed(cmd, flags, b) + more, LengthOctets(|b|);
    FramedParts(cmd * 16 + flags, l, b, more);
    assert Pow128(5) == 0x80 * Pow128(4);
    LengthReadsBack(|b|, b + more, 0);
    hide ParseBody, ScanLength, LengthOctets, Pow128;
    FirstOctet(cmd, flags);
    assert |Framed(cmd, flags, b)| == 1 + |l| + |b|;
    hide Framed, Qos;
  }

  lemma FramedParts(first: byte, l: seq<byte>, b: seq<byte>, more: seq<byte>)
    ensures var s := [first] + l + b + more;
            && s[0] == first && s[1..] == l + (b + more)
            && s[1 + |l|..1 + |l| + |b|] == b && s[1 + |l|..] == b + more
  {
    var s := [first] + l + b + more;
    assert s == ([first] + l) + (b + more);
    assert s[1 + |l|..] == b + more;
    assert s[1 + |l|..1 + |l| + |b|] == s[1 + |l|..][..|b|];
  }

  lemma FirstOctet(cmd: nat, flags: nat)
    requires cmd < 16 && flags < 16
    ensures (cmd * 16 + flags) / 16 == cmd && Qos(cmd * 16 + flags) == Qos(flags)
  {
    assert (cmd * 16 + flags) / 2 == 4 * (2 * cmd) + flags / 2;
  }

  /** A packet put behind what is already to be sent is read back whole. */
  lemma PrependRoundTrip(send: seq<byte>, cmd: nat, flags: nat, octets: seq<byte>, body: Body, more: seq<byte>)
    requires cmd < 16 && flags < 16 && |octets| < 0x1000_0000
    requires ParseBody(cmd, Qos(flags), octets, octets + more) == Some(body)
    ensures var s := Prepend(send + octets, cmd, flags, |octets|);
            && |send| <= |s| && s[..|send|] == send
            && Parse(s[|send|..] + more) == Packet(Message(cmd, Qos(flags), body), |s| - |send|)
  {
    PrependIsFramed(send, octets, cmd, flags);
    var s := Prepend(send + octets, cmd, flags, |octets|);
    assert s[|send|..] == Framed(cmd, flags, octets);
    assert Pow128(4) == 0x1000_0000;
    ParseFramed(cmd, flags, octets, more);
    hide Parse, ParseBody, Framed;
  }

  // ---------------------------------------------------------------- more arrives

  /** How far parse_mqtt reads to get the identifier of an acknowledgement. */
  function Reach(s: seq<byte>): nat {
    if |s| >= 2 && IsAck(s[0] / 16) then ReachBy(ScanLength(s[1..], 0)) else 0
  }

  function ReachBy(l: Length): nat { if l.Length? then l.used + 3 else 0 }

  /** Two verdicts that consume the same octets. */
  predicate SameSize(p: Parsed, q: Parsed) {
    && p.Packet? == q.Packet? && p.Malformed? == q.Malformed?
    && (p.Packet? ==> p.size == q.size && p.message.cmd == q.message.cmd)
  }

  /**
   * A packet stays one of the same size when more arrives, and so does what is malformed; its message
   * stays the same unless its identifier is read from what has just arrived behind it.
   */
  lemma ParseExtendExactly(s: seq<byte>, t: seq<byte>)
    requires Parse(s) != Incomplete
    ensures SameSize(Parse(s), Parse(s + t)) && Reach(s + t) == Reach(s)
    ensures Parse(s + t) == Parse(s) <==> !(|s| < Reach(s) <= |s + t|)
  {
    LengthFits(s[1..]);
    LengthKept(s, t);
    ByExtend(s, t, ScanLength(s[1..], 0));
    hide ScanLength, ParseBy, IsAck;
  }

  lemma LengthFits(s: seq<byte>)
    ensures var l := ScanLength(s, 0); l.Length? ==> 0 < l.used <= |s|
  {
  }

  lemma ByExtend(s: seq<byte>, t: seq<byte>, l: Length)
    requires |s| >= 2 && (l.Length? ==> 0 < l.used < |s|) && ParseBy(s, l) != Incomplete
    ensures |s + t| >= |s| && SameSize(ParseBy(s, l), ParseBy(s + t, l))
    ensures ParseBy(s + t, l) == ParseBy(s, l) <==> !(IsAck(s[0] / 16) && |s| < ReachBy(l) <= |s + t|)
  {
    hide ParseSized, ParseBody, IsAck;
    var st := s + t;
    assert |st| >= |s|;
    if l.Length? {
      var from, size := 1 + l.used, 1 + l.used + l.n;
      assert ParseBy(s, l) == ParseSized(s, from, size);
      assert ParseBy(st, l) == ParseSized(st, from, size);
      SizedExtend(s, t, from, size);
    }
  }

  lemma LengthKept(s: seq<byte>, t: seq<byte>)
    requires |s| >= 2 && ScanLength(s[1..], 0) != NeedMore
    ensures |s + t| >= 2 && (s + t)[0] == s[0] && ScanLength((s + t)[1..], 0) == ScanLength(s[1..], 0)
  {
    LengthExtend(s[1..], t, 0);
    assert (s + t)[1..] == s[1..] + t;
    hide *;
  }

  lemma SizedExtend(s: seq<byte>, t: seq<byte>, from: nat, size: nat)
    requires 2 <= from <= |s| && from <= size && ParseSized(s, from, size) != Incomplete
    ensures SameSize(ParseSized(s, from, size), ParseSized(s + t, from, size))
    ensures ParseSized(s + t, from, size) == ParseSized(s, from, size)
            <==> !(IsAck(s[0] / 16) && |s| < from + 2 <= |s + t|)
  {
    hide ParseBody, IsAck;
    assert (s + t)[from..size] == s[from..size] && (s + t)[from..] == s[from..] + t;
    BodyExtend(s[0] / 16, Qos(s[0]), s[from..size], s[from..], t);
  }

  lemma BodyExtend(cmd: nat, qos: nat, b: seq<byte>, seen: seq<byte>, t: seq<byte>)
    ensures var m, m' := ParseBody(cmd, qos, b, seen), ParseBody(cmd, qos, b, seen + t);
            && m.Some? == m'.Some?
            && (m == m' <==> !(IsAck(cmd) && |seen| < 2 <= |seen + t|))
  {
    if IsAck(cmd) && |seen| >= 2 {
      assert U16(seen + t) == U16(seen);
    }
    hide ParseConnect, ParsePublish, U16;
  }

  /** An acknowledgement without an identifier takes the first octets of the packet behind it for one. */
  lemma ShortAckReadsBehind(more: seq<byte>)
    ensures Parse([0x40, 0]) == Packet(Message(4, 0, AckBody(None)), 2)
    ensures Parse([0x40, 0, 0x30, 2] + more) == Packet(Message(4, 0, AckBody(Some(0x3002))), 2)
  {
    var s := [0x40, 0, 0x30, 2] + more;
    assert s[0] == 0x40 && s[1..][0] == 0 && s[2] == 0x30 && s[3] == 2;
    assert ScanLength(s[1..], 0) == Length(0, 1);
    var t: seq<byte> := [0x40, 0];
    assert ScanLength(t[1..], 0) == Length(0, 1);
  }

  /** Every proper prefix of a packet that parses is incomplete. */
  lemma ParseProperPrefix(s: seq<byte>, k: nat)
    requires Parse(s).Packet? && Parse(s).size == |s| && k < |s|
    ensures Parse(s[..k]) == Incomplete
  {
    assert s[..k] + s[k..] == s;
    if Parse(s[..k]) != Incomplete {
      ParseExtendExactly(s[..k], s[k..]);
    }
    hide Parse;
  }

  lemma {:induction false} LengthWhole(s: seq<byte>, k: nat, j: nat)
    requires k <= 4 && ScanLength(s, k).Length? && ScanLength(s, k).used <= j <= |s|
    ensures ScanLength(s[..j], k) == ScanLength(s, k)
    decreases 5 - k
  {
    if s[0] >= 0x80 {
      assert s[..j][1..] == s[1..][..j - 1];
      LengthWhole(s[1..], k + 1, j - 1);
    }
  }

  /** As soon as a packet's own octets are there, it is a packet. */
  lemma ParseWhole(s: seq<byte>, k: nat)
    requires Parse(s).Packet? && Parse(s).size <= k <= |s|
    ensures SameSize(Parse(s), Parse(s[..k]))
  {
    hide *;
    PacketIsSized(s);
    var l, w := ScanLength(s[1..], 0), s[..k];
    assert w[1..] == s[1..][..k - 1];
    LengthStays(s[1..], k - 1);
    PacketIsSized(w);
    SizedWhole(s, k, 1 + l.used, 1 + l.used + l.n);
  }

  lemma PacketIsSized(s: seq<byte>)
    requires |s| >= 2
    ensures var l := ScanLength(s[1..], 0);
            && (l.Length? ==> 0 < l.used < |s| && Parse(s) == ParseSized(s, 1 + l.used, 1 + l.used + l.n))
            && (Parse(s).Packet? ==> l.Length? && Parse(s).size == 1 + l.used + l.n)
  {
    LengthFits(s[1..]);
    hide ScanLength, ParseSized;
  }

  lemma LengthStays(s: seq<byte>, j: nat)
    requires ScanLength(s, 0).Length? && ScanLength(s, 0).used <= j <= |s|
    ensures ScanLength(s[..j], 0) == ScanLength(s, 0)
  {
    LengthWhole(s, 0, j);
  }

  lemma SizedWhole(s: seq<byte>, k: nat, from: nat, size: nat)
    requires 2 <= from <= size <= k <= |s| && ParseSized(s, from, size).Packet?
    ensures SameSize(ParseSized(s, from, size), ParseSized(s[..k], from, size))
  {
    hide ParseBody, IsAck;
    assert s[..k][from..size] == s[from..size] && s[..k][from..] + s[k..] == s[from..];
    BodyExtend(s[0] / 16, Qos(s[0]), s[from..size], s[..k][from..], s[k..]);
  }

  // ---------------------------------------------------------------- PUBLISH

  lemma Put16ReadsBack(n: nat, more: seq<byte>)
    requires n < 65536
    ensures U16(Put16(n) + more) == n && (Put16(n) + more)[2..] == more
  {
  }

  lemma PublishReadsBack(topic: seq<byte>, id: nat, qos: nat, data: seq<byte>)
    requires |topic| < 65536 && id < 65536
    ensures ParsePublish(PutString(topic) + (if qos > 0 then Put16(id) else []) + data, qos)
            == Some(PublishBody(topic, if qos > 0 then Some(id) else None, data))
  {
    var rest := (if qos > 0 then Put16(id) else []) + data;
    assert PutString(topic) + (if qos > 0 then Put16(id) else []) + data == PutString(topic) + rest;
    TakePut(topic, rest);
    Put16ReadsBack(id, data);
    assert [] + data == data;
    hide PutString, TakeString, Put16, U16;
  }

  /** A topic comes back exactly if its length fits in 16 bits. */
  lemma PublishRoundTripExactly(send: seq<byte>, topic: seq<byte>, id: nat, flags: nat, data: seq<byte>,
                                more: seq<byte>)
    requires flags < 16 && id < 65536 && |PublishOctets(topic, id, flags, data)| < Pow128(4)
    ensures var s, message := Publish(send, topic, id, flags, data),
                              Message(PUBLISH, Qos(flags),
                                PublishBody(topic, if Qos(flags) > 0 then Some(id) else None, data));
            && |send| <= |s| && s[..|send|] == send
            && (Parse(s[|send|..] + more) == Packet(message, |s| - |send|) <==> |topic| < 65536)
  {
    var b := PublishOctets(topic, id, flags, data);
    PrependIsFramed(send, b, PUBLISH, flags);
    var s := Publish(send, topic, id, flags, data);
    assert s[|send|..] == Framed(PUBLISH, flags, b);
    ParseFramed(PUBLISH, flags, b, more);
    if |topic| < 65536 {
      PublishReadsBack(topic, id, Qos(flags), data);
    } else {
      PublishedShort(b, Qos(flags));
    }
    hide Parse, ParsePublish, Framed;
  }

  /** A topic of 65536 octets is read as an empty one, and becomes part of the payload. */
  lemma LongTopicIsLost(topic: seq<byte>, data: seq<byte>)
    requires |topic| == 65536 && |data| < 0x10_0000
    ensures Parse(Publish([], topic, 0, 0, data))
            == Packet(Message(PUBLISH, 0, PublishBody([], None, topic + data)), |Publish([], topic, 0, 0, data)|)
  {
    var b := PublishOctets(topic, 0, 0, data);
    assert Pow128(4) == 0x1000_0000 && |b| == 2 + |topic + data|;
    assert b == PutString([]) + (topic + data);
    TakePut([], topic + data);
    assert ParsePublish(b, 0) == Some(PublishBody([], None, topic + data));
    PrependRoundTrip([], PUBLISH, 0, b, PublishBody([], None, topic + data), []);
    var s := Publish([], topic, 0, 0, data);
    assert s[0..] + [] == s;
    hide Parse, ParseBody, Prepend, LengthOctets, Pow128;
  }

  lemma PublishedShort(b: seq<byte>, qos: nat)
    ensures match ParsePublish(b, qos)
            case Some(PublishBody(topic, _, _)) => |topic| < 65536
            case _ => true
  {
  }

  // ---------------------------------------------------------------- SUBSCRIBE

  /** mg_mqtt_next_subscribe_topic: a topic, its quality of service, and the next position. */
  function NextTopic(payload: seq<byte>, pos: nat): (r: Option<(seq<byte>, byte, nat)>)
    ensures r.Some? ==> pos < r.value.2 <= |payload|
  {
    if pos >= |payload| then None
    else match TakeString(payload[pos..])
         case None => None
         case Some((topic, r)) => if r == [] then None else Some((topic, r[0], pos + 2 + |topic| + 1))
  }

  /** What a handler sees that asks for one topic after the other. */
  function Topics(payload: seq<byte>, pos: nat): seq<Topic>
    decreases |payload| - pos
  {
    match NextTopic(payload, pos)
    case None => []
    case Some((topic, qos, next)) => [(topic, qos)] + Topics(payload, next)
  }

  predicate TopicsFit(topics: seq<Topic>) {
    forall i :: 0 <= i < |topics| ==> |topics[i].0| < 65536
  }

  lemma {:induction false} TopicsReadBack(before: seq<byte>, topics: seq<Topic>)
    requires TopicsFit(topics)
    ensures Topics(before + TopicOctets(topics), |before|) == topics
    decreases |topics|
  {
    var payload := before + TopicOctets(topics);
    if topics == [] {
      assert Topics(payload, |before|) == [];
    } else {
      var t, rest := topics[0], TopicOctets(topics[1..]);
      NextReadsBack(before, t, rest);
      var before' := before + (PutString(t.0) + [t.1]);
      assert payload == before + (PutString(t.0) + [t.1] + rest) == before' + rest;
      TopicsReadBack(before', topics[1..]);
    }
  }

  lemma NextReadsBack(before: seq<byte>, t: Topic, rest: seq<byte>)
    requires |t.0| < 65536
    ensures NextTopic(before + (PutString(t.0) + [t.1] + rest), |before|)
            == Some((t.0, t.1, |before + (PutString(t.0) + [t.1])|))
  {
    var payload := before + (PutString(t.0) + [t.1] + rest);
    assert payload[|before|..] == PutString(t.0) + ([t.1] + rest);
    TakePut(t.0, [t.1] + rest);
  }

  lemma {:induction false} TopicsShort(payload: seq<byte>, pos: nat)
    ensures TopicsFit(Topics(payload, pos))
    decreases |payload| - pos
  {
    match NextTopic(payload, pos)
    case None =>
    case Some((topic, qos, next)) => TopicsShort(payload, next);
  }

  /** The topics of a subscription are recovered one by one, exactly if their lengths fit in 16 bits. */
  lemma SubscribeRoundTripExactly(send: seq<byte>, topics: seq<Topic>, id: nat, more: seq<byte>)
    requires id < 65536 && 2 + |TopicOctets(topics)| < Pow128(4)
    ensures var s, payload := Subscribe(send, topics, id), TopicOctets(topics);
            && |send| <= |s| && s[..|send|] == send
            && Parse(s[|send|..] + more) == Packet(Message(SUBSCRIBE, 1, SubscribeBody(id, payload)), |s| - |send|)
            && (Topics(payload, 0) == topics <==> TopicsFit(topics))
  {
    assert Pow128(4) == 0x1000_0000;
    hide Parse, ParseBody, Prepend, Put16, Topics, TopicOctets, TopicsFit;
    var payload := TopicOctets(topics);
    SubscribeBodyParses(id, payload, Put16(id) + payload + more);
    PrependRoundTrip(send, SUBSCRIBE, 2, Put16(id) + payload, SubscribeBody(id, payload), more);
    if TopicsFit(topics) {
      TopicsReadBack([], topics);
      assert [] + payload == payload;
    } else {
      TopicsShort(payload, 0);
    }
  }

  lemma SubscribeBodyParses(id: nat, payload: seq<byte>, seen: seq<byte>)
    requires id < 65536
    ensures ParseBody(SUBSCRIBE, Qos(2), Put16(id) + payload, seen) == Some(SubscribeBody(id, payload)) && Qos(2) == 1
    ensures |Put16(id)| == 2
  {
    Put16ReadsBack(id, payload);
    hide U16;
  }

  // ---------------------------------------------------------------- acknowledgements

  const PUBREL := 6
  const SUBACK := 9

  function AckFlags(cmd: nat): nat { if cmd == PUBREL || cmd == SUBACK then 2 else 0 }

  /** mg_send_mqtt_short_command without codes, mg_mqtt_suback with them. */
  function Acknowledge(send: seq<byte>, cmd: nat, id: nat, codes: seq<byte>): seq<byte>
    requires IsAck(cmd)
  {
    Prepend(send + (Put16(id) + codes), cmd, AckFlags(cmd), 2 + |codes|)
  }

  /** The acknowledgements written here always hold the identifier that is read. */
  lemma AckRoundTrip(send: seq<byte>, cmd: nat, id: nat, codes: seq<byte>, more: seq<byte>)
    requires IsAck(cmd) && id < 65536 && 2 + |codes| < Pow128(4)
    ensures var s := Acknowledge(send, cmd, id, codes);
            && |send| <= |s| && s[..|send|] == send
            && Parse(s[|send|..] + more) == Packet(Message(cmd, Qos(AckFlags(cmd)), AckBody(Some(id))), |s| - |send|)
  {
    assert Pow128(4) == 0x1000_0000;
    var octets := Put16(id) + codes;
    Put16ReadsBack(id, codes + more);
    assert octets + more == Put16(id) + (codes + more);
    assert ParseBody(cmd, Qos(AckFlags(cmd)), octets, octets + more) == Some(AckBody(Some(id)));
    hide Parse, ParseBody, Prepend, Put16, U16, Pow128, Qos;
    PrependRoundTrip(send, cmd, AckFlags(cmd), octets, AckBody(Some(id)), more);
  }

  // ---------------------------------------------------------------- CONNECT

  /** The strings that are not NULL. */
  datatype Options = Options(
    flags: byte, keepAlive: nat,
    willTopic: Option<seq<byte>>, willMessage: Option<seq<byte>>,
    userName: Option<seq<byte>>, password: Option<seq<byte>>)

  /** A caller who sets a flag gives the string that goes with it. */
  predicate OptionsFit(o: Options) {
    && o.keepAlive < 65536
    && (HasBit(o.flags, WILL) ==> o.willTopic.Some? && o.willMessage.Some?)
    && (HasBit(o.flags, USER_NAME) ==> o.userName.Some?)
    && (HasBit(o.flags, PASSWORD) ==> o.password.Some?)
  }

  function SetBit(f: byte, bit: nat, yes: bool): (r: byte)
    requires bit in {WILL, PASSWORD, USER_NAME}
    ensures HasBit(r, bit) == (HasBit(f, bit) || yes)
    ensures bit != WILL ==> HasBit(r, WILL) == HasBit(f, WILL)
    ensures bit != PASSWORD ==> HasBit(r, PASSWORD) == HasBit(f, PASSWORD)
    ensures bit != USER_NAME ==> HasBit(r, USER_NAME) == HasBit(f, USER_NAME)
  {
    if yes && !HasBit(f, bit) then f + bit else f
  }

  function HasWill(o: Options): bool { o.willTopic.Some? && o.willMessage.Some? }

  function SentFlags(o: Options): byte {
    SetBit(SetBit(SetBit(o.flags, USER_NAME, o.userName.Some?), PASSWORD, o.password.Some?), WILL, HasWill(o))
  }

  /** A string as far as its length says when it is cut to 16 bits. */
  function Cut(s: seq<byte>): (c: seq<byte>)
    ensures |c| < 65536 && (c == s <==> |s| < 65536)
  {
    s[..|s| % 65536]
  }

  function CutIf(s: Option<seq<byte>>): (c: Option<seq<byte>>)
    ensures c.Some? == s.Some? && Short(c) && (c == s <==> Short(s))
  {
    if s.Some? then Some(Cut(s.value)) else None
  }

  predicate Short(s: Option<seq<byte>>) { s.Some? ==> |s.value| < 65536 }

  function PutIf(s: Option<seq<byte>>): seq<byte> {
    match s
    case None => []
    case Some(x) => PutString(x)
  }

  const MQTT: seq<byte> := [77, 81, 84, 84]

  /** What a caller asks to be sent. */
  function Asked(o: Options, clientId: seq<byte>): (b: Body)
    ensures b.ConnectBody?
  {
    ConnectBody(MQTT, 4, SentFlags(o), if o.keepAlive == 0 then 60 else o.keepAlive, clientId,
      if HasWill(o) then o.willTopic else None, if HasWill(o) then o.willMessage else None, o.userName, o.password)
  }

  /** What is sent of it. */
  function Sent(o: Options, clientId: seq<byte>): (b: Body)
    ensures b.ConnectBody?
  {
    var a := Asked(o, clientId);
    a.(clientId := Cut(clientId), willTopic := CutIf(a.willTopic), willMessage := CutIf(a.willMessage),
       userName := CutIf(a.userName), password := CutIf(a.password))
  }

  function ConnectOctets(b: Body): seq<byte>
    requires b.ConnectBody?
  {
    PutString(b.protocol) + [b.version, b.flags] + Put16(b.keepAlive) + PutString(b.clientId)
      + (PutIf(b.willTopic) + PutIf(b.willMessage) + PutIf(b.userName) + PutIf(b.password))
  }

  /** mg_send_mqtt_handshake_opt: the length is kept in 16 bits. */
  function Handshake(send: seq<byte>, clientId: seq<byte>, o: Options): seq<byte>
    requires OptionsFit(o)
  {
    var b := ConnectOctets(Sent(o, clientId));
    Prepend(send + b, CONNECT, 0, |b| % 65536)
  }

  lemma TakeIfPut(s: Option<seq<byte>>, there: bool, more: seq<byte>)
    requires s.Some? == there && (there ==> |s.value| < 65536)
    ensures TakeIf(PutIf(s) + more, there) == Some((s, more))
  {
    if there {
      TakePut(s.value, more);
    } else {
      assert [] + more == more;
    }
    hide PutString, TakeString;
  }

  /** The flags of a body say which of its strings are there. */
  predicate FlagsTell(b: Body)
    requires b.ConnectBody?
  {
    && HasBit(b.flags, WILL) == b.willTopic.Some? == b.willMessage.Some?
    && HasBit(b.flags, USER_NAME) == b.userName.Some? && HasBit(b.flags, PASSWORD) == b.password.Some?
  }

  predicate Strings16(b: Body)
    requires b.ConnectBody?
  {
    && |b.protocol| < 65536 && |b.clientId| < 65536 && b.keepAlive < 65536
    && Short(b.willTopic) && Short(b.willMessage) && Short(b.userName) && Short(b.password)
  }

  lemma OptionsReadBack(b: Body)
    requires b.ConnectBody? && FlagsTell(b) && Strings16(b)
    ensures ParseOptions(b.protocol, b.version, b.flags, b.keepAlive, b.clientId,
              PutIf(b.willTopic) + PutIf(b.willMessage) + PutIf(b.userName) + PutIf(b.password)) == Some(b)
  {
    hide PutIf, TakeIf, HasBit;
    var topic, message, user, pass := PutIf(b.willTopic), PutIf(b.willMessage), PutIf(b.userName), PutIf(b.password);
    RegroupFour(topic, message, user, pass);
    TakeIfPut(b.willTopic, HasBit(b.flags, WILL), message + (user + (pass + [])));
    TakeIfPut(b.willMessage, HasBit(b.flags, WILL), user + (pass + []));
    TakeIfPut(b.userName, HasBit(b.flags, USER_NAME), pass + []);
    TakeIfPut(b.password, HasBit(b.flags, PASSWORD), []);
  }

  lemma RegroupFour(a: seq<byte>, b: seq<byte>, c: seq<byte>, d: seq<byte>)
    ensures a + b + c + d == a + (b + (c + (d + [])))
  {
  }

  lemma ConnectReadsBack(b: Body)
    requires b.ConnectBody? && FlagsTell(b) && Strings16(b)
    ensures ParseConnect(ConnectOctets(b)) == Some(b)
  {
    hide ParseOptions, TakeString, PutString, PutIf, Put16, U16, HasBit;
    var tail := PutIf(b.willTopic) + PutIf(b.willMessage) + PutIf(b.userName) + PutIf(b.password);
    var client := PutString(b.clientId) + tail;
    var r := FixedPart(b.version, b.flags, b.keepAlive) + client;
    RegroupConnect(PutString(b.protocol), [b.version, b.flags], Put16(b.keepAlive), PutString(b.clientId), tail);
    FixedReadsBack(b.version, b.flags, b.keepAlive, client);
    TakePut(b.protocol, r);
    TakePut(b.clientId, tail);
    StringIsSome(b.clientId);
    OptionsReadBack(b);
  }

  function FixedPart(version: byte, flags: byte, keepAlive: nat): seq<byte> {
    [version, flags] + Put16(keepAlive)
  }

  lemma FixedReadsBack(version: byte, flags: byte, keepAlive: nat, more: seq<byte>)
    requires keepAlive < 65536
    ensures var r := FixedPart(version, flags, keepAlive) + more;
            && |r| == 4 + |more| && r[0] == version && r[1] == flags && U16(r[2..]) == keepAlive && r[4..] == more
  {
    var r := FixedPart(version, flags, keepAlive) + more;
    assert r[2..] == Put16(keepAlive) + more;
    Put16ReadsBack(keepAlive, more);
    assert r[4..] == r[2..][2..];
  }

  lemma RegroupConnect(a: seq<byte>, b: seq<byte>, c: seq<byte>, d: seq<byte>, e: seq<byte>)
    ensures a + b + c + d + e == a + ((b + c) + (d + e))
  {
  }

  lemma StringIsSome(s: seq<byte>)
    ensures |PutString(s)| >= 2
  {
  }

  lemma SentFits(o: Options, clientId: seq<byte>)
    requires OptionsFit(o)
    ensures FlagsTell(Sent(o, clientId)) && Strings16(Sent(o, clientId))
  {
  }

  lemma ConnectBodyParses(b: Body, seen: seq<byte>)
    requires b.ConnectBody? && FlagsTell(b) && Strings16(b)
    ensures ParseBody(CONNECT, Qos(0), ConnectOctets(b), seen) == Some(b) && Qos(0) == 0
  {
    ConnectReadsBack(b);
    ConnectCase(Qos(0), ConnectOctets(b), seen);
    hide ParseBody, ParseConnect, ConnectOctets, FlagsTell, Strings16;
  }

  lemma ConnectCase(qos: nat, b: seq<byte>, seen: seq<byte>)
    ensures ParseBody(CONNECT, qos, b, seen) == ParseConnect(b)
  {
    hide ParseConnect, ParsePublish, U16;
  }

  lemma SmallRemainder(n: nat)
    ensures n < 65536 ==> n % 65536 == n
  {
  }

  lemma ConnectFramed(send: seq<byte>, b: Body, more: seq<byte>)
    requires b.ConnectBody? && FlagsTell(b) && Strings16(b) && |ConnectOctets(b)| < 65536
    ensures var octets := ConnectOctets(b);
            var s := Prepend(send + octets, CONNECT, 0, |octets| % 65536);
            && |send| <= |s| && s[..|send|] == send
            && Parse(s[|send|..] + more) == Packet(Message(CONNECT, 0, b), |s| - |send|)
  {
    hide ParseBody, Parse, Prepend, ConnectOctets, FlagsTell, Strings16, LengthOctets;
    var octets := ConnectOctets(b);
    ConnectBodyParses(b, octets + more);
    SmallRemainder(|octets|);
    PrependRoundTrip(send, CONNECT, 0, octets, b, more);
  }

  /** With a longer body the header ends up inside it, behind an octet that is zero. */
  lemma ConnectMisplaced(send: seq<byte>, octets: seq<byte>, more: seq<byte>)
    requires |octets| >= 65536 && octets[0] == 0
    ensures var s := Prepend(send + octets, CONNECT, 0, |octets| % 65536);
            && |send| < |s| && s[..|send|] == send && (s[|send|..] + more)[0] == 0
  {
    var s := Prepend(send + octets, CONNECT, 0, |octets| % 65536);
    var cut := |send| + |octets| - |octets| % 65536;
    assert s[..cut] == (send + octets)[..cut];
    assert s[..|send|] == s[..cut][..|send|] && s[|send|] == s[..cut][|send|];
    hide LengthOctets;
  }

  function LengthIf(s: Option<seq<byte>>): nat { if s.Some? then 2 + |s.value| else 0 }

  /** The remaining length of a handshake with all of the caller's strings. */
  function HandshakeLength(o: Options, clientId: seq<byte>): nat {
    12 + |clientId| + LengthIf(o.userName) + LengthIf(o.password)
      + if HasWill(o) then LengthIf(o.willTopic) + LengthIf(o.willMessage) else 0
  }

  lemma OctetsLength(b: Body)
    requires b.ConnectBody? && b.protocol == MQTT
    ensures |ConnectOctets(b)| == 12 + |b.clientId| + LengthIf(b.willTopic) + LengthIf(b.willMessage)
                                  + LengthIf(b.userName) + LengthIf(b.password)
  {
    PutIfLength(b.willTopic);
    PutIfLength(b.willMessage);
    PutIfLength(b.userName);
    PutIfLength(b.password);
    assert |PutString(MQTT)| == 6 && |PutString(b.clientId)| == 2 + |b.clientId|;
    hide PutIf, PutString, LengthIf;
  }

  lemma PutIfLength(s: Option<seq<byte>>)
    ensures |PutIf(s)| == LengthIf(s)
  {
  }

  lemma AskedLength(o: Options, clientId: seq<byte>)
    ensures |ConnectOctets(Asked(o, clientId))| == HandshakeLength(o, clientId)
  {
    OctetsLength(Asked(o, clientId));
    hide SentFlags, ConnectOctets;
  }

  lemma AskedFits(o: Options, clientId: seq<byte>)
    ensures HandshakeLength(o, clientId) < 65536 ==> Sent(o, clientId) == Asked(o, clientId)
  {
    hide SentFlags;
  }

  /** The handshake is read back with the caller's strings exactly if its length fits in 16 bits. */
  lemma ConnectRoundTripExactly(send: seq<byte>, clientId: seq<byte>, o: Options, more: seq<byte>)
    requires OptionsFit(o)
    ensures var s := Handshake(send, clientId, o);
            && |send| <= |s| && s[..|send|] == send
            && (Parse(s[|send|..] + more) == Packet(Message(CONNECT, 0, Asked(o, clientId)), |s| - |send|)
                <==> HandshakeLength(o, clientId) < 65536)
  {
    var b := Sent(o, clientId);
    SentFits(o, clientId);
    AskedLength(o, clientId);
    AskedFits(o, clientId);
    hide Parse, ConnectOctets, Sent, Asked, Prepend, FlagsTell, Strings16, HandshakeLength;
    if |ConnectOctets(b)| < 65536 {
      ConnectFramed(send, b, more);
    } else {
      ConnectBegins(b);
      ConnectMisplaced(send, ConnectOctets(b), more);
      FirstOctetTells(Handshake(send, clientId, o)[|send|..] + more);
    }
  }

  lemma ConnectBegins(b: Body)
    requires b.ConnectBody? && b.protocol == MQTT
    ensures ConnectOctets(b) != [] && ConnectOctets(b)[0] == 0
  {
  }

  const PlainOptions := Options(0, 0, None, None, None, None)

  /** A client identifier of 65536 octets is sent as an empty one. */
  lemma LongClientIdIsLost(clientId: seq<byte>)
    requires |clientId| == 65536
    ensures OptionsFit(PlainOptions)
    ensures var s := Handshake([], clientId, PlainOptions);
            && |s| == 14 && Parse(s) == Packet(Message(CONNECT, 0, Asked(PlainOptions, [])), 14)
  {
    var o := PlainOptions;
    PlainSent(clientId);
    AskedLength(o, []);
    hide Parse, Asked, Sent, ConnectOctets, Prepend;
    ConnectRoundTripExactly([], [], o, []);
    var s := Handshake([], [], o);
    assert s[0..] + [] == s;
    PrependLength(ConnectOctets(Sent(o, [])));
  }

  lemma PlainSent(clientId: seq<byte>)
    requires |clientId| == 65536
    ensures OptionsFit(PlainOptions) && HandshakeLength(PlainOptions, []) == 12
    ensures Sent(PlainOptions, clientId) == Sent(PlainOptions, []) == Asked(PlainOptions, [])
  {
    assert !HasBit(0, WILL) && !HasBit(0, USER_NAME) && !HasBit(0, PASSWORD);
    assert Cut(clientId) == [];
  }

  lemma PrependLength(b: seq<byte>)
    requires |b| < 0x80
    ensures |Prepend([] + b, CONNECT, 0, |b| % 65536)| == 2 + |b|
  {
  }

  lemma FirstOctetTells(s: seq<byte>)
    requires s != []
    ensures Parse(s).Packet? ==> Parse(s).message.cmd == s[0] / 16
  {
    hide ParseBody, ScanLength;
  }
}
